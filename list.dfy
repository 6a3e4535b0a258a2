/** The live feed of `DeploymentList.js`: the list of records shown as cards,
    into which a new random record is pushed on every timer tick, keeping the
    ten newest; and the pure mappings each card uses (status and environment
    classes, the status dot, the relative time, the progress bar). The timer,
    `Math.random` and `Date` are replaced by parameters: the random draws are
    passed in as reals in `[0, 1)`, the clock as the current time. */
module LiveFeed {
  import opened Strings
  import opened Deployments

  /** The feed never holds more than this many records after a tick. */
  const MaxLive: nat := 10

  // ---------------------------------------------------------------------------
  // The rolling feed
  // ---------------------------------------------------------------------------

  /** `[newDeployment, ...prev.slice(0, 9)]`: the new record in front of the
      nine newest survivors, which keep their order. */
  function Prepend(prev: seq<Deployment>, newDeployment: Deployment): (r: seq<Deployment>)
    ensures |r| == if |prev| + 1 < MaxLive then |prev| + 1 else MaxLive
    ensures r[0] == newDeployment
    ensures r[1..] == prev[..|r| - 1]
  {
    [newDeployment] + prev[..if |prev| < MaxLive - 1 then |prev| else MaxLive - 1]
  }

  /** The state held by the list component. */
  class DeploymentList {
    var liveDeployments: seq<Deployment>

    /** `useState(deployments)`: the feed starts as the records it is given,
        however many there are. */
    constructor(deployments: seq<Deployment>)
      ensures liveDeployments == deployments
    {
      liveDeployments := deployments;
    }

    /** One timer tick: the new record goes in front and the feed is cut back
        to the ten newest. */
    method Tick(newDeployment: Deployment)
      modifies this
      ensures liveDeployments == Prepend(old(liveDeployments), newDeployment)
      ensures |liveDeployments| <= MaxLive && liveDeployments[0] == newDeployment
    {
      liveDeployments := Prepend(liveDeployments, newDeployment);
    }
  }

  /** The feed after one tick per record of `news`, oldest tick first. */
  function Ticks(init: seq<Deployment>, news: seq<Deployment>): seq<Deployment>
  {
    if news == [] then init else Prepend(Ticks(init, news[..|news| - 1]), news[|news| - 1])
  }

  function Reverse<T>(s: seq<T>): (r: seq<T>)
    ensures |r| == |s| && forall i :: 0 <= i < |s| ==> r[i] == s[|s| - 1 - i]
  {
    if s == [] then [] else [s[|s| - 1]] + Reverse(s[..|s| - 1])
  }

  /** After one or more ticks the feed is the newest records, newest first,
      followed by the initial ones, cut at ten: a long initial list is cut
      too, and nothing is lost before the cut. */
  lemma {:induction false} TicksKeepNewestTen(init: seq<Deployment>, news: seq<Deployment>)
    requires |news| >= 1
    ensures var n := if |init| + |news| < MaxLive then |init| + |news| else MaxLive;
            Ticks(init, news) == (Reverse(news) + init)[..n]
  {
    var last := news[|news| - 1];
    var rest := news[..|news| - 1];
    assert Reverse(news) == [last] + Reverse(rest);
    var prev := Ticks(init, rest);
    var n := if |init| + |news| < MaxLive then |init| + |news| else MaxLive;
    var r := Ticks(init, news);
    var big := Reverse(news) + init;
    assert r == Prepend(prev, last);
    if rest == [] {
      assert prev == init;
    } else {
      TicksKeepNewestTen(init, rest);
    }
    assert |r| == n;
    forall i | 0 <= i < n
      ensures r[i] == big[i]
    {
      if i > 0 {
        assert r[i] == r[1..][i - 1] == prev[i - 1];
        assert big[i] == (Reverse(rest) + init)[i - 1];
      }
    }
  }

  // ---------------------------------------------------------------------------
  // A generated record
  // ---------------------------------------------------------------------------

  const Usernames: seq<string> := ["dev_guru", "code_wizard", "tech_ninja", "web_master", "cloud_expert"]
  const ProjectNames: seq<string> :=
    ["Social Media App", "Crypto Wallet", "Weather Tracker", "Video Streaming Service", "Chat Application"]
  const Statuses: seq<string> := ["success", "in_progress", "failed"]
  const Environments: seq<string> := ["production", "staging", "development"]

  /** `Math.floor(x * n)` for a draw `x` of `Math.random()`. */
  function RandomIndex(x: real, n: nat): (i: nat)
    requires 0.0 <= x < 1.0 && n > 0
    ensures i < n
  {
    var y := x * n as real;
    assert n as real - y == (1.0 - x) * n as real;
    assert (1.0 - x) * n as real > 0.0;
    assert 0.0 <= y < n as real;
    y.Floor
  }

  /** A draw from a list of options. */
  function Pick(options: seq<string>, x: real): (r: string)
    requires 0.0 <= x < 1.0 && |options| > 0
    ensures r in options
  {
    options[RandomIndex(x, |options|)]
  }

  /** The duration text `"{m}m {s}s"`. */
  function Duration(m: nat, s: nat): string
  {
    NatToString(m) + "m " + NatToString(s) + "s"
  }

  /** `Math.random() > 0.5 ? 'men' : 'women'`. */
  function Gender(x: real): string
  {
    if x > 0.5 then "men" else "women"
  }

  /** The portrait URL of a generated record. */
  function AvatarUrl(gender: string, k: nat): string
  {
    "https://randomuser.me/api/portraits/" + gender + "/" + NatToString(k) + ".jpg"
  }

  /** The eight draws of `Math.random()` the record literal makes, in the order
      JavaScript evaluates them. */
  predicate ValidDraws(draws: seq<real>)
  {
    |draws| == 8 && forall i :: 0 <= i < 8 ==> 0.0 <= draws[i] < 1.0
  }

  /** The record made on a tick, from the clock (`Date.now()` and the ISO text
      of the same instant) and the random draws. */
  function Generate(now: int, isoNow: string, draws: seq<real>): (d: Deployment)
    requires ValidDraws(draws)
    ensures d.id == now && d.deployedAt == isoNow
    ensures d.username in Usernames && d.projectName in ProjectNames && d.environment in Environments
    ensures IsKnownStatus(d.status)
    ensures exists m: nat, s: nat :: m < 5 && s < 60 && d.duration == Duration(m, s)
    ensures exists k: nat :: k < 100 && d.avatar == AvatarUrl(Gender(draws[3]), k)
  {
    var m, s := RandomIndex(draws[6], 5), RandomIndex(draws[7], 60);
    var k := RandomIndex(draws[4], 100);
    var d := Deployment(
      now,
      Pick(Usernames, draws[0]),
      Pick(ProjectNames, draws[1]),
      isoNow,
      Pick(Statuses, draws[2]),
      AvatarUrl(Gender(draws[3]), k),
      Pick(Environments, draws[5]),
      Duration(m, s));
    assert d.duration == Duration(m, s);
    assert d.avatar == AvatarUrl(Gender(draws[3]), k);
    d
  }

  /** The duration text determines its minutes and seconds. */
  lemma DurationInjective(m: nat, s: nat, m2: nat, s2: nat)
    requires Duration(m, s) == Duration(m2, s2)
    ensures m == m2 && s == s2
  {
    var a, b := NatToString(m), NatToString(m2);
    var t := Duration(m, s);
    assert t == a + "m " + NatToString(s) + "s";
    assert t == b + "m " + NatToString(s2) + "s";
    assert !IsDigit(t[|a|]) && !IsDigit(t[|b|]);
    assert forall i :: 0 <= i < |a| ==> IsDigit(t[i]);
    assert forall i :: 0 <= i < |b| ==> IsDigit(t[i]);
    assert |a| == |b|;
    assert a == t[..|a|] == b;
    NatToStringInjective(m, m2);
    assert NatToString(s) == t[|a| + 2..|t| - 1] == NatToString(s2);
    NatToStringInjective(s, s2);
  }

  // ---------------------------------------------------------------------------
  // Card mappings
  // ---------------------------------------------------------------------------

  /** `getStatusClass`: a class for each of the three statuses, none otherwise. */
  function StatusClass(status: string): (c: string)
    ensures c == "" <==> !IsKnownStatus(status)
    ensures c != "" ==> StartsWith(c, "status-")
  {
    match status
    case "success" => "status-success"
    case "in_progress" => "status-in-progress"
    case "failed" => "status-failed"
    case _ => ""
  }

  /** `getEnvironmentClass`: a class for each of the three environments, none
      otherwise. */
  function EnvironmentClass(env: string): (c: string)
    ensures c == "" <==> env !in Environments
    ensures c != "" ==> StartsWith(c, "environment-")
  {
    match env
    case "production" => "environment-production"
    case "staging" => "environment-staging"
    case "development" => "environment-development"
    case _ => ""
  }

  /** Distinct statuses and distinct environments get distinct classes. */
  lemma ClassesDistinguish(a: string, b: string)
    ensures StatusClass(a) == StatusClass(b) && StatusClass(a) != "" ==> a == b
    ensures EnvironmentClass(a) == EnvironmentClass(b) && EnvironmentClass(a) != "" ==> a == b
  {
  }

  /** The colour of the dot on the avatar. */
  function DotClass(status: string): (c: string)
    ensures c == "bg-green-500" <==> status == "success"
    ensures c == "bg-yellow-500" <==> status == "in_progress"
    ensures c == "bg-red-500" <==> !(status == "success" || status == "in_progress")
  {
    if status == "success" then "bg-green-500"
    else if status == "in_progress" then "bg-yellow-500"
    else "bg-red-500"
  }

  /** How long ago something happened, as a count of one unit. */
  datatype Ago = Ago(amount: int, unit: string)

  /** The bucketing of `formatTime` for `d` elapsed seconds: whole seconds
      below a minute (a clock ahead of `now` gives a negative count), else
      whole minutes below an hour, whole hours below a day, whole days. */
  function Bucket(d: int): (a: Ago)
    ensures a.unit == "seconds" <==> d < 60
    ensures a.unit == "seconds" ==> a.amount == d
    ensures a.unit == "minutes" <==> 60 <= d < 3600
    ensures a.unit == "minutes" ==> 1 <= a.amount < 60 && a.amount * 60 <= d < a.amount * 60 + 60
    ensures a.unit == "hours" <==> 3600 <= d < 86400
    ensures a.unit == "hours" ==> 1 <= a.amount < 24 && a.amount * 3600 <= d < a.amount * 3600 + 3600
    ensures a.unit == "days" <==> 86400 <= d
    ensures a.unit == "days" ==> 1 <= a.amount && a.amount * 86400 <= d < a.amount * 86400 + 86400
  {
    if d < 60 then Ago(d, "seconds")
    else if d < 3600 then Ago(d / 60, "minutes")
    else if d < 86400 then Ago(d / 3600, "hours")
    else Ago(d / 86400, "days")
  }

  function UnitRank(unit: string): nat
  {
    if unit == "seconds" then 0 else if unit == "minutes" then 1 else if unit == "hours" then 2 else 3
  }

  /** As more time passes the text never goes back: the unit only grows, and
      within one unit the count only grows. */
  lemma BucketMonotone(d1: int, d2: int)
    requires d1 <= d2
    ensures var a1, a2 := Bucket(d1), Bucket(d2);
            UnitRank(a1.unit) < UnitRank(a2.unit) || (a1.unit == a2.unit && a1.amount <= a2.amount)
  {
  }

  /** `formatTime` for a record `elapsedMs` milliseconds old: the elapsed
      seconds are rounded down, then bucketed. */
  function FormatTime(elapsedMs: int): string
  {
    var a := Bucket(elapsedMs / 1000);
    IntToString(a.amount) + " " + a.unit + " ago"
  }

  /** The shown time in terms of the milliseconds: each unit counts whole
      units of milliseconds, so rounding down twice loses nothing. */
  lemma {:induction false} FormatTimeUnits(elapsedMs: int)
    ensures elapsedMs < 60000 ==> FormatTime(elapsedMs) == IntToString(elapsedMs / 1000) + " seconds ago"
    ensures 60000 <= elapsedMs < 3600000 ==> FormatTime(elapsedMs) == IntToString(elapsedMs / 60000) + " minutes ago"
    ensures 3600000 <= elapsedMs < 86400000 ==> FormatTime(elapsedMs) == IntToString(elapsedMs / 3600000) + " hours ago"
    ensures 86400000 <= elapsedMs ==> FormatTime(elapsedMs) == IntToString(elapsedMs / 86400000) + " days ago"
  {
    assert " " + "seconds" + " ago" == " seconds ago";
    assert " " + "minutes" + " ago" == " minutes ago";
    assert " " + "hours" + " ago" == " hours ago";
    assert " " + "days" + " ago" == " days ago";
    if elapsedMs < 60000 {
      FormatTimeIn(elapsedMs, 1, 0, 60, "seconds");
    } else if elapsedMs < 3600000 {
      FormatTimeIn(elapsedMs, 60, 60, 3600, "minutes");
    } else if elapsedMs < 86400000 {
      FormatTimeIn(elapsedMs, 3600, 3600, 86400, "hours");
    } else {
      FormatTimeIn(elapsedMs, 86400, 86400, -1, "days");
    }
  }

  /** Within one bucket (from `lo` seconds to below `hi`, or with no upper end
      when `hi` is negative) the shown amount counts whole `n`-second units. */
  lemma {:induction false} FormatTimeIn(elapsedMs: int, n: nat, lo: int, hi: int, unit: string)
    requires n > 0
    requires (n, lo, hi, unit) in {(1, 0, 60, "seconds"), (60, 60, 3600, "minutes"),
                                   (3600, 3600, 86400, "hours"), (86400, 86400, -1, "days")}
    requires (lo == 0 || 1000 * lo <= elapsedMs) && (hi < 0 || elapsedMs < 1000 * hi)
    ensures FormatTime(elapsedMs) == IntToString(elapsedMs / (1000 * n)) + (" " + unit + " ago")
  {
    var d := elapsedMs / 1000;
    assert lo == 0 || lo <= d;
    assert hi < 0 || d < hi;
    FloorTwice(elapsedMs, n);
    if n == 1 {
      assert d / 1 == d;
    }
  }

  /** Whole `n`-second units in whole seconds are whole `1000 * n`
      milliseconds. */
  lemma {:induction false} FloorTwice(ms: int, n: nat)
    requires n > 0
    ensures ms / 1000 / n == ms / (1000 * n)
  {
    var d := ms / 1000;
    var m := d / n;
    var r := ms - 1000 * n * m;
    assert ms == 1000 * d + ms % 1000;
    assert d == n * m + d % n;
    assert r == 1000 * (d % n) + ms % 1000;
    assert 0 <= r < 1000 * n by {
      assert d % n <= n - 1;
      assert 1000 * (d % n) <= 1000 * (n - 1);
    }
    DivUnique(ms, 1000 * n, m, r);
  }

  /** The quotient is the one whole number that leaves a remainder in range. */
  lemma {:induction false} DivUnique(x: int, k: int, q: int, r: int)
    requires k > 0 && 0 <= r < k && x == k * q + r
    ensures x / k == q
  {
    var q' := x / k;
    assert x == k * q' + x % k;
    if q' > q {
      MulStep(k, q', q);
      assert false;
    } else if q' < q {
      MulStep(k, q, q');
      assert false;
    }
  }

  lemma {:induction false} MulStep(k: int, a: int, b: int)
    requires k > 0 && a > b
    ensures k * a >= k * b + k
  {
    var t := a - b;
    assert k * a == k * b + k * t;
    MulAtLeast(k, t);
  }

  lemma {:induction false} MulAtLeast(k: int, t: int)
    requires k > 0 && t >= 1
    ensures k * t >= k
    decreases t
  {
    if t > 1 {
      MulAtLeast(k, t - 1);
      assert k * t == k * (t - 1) + k;
    }
  }

  /** What a card shows besides the record's own fields. */
  datatype Card = Card(
    statusLabel: string,
    statusClass: string,
    environmentClass: string,
    dotClass: string,
    time: string,
    progressBar: bool)

  /** The card of a record `elapsedMs` milliseconds old. */
  function CardOf(d: Deployment, elapsedMs: int): (c: Card)
    ensures c.progressBar <==> d.status == "in_progress"
    ensures c.statusClass == "" <==> !IsKnownStatus(d.status)
    ensures c.environmentClass == "" <==> d.environment !in Environments
    ensures c.time == FormatTime(elapsedMs)
  {
    Card(StatusLabel(d.status), StatusClass(d.status), EnvironmentClass(d.environment),
         DotClass(d.status), FormatTime(elapsedMs), d.status == "in_progress")
  }

  /** The dot and the label split the statuses the same three ways, and only an
      in-progress record has a progress bar. A status outside the three is
      labelled "Failed" with a red dot but gets no status class. */
  lemma CardAgrees(d: Deployment, elapsedMs: int)
    ensures var c := CardOf(d, elapsedMs);
            && (c.dotClass == "bg-green-500" <==> c.statusLabel == "Successful")
            && (c.dotClass == "bg-yellow-500" <==> c.statusLabel == "In Progress")
            && (c.dotClass == "bg-red-500" <==> c.statusLabel == "Failed")
            && (c.progressBar <==> c.statusLabel == "In Progress")
            && (!IsKnownStatus(d.status) ==> c.statusLabel == "Failed" && c.statusClass == "")
  {
  }
}
