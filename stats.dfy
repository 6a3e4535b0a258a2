/** The figures of `DeploymentStats.js`: the total, the per-status counts, the
    success rate rounded with `Math.round`, the rating next to it, and the
    widths of the three progress bars. Arithmetic is exact on rationals. */
module Stats {
  import opened Wrappers
  import opened Deployments

  /** The success rate in percent of `s` successes among `t` records, 0 when
      there are none. `Math.round(s / t * 100)` is the floor of
      `100 * s / t + 1/2`, which in exact arithmetic is `(200 * s + t) / (2 * t)`;
      the bracket below says that `r` is the integer nearest to `100 * s / t`,
      halves rounded up. */
  function SuccessRate(s: nat, t: nat): (r: nat)
    requires s <= t
    ensures r <= 100
    ensures t == 0 ==> r == 0
    ensures t > 0 ==> r * (2 * t) <= 200 * s + t < r * (2 * t) + 2 * t
  {
    if t == 0 then 0
    else
      DivBracket(200 * s + t, 2 * t);
      PercentBound(200 * s + t, 2 * t, (200 * s + t) / (2 * t));
      (200 * s + t) / (2 * t)
  }

  /** Integer division rounds down. */
  lemma DivBracket(a: int, d: int)
    requires d > 0 && a >= 0
    ensures (a / d) * d <= a < (a / d) * d + d
  {
  }

  /** A quotient of a number below `101 * d` by `d` is a percentage. */
  lemma PercentBound(a: int, d: int, r: int)
    requires d > 0 && 0 <= a < 101 * d
    requires r * d <= a < r * d + d
    ensures 0 <= r <= 100
  {
    MulMonotone(r, 100, d);
    MulMonotone(-1, r, d);
  }

  /** `a <= b` exactly when `a * t <= b * t`, for a positive `t`. */
  lemma MulMonotone(a: int, b: int, t: int)
    requires t > 0
    ensures a <= b <==> a * t <= b * t
  {
    if a <= b {
      assert b * t - a * t == (b - a) * t;
    } else {
      assert a * t - b * t == (a - b) * t;
    }
  }

  /** All successes give 100, none give 0. */
  lemma RateExtremes(s: nat, t: nat)
    requires s <= t && t > 0
    ensures s == t ==> SuccessRate(s, t) == 100
    ensures s == 0 ==> SuccessRate(s, t) == 0
  {
    var r := SuccessRate(s, t);
    if s == t {
      MulMonotone(r, 99, 2 * t);
    }
    if s == 0 {
      MulMonotone(1, r, 2 * t);
    }
  }

  /** The stat cards' figures. */
  datatype Figures = Figures(total: nat, successful: nat, failed: nat, inProgress: nat, successRate: nat)

  function ComputeFigures(ds: seq<Deployment>): (f: Figures)
    ensures f.total == |ds|
    ensures f.successful + f.failed + f.inProgress <= f.total
    ensures f.successRate <= 100
  {
    CountsCoverKnownStatuses(ds);
    Figures(|ds|, Count(ds, "success"), Count(ds, "failed"), Count(ds, "in_progress"),
            SuccessRate(Count(ds, "success"), |ds|))
  }

  /** The rating shown beside the rate. */
  function Rating(successRate: nat): (r: string)
    ensures r == "Excellent" <==> successRate >= 80
    ensures r != "Excellent" ==> r == "Needs improvement"
  {
    if successRate >= 80 then "Excellent" else "Needs improvement"
  }

  /** The rating's colour class, green exactly when the rating is "Excellent". */
  function RatingClass(successRate: nat): (r: string)
    ensures r == "text-green-400" <==> Rating(successRate) == "Excellent"
    ensures r != "text-green-400" ==> r == "text-yellow-400"
  {
    if successRate >= 80 then "text-green-400" else "text-yellow-400"
  }

  /** The rating is "Excellent" exactly when at least 159 in 200 records (79.5%)
      succeeded, since such rates round to 80 or more; with no records it is
      "Needs improvement". */
  lemma ExcellentThreshold(ds: seq<Deployment>)
    ensures var f := ComputeFigures(ds);
            && (Rating(f.successRate) == "Excellent" <==> f.total > 0 && 200 * f.successful >= 159 * f.total)
            && (RatingClass(f.successRate) == "text-green-400" <==> Rating(f.successRate) == "Excellent")
  {
    var f := ComputeFigures(ds);
    if f.total > 0 {
      RateAtLeast80(f.successful, f.total);
    }
  }

  /** A rounded rate of 80 or more means at least 79.5% successes. */
  lemma RateAtLeast80(s: nat, t: nat)
    requires s <= t && t > 0
    ensures SuccessRate(s, t) >= 80 <==> 200 * s >= 159 * t
  {
    var r := SuccessRate(s, t);
    MulMonotone(80, r, 2 * t);
    MulMonotone(r, 79, 2 * t);
  }

  /** The width in percent of a bar for `c` of `t` records; `c / t * 100` is
      not a number when `t` is 0. */
  function ShareWidth(c: nat, t: nat): (w: Option<real>)
    requires c <= t
    ensures w.None? <==> t == 0
    ensures w.Some? ==> 0.0 <= w.value <= 100.0 && w.value * t as real == 100.0 * c as real
  {
    if t == 0 then None
    else
      assert c as real / t as real <= 1.0;
      Some(c as real / t as real * 100.0)
  }

  /** The width of the success bar: the rounded rate, a whole percent, so it
      is 0 without records and otherwise the nearest whole percent to the
      exact share `100 * s / t`. */
  function SuccessWidth(ds: seq<Deployment>): (w: real)
    ensures 0.0 <= w <= 100.0
    ensures ds == [] ==> w == 0.0
    ensures w == w.Floor as real
    ensures ds != [] ==>
      w.Floor * (2 * |ds|) <= 200 * Count(ds, "success") + |ds| < w.Floor * (2 * |ds|) + 2 * |ds|
  {
    SuccessRate(Count(ds, "success"), |ds|) as real
  }

  /** The width of the in-progress bar: the exact share, in percent. */
  function InProgressWidth(ds: seq<Deployment>): (w: Option<real>)
    ensures w.None? <==> ds == []
    ensures w.Some? ==> w.value * |ds| as real == 100.0 * Count(ds, "in_progress") as real
  {
    ShareWidth(Count(ds, "in_progress"), |ds|)
  }

  /** The width of the failed bar: the exact share, in percent. */
  function FailedWidth(ds: seq<Deployment>): (w: Option<real>)
    ensures w.None? <==> ds == []
    ensures w.Some? ==> w.value * |ds| as real == 100.0 * Count(ds, "failed") as real
  {
    ShareWidth(Count(ds, "failed"), |ds|)
  }

  /** Together the three bars are never more than half a percent too wide. */
  lemma {:induction false} BarWidthsAtMostHalfOver(ds: seq<Deployment>)
    requires ds != []
    ensures SuccessWidth(ds) + InProgressWidth(ds).value + FailedWidth(ds).value <= 100.5
  {
    CountsCoverKnownStatuses(ds);
    SharesAtMostHalfOver(Count(ds, "success"), Count(ds, "in_progress"), Count(ds, "failed"), |ds|);
  }

  /** The same bound, on the counts. */
  lemma SharesAtMostHalfOver(s: nat, i: nat, f: nat, t: nat)
    requires t > 0 && s + i + f <= t
    ensures SuccessRate(s, t) as real + ShareWidth(i, t).value + ShareWidth(f, t).value <= 100.5
  {
    WidthSumBound(SuccessRate(s, t), ShareWidth(i, t).value, ShareWidth(f, t).value, s, i, f, t);
  }

  /** A rounded share plus two exact shares, of counts that fit within the
      total, come to at most 100.5. */
  lemma WidthSumBound(r: int, x: real, y: real, s: nat, i: nat, f: nat, t: nat)
    requires t > 0 && s + i + f <= t
    requires r * (2 * t) <= 200 * s + t
    requires x * t as real == 100.0 * i as real && y * t as real == 100.0 * f as real
    ensures r as real + x + y <= 100.5
  {
    assert (r * (2 * t)) as real == 2.0 * (r as real * t as real);
    assert (r as real + x + y) * t as real == r as real * t as real + x * t as real + y * t as real;
    RealCancel(r as real + x + y, 100.5, t as real);
  }

  /** The success bar is rounded but the other two are exact, so the three
      bars can together be wider than the track: two successes and one build
      in progress give 67% + 33.3…% + 0%. */
  lemma BarWidthsCanOverfill(ds: seq<Deployment>)
    requires |ds| == 3
    requires ds[0].status == "success" && ds[1].status == "success" && ds[2].status == "in_progress"
    ensures SuccessWidth(ds) + InProgressWidth(ds).value + FailedWidth(ds).value > 100.0
  {
    assert ds[2..][1..] == [];
    assert ds[1..][1..] == ds[2..];
    assert Count(ds[2..], "success") == 0 && Count(ds[2..], "in_progress") == 1 && Count(ds[2..], "failed") == 0;
    assert Count(ds[1..], "success") == 1 && Count(ds[1..], "in_progress") == 1 && Count(ds[1..], "failed") == 0;
    assert Count(ds, "success") == 2 && Count(ds, "in_progress") == 1 && Count(ds, "failed") == 0;
    assert SuccessRate(2, 3) == 67;
    assert InProgressWidth(ds).value * 3.0 == 100.0;
  }

  /** With records, the in-progress and failed widths together are at most
      100%; without records they are not numbers. */
  lemma BarWidthsShares(ds: seq<Deployment>)
    ensures InProgressWidth(ds).None? <==> ds == []
    ensures FailedWidth(ds).None? <==> ds == []
    ensures ds != [] ==> InProgressWidth(ds).value + FailedWidth(ds).value <= 100.0
  {
    CountsCoverKnownStatuses(ds);
    if ds != [] {
      ShareWidthsAdd(Count(ds, "in_progress"), Count(ds, "failed"), |ds|);
    }
  }

  /** Two widths of the same total add up to at most 100%. */
  lemma {:induction false} ShareWidthsAdd(a: nat, b: nat, t: nat)
    requires t > 0 && a + b <= t
    ensures ShareWidth(a, t).value + ShareWidth(b, t).value <= 100.0
  {
    var ip, fl := ShareWidth(a, t).value, ShareWidth(b, t).value;
    var tr := t as real;
    assert (ip + fl) * tr == ip * tr + fl * tr;
    assert (ip + fl) * tr == 100.0 * (a + b) as real;
    assert 100.0 * (a + b) as real <= 100.0 * tr;
    RealCancel(ip + fl, 100.0, tr);
  }

  /** A positive factor can be cancelled from both sides of `<=`. */
  lemma RealCancel(x: real, m: real, t: real)
    requires t > 0.0 && x * t <= m * t
    ensures x <= m
  {
    assert m * t - x * t == (m - x) * t;
  }

  /** The five sample records of the landing page (three successes, one in
      progress, one failure) give a rate of 60%, rated "Needs improvement". */
  lemma SampleRecordsRate(ds: seq<Deployment>)
    requires |ds| == 5
    requires ds[0].status == "success" && ds[1].status == "success" && ds[2].status == "in_progress"
    requires ds[3].status == "failed" && ds[4].status == "success"
    ensures ComputeFigures(ds).successRate == 60
    ensures Rating(ComputeFigures(ds).successRate) == "Needs improvement"
  {
    assert Count(ds[4..], "success") == 1 by {
      assert ds[4..][1..] == [];
    }
    assert ds[3..][1..] == ds[4..];
    assert Count(ds[3..], "success") == 1;
    assert ds[2..][1..] == ds[3..];
    assert Count(ds[2..], "success") == 1;
    assert ds[1..][1..] == ds[2..];
    assert Count(ds[1..], "success") == 2;
    var r := SuccessRate(3, 5);
    MulMonotone(2 * r, 121, 5);
    MulMonotone(2 * r, 119, 5);
  }
}
