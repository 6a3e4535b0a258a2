/** String operations of the Python and JavaScript runtimes that the modelled
    code relies on, written out exactly: literal substring search,
    `str.replace`, `str.split(' ')`, `' '.join`, `str.strip`, `str.lower`, and
    the decimal rendering of integers. Strings are sequences of characters. */
module Strings {
  import opened Wrappers

  // ---------------------------------------------------------------------------
  // Substring search
  // ---------------------------------------------------------------------------

  /** `pat` occurs in `s` starting at index `i`. */
  predicate OccursAt(s: string, pat: string, i: nat)
  {
    i + |pat| <= |s| && s[i..i + |pat|] == pat
  }

  predicate StartsWith(s: string, prefix: string)
  {
    OccursAt(s, prefix, 0)
  }

  /** The first index at or after `from` where `pat` occurs in `s`, if any. */
  function FindFrom(s: string, pat: string, from: nat): (r: Option<nat>)
    ensures r.Some? ==> from <= r.value && OccursAt(s, pat, r.value)
    ensures r.Some? ==> forall j: nat :: from <= j < r.value ==> !OccursAt(s, pat, j)
    ensures r.None? ==> forall j: nat :: from <= j ==> !OccursAt(s, pat, j)
    decreases |s| - from
  {
    if from + |pat| > |s| then None
    else if OccursAt(s, pat, from) then Some(from)
    else FindFrom(s, pat, from + 1)
  }

  /** Two strings that agree on their first `n` characters have the same
      occurrences of `pat` that end within those characters. */
  lemma OccursInCommonPrefix(s: string, t: string, n: nat, pat: string, j: nat)
    requires n <= |s| && n <= |t| && s[..n] == t[..n]
    requires j + |pat| <= n
    ensures OccursAt(s, pat, j) <==> OccursAt(t, pat, j)
  {
    assert s[j..j + |pat|] == s[..n][j..j + |pat|];
    assert t[j..j + |pat|] == t[..n][j..j + |pat|];
  }

  // ---------------------------------------------------------------------------
  // Python's str.replace(old, new): every non-overlapping occurrence, left to right
  // ---------------------------------------------------------------------------

  /** `s.replace("", sep)`: `sep` before every character and at the end. */
  function Interleave(s: string, sep: string): (r: string)
    ensures |r| == |s| * (|sep| + 1) + |sep|
  {
    if s == [] then sep else sep + [s[0]] + Interleave(s[1..], sep)
  }

  /** `s.replace(pat, repl)`: scans left to right, replacing each occurrence of
      `pat` and resuming after it; an empty `pat` matches between all characters. */
  function Replace(s: string, pat: string, repl: string): (r: string)
    ensures pat != [] && |repl| == |pat| ==> |r| == |s|
    decreases |s|
  {
    if pat == [] then Interleave(s, repl)
    else if OccursAt(s, pat, 0) then repl + Replace(s[|pat|..], pat, repl)
    else if s == [] then []
    else [s[0]] + Replace(s[1..], pat, repl)
  }

  /** Replacing a string by itself changes nothing. */
  lemma {:induction false} ReplaceSelf(s: string, pat: string)
    ensures Replace(s, pat, pat) == s
    decreases |s|
  {
    if pat == [] {
      InterleaveEmpty(s);
    } else if OccursAt(s, pat, 0) {
      ReplaceSelf(s[|pat|..], pat);
      assert s == s[..|pat|] + s[|pat|..];
    } else if s != [] {
      ReplaceSelf(s[1..], pat);
      assert s == [s[0]] + s[1..];
    }
  }

  /** Where the `k`-th copy of a separator of length `n` starts in an interleaving. */
  function Slot(k: nat, n: nat): nat
  {
    k * (n + 1)
  }

  /** Each slot lies one separator and one character after the one before. */
  lemma SlotStep(k: nat, n: nat)
    requires k > 0
    ensures Slot(k, n) == Slot(k - 1, n) + n + 1
  {
    assert k * (n + 1) == (k - 1) * (n + 1) + (n + 1);
  }

  /** The `k`-th character of `s` comes right after the `k`-th copy of the
      separator. */
  lemma {:induction false} InterleaveChar(s: string, sep: string, k: nat)
    requires k < |s|
    ensures Slot(k, |sep|) + |sep| < |Interleave(s, sep)|
    ensures Interleave(s, sep)[Slot(k, |sep|) + |sep|] == s[k]
    decreases k
  {
    var n := |sep|;
    var t := Interleave(s[1..], sep);
    assert Interleave(s, sep) == sep + [s[0]] + t;
    if k > 0 {
      InterleaveChar(s[1..], sep, k - 1);
      SlotStep(k, n);
      var i := Slot(k - 1, n) + n;
      assert Slot(k, n) + n == i + n + 1;
      assert (sep + [s[0]] + t)[i + n + 1] == t[i];
    } else {
      assert Slot(0, n) == 0;
    }
  }

  /** A copy of the separator starts at every slot: before each character of
      `s` and at the end. */
  lemma {:induction false} InterleaveSep(s: string, sep: string, k: nat)
    requires k <= |s|
    ensures Slot(k, |sep|) + |sep| <= |Interleave(s, sep)|
    ensures Interleave(s, sep)[Slot(k, |sep|)..Slot(k, |sep|) + |sep|] == sep
    decreases k
  {
    var n := |sep|;
    if k > 0 {
      var t := Interleave(s[1..], sep);
      assert Interleave(s, sep) == sep + [s[0]] + t;
      InterleaveSep(s[1..], sep, k - 1);
      SlotStep(k, n);
      var i := Slot(k - 1, n);
      assert Slot(k, n) == i + n + 1;
      assert (sep + [s[0]] + t)[i + n + 1..i + n + 1 + n] == t[i..i + n];
    } else {
      assert Slot(0, n) == 0;
      if s != [] {
        assert Interleave(s, sep) == sep + [s[0]] + Interleave(s[1..], sep);
      }
    }
  }

  lemma {:induction false} InterleaveEmpty(s: string)
    ensures Interleave(s, []) == s
  {
    if s != [] {
      InterleaveEmpty(s[1..]);
      assert s == [s[0]] + s[1..];
    }
  }

  /** Dropping the first character shifts every occurrence one place left. */
  lemma OccursShift(s: string, pat: string, j: nat)
    requires s != []
    ensures OccursAt(s[1..], pat, j) <==> OccursAt(s, pat, j + 1)
  {
    if j + |pat| <= |s[1..]| {
      assert s[1..][j..j + |pat|] == s[j + 1..j + 1 + |pat|];
    }
  }

  /** A string without any occurrence of a non-empty `pat` is left as it is. */
  lemma {:induction false} ReplaceAbsent(s: string, pat: string, repl: string)
    requires pat != []
    requires forall j: nat :: !OccursAt(s, pat, j)
    ensures Replace(s, pat, repl) == s
    decreases |s|
  {
    if s != [] {
      forall j: nat ensures !OccursAt(s[1..], pat, j) {
        OccursShift(s, pat, j);
      }
      ReplaceAbsent(s[1..], pat, repl);
    }
  }

  /** Where no occurrence starts, one character is copied and the scan moves on. */
  lemma ReplaceStep(s: string, pat: string, repl: string)
    requires pat != [] && s != [] && !OccursAt(s, pat, 0)
    ensures Replace(s, pat, repl) == [s[0]] + Replace(s[1..], pat, repl)
  {
  }

  /** Text before the first occurrence of a non-empty `pat` is copied unchanged. */
  lemma {:induction false} ReplaceSkip(s: string, pat: string, repl: string, k: nat)
    requires pat != [] && k <= |s|
    requires forall j: nat :: j < k ==> !OccursAt(s, pat, j)
    ensures Replace(s, pat, repl) == s[..k] + Replace(s[k..], pat, repl)
    decreases k
  {
    if k > 0 {
      var t := s[1..];
      NoOccurrenceAfterDrop(s, pat, k);
      ReplaceStep(s, pat, repl);
      ReplaceSkip(t, pat, repl, k - 1);
      assert t[k - 1..] == s[k..];
      ConsPrefix(s, k, Replace(s[k..], pat, repl), Replace(s, pat, repl), Replace(t, pat, repl));
    }
  }

  /** Dropping the first character of a text with no occurrence below `k`
      leaves one with no occurrence below `k - 1`. */
  lemma NoOccurrenceAfterDrop(s: string, pat: string, k: nat)
    requires 0 < k <= |s|
    requires forall j: nat :: j < k ==> !OccursAt(s, pat, j)
    ensures !OccursAt(s, pat, 0)
    ensures forall j: nat :: j < k - 1 ==> !OccursAt(s[1..], pat, j)
  {
    assert !OccursAt(s, pat, 0);
    forall j: nat | j < k - 1 ensures !OccursAt(s[1..], pat, j) {
      OccursShift(s, pat, j);
    }
  }

  /** A first character put before a text that starts with the next `k - 1`
      characters gives a text that starts with the first `k`. */
  lemma ConsPrefix(s: string, k: nat, rest: string, a: string, b: string)
    requires 0 < k <= |s|
    requires a == [s[0]] + b && b == s[1..][..k - 1] + rest
    ensures a == s[..k] + rest
  {
    assert s[..k] == [s[0]] + s[1..][..k - 1];
  }

  /** An occurrence at the front is replaced and the scan resumes after it. */
  lemma ReplaceFront(pat: string, rest: string, repl: string)
    requires pat != []
    ensures Replace(pat + rest, pat, repl) == repl + Replace(rest, pat, repl)
  {
    assert (pat + rest)[..|pat|] == pat;
    assert (pat + rest)[|pat|..] == rest;
  }

  // ---------------------------------------------------------------------------
  // Decimal rendering (Python's str(int), JavaScript's template literals)
  // ---------------------------------------------------------------------------

  predicate IsDigit(c: char)
  {
    '0' <= c <= '9'
  }

  function DigitChar(d: nat): (c: char)
    requires d < 10
    ensures IsDigit(c) && c as int - '0' as int == d
  {
    ('0' as int + d) as char
  }

  /** The decimal digits of `n`, most significant first, without leading zeros. */
  function NatToString(n: nat): (r: string)
    ensures |r| >= 1 && forall k :: 0 <= k < |r| ==> IsDigit(r[k])
    ensures r[0] == '0' ==> n == 0
    decreases n
  {
    if n < 10 then [DigitChar(n)] else NatToString(n / 10) + [DigitChar(n % 10)]
  }

  function IntToString(i: int): (r: string)
    ensures |r| >= 1
    ensures r[0] == '-' <==> i < 0
  {
    if i < 0 then "-" + NatToString(-i) else NatToString(i)
  }

  /** The number a string of decimal digits denotes. */
  function DigitsValue(s: string): nat
    requires forall k :: 0 <= k < |s| ==> IsDigit(s[k])
  {
    if s == [] then 0
    else
      assert IsDigit(s[|s| - 1]);
      DigitsValue(s[..|s| - 1]) * 10 + (s[|s| - 1] as int - '0' as int)
  }

  /** Reading the rendered digits back gives the number. */
  lemma {:induction false} NatToStringRoundTrip(n: nat)
    ensures DigitsValue(NatToString(n)) == n
    decreases n
  {
    if n >= 10 {
      NatToStringRoundTrip(n / 10);
      var s := NatToString(n);
      assert s[..|s| - 1] == NatToString(n / 10);
    }
  }

  /** Distinct numbers render to distinct strings. */
  lemma NatToStringInjective(m: nat, n: nat)
    requires NatToString(m) == NatToString(n)
    ensures m == n
  {
    NatToStringRoundTrip(m);
    NatToStringRoundTrip(n);
  }

  // ---------------------------------------------------------------------------
  // Python's str.lower() and str.strip(), on the ASCII range
  // ---------------------------------------------------------------------------

  function LowerChar(c: char): char
  {
    if 'A' <= c <= 'Z' then (c as int + 32) as char else c
  }

  predicate IsLowerCase(s: string)
  {
    forall k :: 0 <= k < |s| ==> !('A' <= s[k] <= 'Z')
  }

  /** Every upper-case letter mapped to its lower-case form, the rest kept. */
  function Lower(s: string): (r: string)
    ensures |r| == |s| && IsLowerCase(r)
    ensures forall k :: 0 <= k < |s| && !('A' <= s[k] <= 'Z') ==> r[k] == s[k]
    ensures forall k :: 0 <= k < |s| && 'A' <= s[k] <= 'Z' ==> r[k] as int == s[k] as int + 32
    ensures IsLowerCase(s) ==> r == s
  {
    seq(|s|, k requires 0 <= k < |s| => LowerChar(s[k]))
  }

  /** The characters Python's `str.isspace` accepts in the ASCII range. */
  predicate IsSpace(c: char)
  {
    c == ' ' || 9 <= c as int <= 13 || 28 <= c as int <= 31
  }

  /** The number of whitespace characters `s` begins with. */
  function LeadingSpaces(s: string): (n: nat)
    ensures n <= |s| && (n == |s| || !IsSpace(s[n]))
    ensures forall k :: 0 <= k < n ==> IsSpace(s[k])
  {
    if s != [] && IsSpace(s[0]) then 1 + LeadingSpaces(s[1..]) else 0
  }

  /** The index after the last non-whitespace character of `s[..hi]`, or `lo`. */
  function ContentEnd(s: string, lo: nat, hi: nat): (e: nat)
    requires lo <= hi <= |s|
    ensures lo <= e <= hi && (e == lo || !IsSpace(s[e - 1]))
    ensures forall k :: e <= k < hi ==> IsSpace(s[k])
    decreases hi
  {
    if hi > lo && IsSpace(s[hi - 1]) then ContentEnd(s, lo, hi - 1) else hi
  }

  /** `r` is what remains of `s` once the whitespace before index `lo` and
      from index `hi` on is removed. */
  predicate IsTrimmedSlice(s: string, r: string, lo: nat, hi: nat)
  {
    && lo <= hi <= |s| && r == s[lo..hi]
    && (forall k :: 0 <= k < lo ==> IsSpace(s[k]))
    && (forall k :: hi <= k < |s| ==> IsSpace(s[k]))
  }

  /** `s.strip()`: the slice left once leading and trailing whitespace is gone. */
  function Strip(s: string): (r: string)
    ensures r == [] || (!IsSpace(r[0]) && !IsSpace(r[|r| - 1]))
    ensures IsTrimmedSlice(s, r, LeadingSpaces(s), LeadingSpaces(s) + |r|)
  {
    var lo := LeadingSpaces(s);
    s[lo..ContentEnd(s, lo, |s|)]
  }

  // ---------------------------------------------------------------------------
  // Python's s.split(' ') and ' '.join(words)
  // ---------------------------------------------------------------------------

  /** `s.split(' ')`: cut at every single space, keeping empty words; never empty. */
  function Split(s: string): (ws: seq<string>)
    ensures |ws| >= 1
    ensures forall k :: 0 <= k < |ws| ==> ' ' !in ws[k]
    decreases |s|
  {
    if s == [] then [""]
    else if s[0] == ' ' then [""] + Split(s[1..])
    else
      var rest := Split(s[1..]);
      [[s[0]] + rest[0]] + rest[1..]
  }

  /** `sep.join(ws)`. */
  function Join(ws: seq<string>, sep: string): string
  {
    if ws == [] then "" else if |ws| == 1 then ws[0] else ws[0] + sep + Join(ws[1..], sep)
  }

  /** Joining the words of a split with a space restores the text. */
  lemma {:induction false} JoinSplit(s: string)
    ensures Join(Split(s), " ") == s
    decreases |s|
  {
    if s != [] {
      var rest := Split(s[1..]);
      JoinSplit(s[1..]);
      if s[0] == ' ' {
        assert Split(s) == [""] + rest;
        assert Join(Split(s), " ") == "" + " " + Join(rest, " ");
      } else {
        var ws := Split(s);
        assert ws == [[s[0]] + rest[0]] + rest[1..];
        if |rest| == 1 {
          assert Join(ws, " ") == [s[0]] + rest[0];
        } else {
          assert ws[1..] == rest[1..];
          assert Join(ws, " ") == [s[0]] + rest[0] + " " + Join(rest[1..], " ");
        }
      }
    }
  }

  /** Splitting a space-joined list of space-free words gives the words back. */
  lemma {:induction false} SplitJoin(ws: seq<string>)
    requires |ws| >= 1
    requires forall k :: 0 <= k < |ws| ==> ' ' !in ws[k]
    ensures Split(Join(ws, " ")) == ws
    decreases |ws|
  {
    var w := ws[0];
    assert ' ' !in w;
    assert w + "" == w;
    if |ws| == 1 {
      assert Split("") == [""];
      SplitWord(w, "");
    } else {
      var more := ws[1..];
      assert forall k :: 0 <= k < |more| ==> ' ' !in more[k] by {
        forall k | 0 <= k < |more| ensures ' ' !in more[k] {
          assert more[k] == ws[k + 1];
        }
      }
      var j := Join(more, " ");
      SplitJoin(more);
      SplitSpaceFront(j);
      SplitWord(w, " " + j);
      assert Join(ws, " ") == w + (" " + j);
      assert ws == [w + ""] + more;
    }
  }

  /** A leading space splits off an empty first word. */
  lemma SplitSpaceFront(j: string)
    ensures Split(" " + j) == [""] + Split(j)
  {
    assert (" " + j)[1..] == j;
  }

  /** A space-free word in front of `rest` extends the first word of the split. */
  lemma {:induction false} SplitWord(w: string, rest: string)
    requires ' ' !in w
    ensures Split(w + rest) == [w + Split(rest)[0]] + Split(rest)[1..]
    decreases |w|
  {
    var sp := Split(rest);
    if w == [] {
      assert w + rest == rest;
      assert w + sp[0] == sp[0];
      assert sp == [sp[0]] + sp[1..];
    } else {
      var u := w[1..];
      assert w[0] in w;
      assert ' ' !in u by {
        forall k | 0 <= k < |u| ensures u[k] != ' ' {
          assert u[k] == w[k + 1];
          assert w[k + 1] in w;
        }
      }
      SplitWord(u, rest);
      var r := Split(u + rest);
      assert r == [u + sp[0]] + sp[1..];
      var x := w + rest;
      assert x[0] == w[0] && x[0] != ' ';
      assert x[1..] == u + rest;
      assert Split(x) == [[x[0]] + r[0]] + r[1..];
      assert [x[0]] + r[0] == w + sp[0];
      assert r[1..] == sp[1..];
    }
  }

  /** Joining two non-empty lists puts one separator between their joins. */
  lemma {:induction false} JoinAppend(a: seq<string>, b: seq<string>, sep: string)
    requires |a| >= 1 && |b| >= 1
    ensures Join(a + b, sep) == Join(a, sep) + sep + Join(b, sep)
    decreases |a|
  {
    if |a| == 1 {
      assert (a + b)[1..] == b;
    } else {
      JoinAppend(a[1..], b, sep);
      assert (a + b)[1..] == a[1..] + b;
    }
  }
}
