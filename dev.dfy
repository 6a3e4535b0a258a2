/** The text handling of `dev/dev.py`: the `@/` command scanner of
    `Dev.preprocess`, which splices a command's result back into the query,
    and the normalisation of extracted `<FN::name>body</FN::name>` calls in
    `Dev.postprocess`. The results of the commands and the calls found in the
    model's answer are inputs; the calls themselves are not made here. */
module Dev {
  import opened Wrappers
  import opened Strings

  // ---------------------------------------------------------------------------
  // preprocess: scanning the words for `@/name param` commands
  // ---------------------------------------------------------------------------

  /** A command found in the query: the function path, its parameters (at
      most one), and the word index after which its result is inserted. */
  datatype Call = Call(fn: string, params: seq<string>, idx: nat)

  /** The function path named by a command word: the `@/` prefix removed and a
      leading `/` added when the rest has none. */
  function FnName(word: string): (r: string)
    requires StartsWith(word, "@/")
    ensures '/' in r
    ensures r == word[2..] || r == "/" + word[2..]
    ensures r == word[2..] <==> '/' in word[2..]
  {
    var name := word[2..];
    if '/' !in name then
      assert "/" + name == ['/'] + name;
      assert ('/' in ['/'] + name);
      "/" + name
    else name
  }

  /** Word `i` starts a command: it begins with `@/` and the word before it did
      not start a command (that word would be waiting for its parameter). */
  predicate IsCallWord(words: seq<string>, i: nat)
    requires i < |words|
  {
    StartsWith(words[i], "@/") && !(i > 0 && IsCallWord(words, i - 1))
  }

  /** The indices below `n` of the words that start a command, in order. */
  function CallIndices(words: seq<string>, n: nat): (r: seq<nat>)
    requires n <= |words|
    ensures forall k :: 0 <= k < |r| ==> r[k] < n && IsCallWord(words, r[k])
    ensures forall j :: 0 <= j < n && IsCallWord(words, j) ==> j in r
    ensures forall k, l :: 0 <= k < l < |r| ==> r[k] < r[l]
  {
    if n == 0 then []
    else CallIndices(words, n - 1) + (if IsCallWord(words, n - 1) then [n - 1] else [])
  }

  /** The command started by word `j` once the first `n` words are scanned: its
      parameter is the next word, if that word was scanned. */
  function CallUpTo(words: seq<string>, j: nat, n: nat): Call
    requires j < |words| && n <= |words| && StartsWith(words[j], "@/")
  {
    Call(FnName(words[j]), if j + 1 < n then [words[j + 1]] else [], j + 2)
  }

  /** The commands of the whole query, one per command word. */
  function Calls(words: seq<string>): (r: seq<Call>)
    ensures |r| == |CallIndices(words, |words|)|
  {
    var js := CallIndices(words, |words|);
    seq(|js|, k requires 0 <= k < |js| => CallUpTo(words, js[k], |words|))
  }

  /** The state of the scan after the first `i` words: `fnDetected` says
      whether the last word opened a command, and `fns` holds the commands
      opened so far, with the parameters seen so far. */
  ghost predicate Scanned(words: seq<string>, i: nat, fns: seq<Call>, fnDetected: bool)
    requires i <= |words|
  {
    && fnDetected == (i > 0 && IsCallWord(words, i - 1))
    && |fns| == |CallIndices(words, i)|
    && forall k :: 0 <= k < |fns| ==> fns[k] == CallUpTo(words, CallIndices(words, i)[k], i)
  }

  /** The scan of `preprocess`: a word beginning with `@/` opens a command
      unless one is waiting for its parameter, and the next word, whatever it
      is, becomes that parameter. */
  method ScanCalls(words: seq<string>) returns (fns: seq<Call>)
    ensures fns == Calls(words)
  {
    fns := [];
    var fnDetected := false;
    var i := 0;
    while i < |words|
      invariant 0 <= i <= |words|
      invariant Scanned(words, i, fns, fnDetected)
    {
      var word := words[i];
      if StartsWith(word, "@/") && !fnDetected {
        ScanOpens(words, i, fns);
        fns := fns + [Call(FnName(word), [], i + 2)];
        fnDetected := true;
      } else if fnDetected {
        ScanTakesParameter(words, i, fns);
        var last := fns[|fns| - 1];
        fns := fns[..|fns| - 1] + [last.(params := last.params + [word])];
        fnDetected := false;
      } else {
        ScanSkips(words, i, fns);
      }
      i := i + 1;
    }
  }

  /** A command's record does not change once its parameter word is behind. */
  lemma CallUpToStable(words: seq<string>, j: nat, i: nat)
    requires j < i < |words| && StartsWith(words[j], "@/") && j + 1 != i
    ensures CallUpTo(words, j, i) == CallUpTo(words, j, i + 1)
  {
  }

  lemma ScanOpens(words: seq<string>, i: nat, fns: seq<Call>)
    requires i < |words| && StartsWith(words[i], "@/")
    requires Scanned(words, i, fns, false)
    ensures Scanned(words, i + 1, fns + [Call(FnName(words[i]), [], i + 2)], true)
  {
    var js := CallIndices(words, i);
    assert IsCallWord(words, i);
    assert CallIndices(words, i + 1) == js + [i];
    forall k | 0 <= k < |fns| ensures fns[k] == CallUpTo(words, CallIndices(words, i + 1)[k], i + 1) {
      assert CallIndices(words, i + 1)[k] == js[k];
      CallUpToStable(words, js[k], i);
    }
  }

  lemma ScanTakesParameter(words: seq<string>, i: nat, fns: seq<Call>)
    requires i < |words|
    requires Scanned(words, i, fns, true)
    ensures fns != []
    ensures var last := fns[|fns| - 1];
            Scanned(words, i + 1, fns[..|fns| - 1] + [last.(params := last.params + [words[i]])], false)
  {
    var js := CallIndices(words, i);
    assert js == CallIndices(words, i - 1) + [i - 1];
    assert !IsCallWord(words, i);
    assert CallIndices(words, i + 1) == js;
    var last := fns[|fns| - 1];
    var fns' := fns[..|fns| - 1] + [last.(params := last.params + [words[i]])];
    forall k | 0 <= k < |fns'| ensures fns'[k] == CallUpTo(words, js[k], i + 1) {
      if k < |fns| - 1 {
        CallUpToStable(words, js[k], i);
      }
    }
  }

  lemma ScanSkips(words: seq<string>, i: nat, fns: seq<Call>)
    requires i < |words| && !StartsWith(words[i], "@/")
    requires Scanned(words, i, fns, false)
    ensures Scanned(words, i + 1, fns, false)
  {
    var js := CallIndices(words, i);
    assert CallIndices(words, i + 1) == js;
    forall k | 0 <= k < |fns| ensures fns[k] == CallUpTo(words, js[k], i + 1) {
      CallUpToStable(words, js[k], i);
    }
  }

  /** The word after a command word is its parameter and never opens a
      command, even when it begins with `@/`. */
  lemma ParameterNeverCalls(words: seq<string>, i: nat)
    requires i + 1 < |words| && IsCallWord(words, i)
    ensures !IsCallWord(words, i + 1)
    ensures CallUpTo(words, i, |words|).params == [words[i + 1]]
  {
  }

  /** In a run of consecutive `@/` words that follows a non-command word,
      exactly every other word opens a command, starting with the first. */
  lemma {:induction false} CommandRunAlternates(words: seq<string>, s: nat, t: nat)
    requires s + t < |words|
    requires forall m :: s <= m <= s + t ==> StartsWith(words[m], "@/")
    requires s == 0 || !IsCallWord(words, s - 1)
    ensures IsCallWord(words, s + t) <==> t % 2 == 0
    decreases t
  {
    if t > 0 {
      CommandRunAlternates(words, s, t - 1);
    }
  }

  /** A query without a word beginning with `@/` has no commands. */
  lemma {:induction false} NoCommandWordNoCalls(words: seq<string>, n: nat)
    requires n <= |words|
    requires forall m :: 0 <= m < |words| ==> !StartsWith(words[m], "@/")
    ensures CallIndices(words, n) == []
  {
    if n > 0 {
      NoCommandWordNoCalls(words, n - 1);
    }
  }

  // ---------------------------------------------------------------------------
  // preprocess: splicing the result back into the text
  // ---------------------------------------------------------------------------

  /** `' '.join([*words[:idx], '-->', result, *words[idx:]])`, where slicing
      past the end of the list stops at its end. */
  function Spliced(words: seq<string>, idx: nat, result: string): string
  {
    var m := if idx <= |words| then idx else |words|;
    Join(words[..m] + ["-->", result] + words[m..], " ")
  }

  /** The spliced text reads: the words before the insertion point joined by
      spaces, then `--> ` and the result, then the remaining words, with a
      single space at each seam and none at an end of the text. */
  lemma {:induction false} SplicedText(words: seq<string>, idx: nat, result: string)
    ensures var m := if idx <= |words| then idx else |words|;
            Spliced(words, idx, result)
              == (if m == 0 then "" else Join(words[..m], " ") + " ")
                 + "--> " + result
                 + (if m == |words| then "" else " " + Join(words[m..], " "))
  {
    var m := if idx <= |words| then idx else |words|;
    var before, after := words[..m], words[m..];
    assert words[..m] + ["-->", result] + words[m..] == before + ["-->", result] + after;
    JoinAround(before, after, result);
  }

  /** `Join(before + ["-->", result] + after, " ")` piece by piece. */
  lemma {:induction false} JoinAround(before: seq<string>, after: seq<string>, result: string)
    ensures Join(before + ["-->", result] + after, " ")
              == (if before == [] then "" else Join(before, " ") + " ")
                 + "--> " + result
                 + (if after == [] then "" else " " + Join(after, " "))
  {
    if before == [] {
      assert before + ["-->", result] + after == ["-->", result] + after;
      JoinArrowThen(after, result);
    } else {
      JoinAfterWords(before, after, result);
    }
  }

  lemma {:induction false} JoinAfterWords(before: seq<string>, after: seq<string>, result: string)
    requires before != []
    ensures Join(before + ["-->", result] + after, " ")
              == Join(before, " ") + " " + "--> " + result
                 + (if after == [] then "" else " " + Join(after, " "))
  {
    var rest := ["-->", result] + after;
    assert before + ["-->", result] + after == before + rest;
    JoinAppend(before, rest, " ");
    JoinArrowThen(after, result);
  }

  lemma {:induction false} JoinArrow(result: string)
    ensures Join(["-->", result], " ") == "--> " + result
  {
    assert ["-->", result][1..] == [result];
  }

  lemma {:induction false} JoinArrowThen(after: seq<string>, result: string)
    ensures Join(["-->", result] + after, " ")
              == "--> " + result + (if after == [] then "" else " " + Join(after, " "))
  {
    JoinArrow(result);
    if after == [] {
      assert ["-->", result] + after == ["-->", result];
    } else {
      JoinAppend(["-->", result], after, " ");
    }
  }

  /** Splitting a spliced text at its spaces gives the original words with
      `-->` and the result inserted, provided the result has no space: the
      splice adds two words and changes no other. */
  lemma {:induction false} SplicedWords(words: seq<string>, idx: nat, result: string)
    requires forall k :: 0 <= k < |words| ==> ' ' !in words[k]
    requires ' ' !in result
    ensures var m := if idx <= |words| then idx else |words|;
            && Split(Spliced(words, idx, result)) == words[..m] + ["-->", result] + words[m..]
            && Split(Spliced(words, idx, result))[..m] + Split(Spliced(words, idx, result))[m + 2..] == words
  {
    var m := if idx <= |words| then idx else |words|;
    var ws := words[..m] + ["-->", result] + words[m..];
    InsertedWords(words, m, result, ws);
    SplitJoin(ws);
  }

  /** Inserting `-->` and a space-free result among space-free words gives
      space-free words, from which the two inserted ones can be cut out again. */
  lemma InsertedWords(words: seq<string>, m: nat, result: string, ws: seq<string>)
    requires forall k :: 0 <= k < |words| ==> ' ' !in words[k]
    requires ' ' !in result && m <= |words|
    requires ws == words[..m] + ["-->", result] + words[m..]
    ensures forall k :: 0 <= k < |ws| ==> ' ' !in ws[k]
    ensures ws[..m] + ws[m + 2..] == words
  {
    forall k | 0 <= k < |ws| ensures ' ' !in ws[k] {
      if k < m {
        assert ws[k] == words[k];
      } else if k >= m + 2 {
        assert ws[k] == words[k - 2];
      }
    }
    assert ws[..m] == words[..m] && ws[m + 2..] == words[m..];
  }

  /** `Dev.preprocess`: the query is split at single spaces and scanned for
      commands; each command's result (given, one per command, in order)
      rebuilds the text from the ORIGINAL words, so only the last command's
      `--> result` is in the returned text. */
  method Preprocess(text: string, results: seq<string>) returns (out: string, fns: seq<Call>)
    requires |results| == |Calls(Split(text))|
    ensures fns == Calls(Split(text))
    ensures fns == [] ==> out == text
    ensures fns != [] ==> out == Spliced(Split(text), fns[|fns| - 1].idx, results[|results| - 1])
  {
    var words := Split(text);
    fns := ScanCalls(words);
    out := text;
    for k := 0 to |fns|
      invariant k == 0 ==> out == text
      invariant k > 0 ==> out == Spliced(words, fns[k - 1].idx, results[k - 1])
    {
      out := Spliced(words, fns[k].idx, results[k]);
    }
  }

  // ---------------------------------------------------------------------------
  // postprocess: normalising the extracted calls
  // ---------------------------------------------------------------------------

  /** A call found in the answer: the name between `<FN::` and `>`, the body up
      to the matching closing tag, and the `<name>value</name>` pairs found in
      the body, in order. */
  datatype Extracted = Extracted(name: string, body: string, paramMatches: seq<(string, string)>)

  /** A normalised call record. `parameters` is a dictionary kept as the list
      of its entries in insertion order. */
  datatype FunctionCall = FunctionCall(functionName: string, parameters: seq<(string, string)>)

  /** The keys of a dictionary, in insertion order. */
  function Keys(d: seq<(string, string)>): (ks: seq<string>)
    ensures |ks| == |d| && forall i :: 0 <= i < |d| ==> ks[i] == d[i].0
  {
    if d == [] then [] else [d[0].0] + Keys(d[1..])
  }

  /** No key appears twice, as in a dictionary. */
  predicate UniqueKeys(d: seq<(string, string)>)
  {
    forall i, j :: 0 <= i < j < |d| ==> d[i].0 != d[j].0
  }

  /** The value stored under `key`, if any. */
  function Lookup(d: seq<(string, string)>, key: string): (r: Option<string>)
    ensures r.None? <==> key !in Keys(d)
  {
    if d == [] then None
    else if d[0].0 == key then Some(d[0].1)
    else Lookup(d[1..], key)
  }

  /** `d[key] = value`: an existing key keeps its place and takes the new
      value; a new key goes at the end. */
  function Put(d: seq<(string, string)>, key: string, value: string): (r: seq<(string, string)>)
    ensures Keys(r) == if key in Keys(d) then Keys(d) else Keys(d) + [key]
    ensures forall i :: 0 <= i < |d| && d[i].0 != key ==> r[i] == d[i]
    ensures forall i :: 0 <= i < |r| ==> r[i] == (key, value) || (i < |d| && r[i] == d[i])
  {
    if d == [] then [(key, value)]
    else if d[0].0 == key then [(key, value)] + d[1..]
    else [d[0]] + Put(d[1..], key, value)
  }

  /** Putting a key into a dictionary keeps its keys unique and makes the key
      map to the value, leaving every other key's value alone. */
  lemma {:induction false} PutLookup(d: seq<(string, string)>, key: string, value: string, other: string)
    requires UniqueKeys(d)
    ensures UniqueKeys(Put(d, key, value))
    ensures Lookup(Put(d, key, value), key) == Some(value)
    ensures other != key ==> Lookup(Put(d, key, value), other) == Lookup(d, other)
  {
    PutKeepsUnique(d, key, value);
    PutLookupSame(d, key, value);
    if other != key {
      PutLookupOther(d, key, value, other);
    }
  }

  /** After a put the key maps to the value. */
  lemma {:induction false} PutLookupSame(d: seq<(string, string)>, key: string, value: string)
    ensures Lookup(Put(d, key, value), key) == Some(value)
  {
    if d != [] && d[0].0 != key {
      PutLookupSame(d[1..], key, value);
      assert Put(d, key, value)[1..] == Put(d[1..], key, value);
    }
  }

  /** A put leaves the value of every other key alone. */
  lemma {:induction false} PutLookupOther(d: seq<(string, string)>, key: string, value: string, other: string)
    requires other != key
    ensures Lookup(Put(d, key, value), other) == Lookup(d, other)
  {
    if d != [] && d[0].0 != key {
      PutLookupOther(d[1..], key, value, other);
      assert Put(d, key, value)[1..] == Put(d[1..], key, value);
    } else if d != [] {
      assert Put(d, key, value)[1..] == d[1..];
    }
  }

  /** Putting a key into a dictionary keeps its keys unique. */
  lemma PutKeepsUnique(d: seq<(string, string)>, key: string, value: string)
    requires UniqueKeys(d)
    ensures UniqueKeys(Put(d, key, value))
  {
    var r := Put(d, key, value);
    var ks := Keys(r);
    forall i, j | 0 <= i < j < |r| ensures r[i].0 != r[j].0 {
      UniqueEntries(d, key, ks, i, j);
    }
  }

  /** Two positions of the keys after a put hold different keys. */
  lemma UniqueEntries(d: seq<(string, string)>, key: string, ks: seq<string>, i: nat, j: nat)
    requires UniqueKeys(d)
    requires ks == if key in Keys(d) then Keys(d) else Keys(d) + [key]
    requires i < j < |ks|
    ensures ks[i] != ks[j]
  {
    if key !in Keys(d) && j == |d| {
      assert ks[i] == Keys(d)[i];
    }
  }

  /** The named parameters of a call written with named parameters: each
      `<name>value</name>` stores the stripped value under the lower-cased
      name, in order, so a repeated name keeps its last value. */
  function NamedParams(ms: seq<(string, string)>): seq<(string, string)>
  {
    if ms == [] then []
    else
      var last := ms[|ms| - 1];
      Put(NamedParams(ms[..|ms| - 1]), Lower(last.0), Strip(last.1))
  }

  /** The stripped value of the last match whose lower-cased name is `key`. */
  function LastValue(ms: seq<(string, string)>, key: string): Option<string>
  {
    if ms == [] then None
    else if Lower(ms[|ms| - 1].0) == key then Some(Strip(ms[|ms| - 1].1))
    else LastValue(ms[..|ms| - 1], key)
  }

  /** The named parameters form a dictionary whose value for each key is the
      last value given under that name, stripped. */
  lemma {:induction false} NamedParamsLastWins(ms: seq<(string, string)>, key: string)
    ensures UniqueKeys(NamedParams(ms))
    ensures Lookup(NamedParams(ms), key) == LastValue(ms, key)
  {
    if ms != [] {
      var init := ms[..|ms| - 1];
      var last := ms[|ms| - 1];
      NamedParamsLastWins(init, key);
      PutLookup(NamedParams(init), Lower(last.0), Strip(last.1), key);
    }
  }

  /** Every entry of the named parameters is a lower-cased name with a
      stripped value, taken from one of the matches. */
  lemma {:induction false} NamedParamsNormalised(ms: seq<(string, string)>, i: nat)
    requires i < |NamedParams(ms)|
    ensures IsLowerCase(NamedParams(ms)[i].0)
    ensures exists m :: 0 <= m < |ms| && NamedParams(ms)[i] == (Lower(ms[m].0), Strip(ms[m].1))
  {
    var init := ms[..|ms| - 1];
    var last := ms[|ms| - 1];
    var d := NamedParams(init);
    var r := NamedParams(ms);
    if r[i] == (Lower(last.0), Strip(last.1)) {
      assert r[i] == (Lower(ms[|ms| - 1].0), Strip(ms[|ms| - 1].1));
    } else {
      NamedParamsNormalised(init, i);
      var m :| 0 <= m < |init| && d[i] == (Lower(init[m].0), Strip(init[m].1));
      assert ms[m] == init[m];
    }
  }

  /** The parameters `postprocess` records for a call: named parameters when
      the body holds both `<` and `>`, otherwise the stripped body as `value`. */
  function ParamsOf(e: Extracted): seq<(string, string)>
  {
    if '<' in e.body && '>' in e.body then NamedParams(e.paramMatches)
    else [("value", Strip(e.body))]
  }

  /** A body without `<` or without `>` gives exactly one parameter, `value`,
      holding the stripped body. */
  lemma SimpleBodySingleValue(e: Extracted)
    requires !('<' in e.body && '>' in e.body)
    ensures |ParamsOf(e)| == 1 && Lookup(ParamsOf(e), "value") == Some(Strip(e.body))
  {
  }

  /** The record of one call: lower-cased name and its parameters. */
  function Normalise(e: Extracted): (r: FunctionCall)
    ensures IsLowerCase(r.functionName) && |r.functionName| == |e.name|
    ensures r.functionName == Lower(e.name)
    ensures r.parameters == ParamsOf(e)
  {
    FunctionCall(Lower(e.name), ParamsOf(e))
  }

  /** `f` applied to each element, in order. */
  function MapSeq<A, B>(f: A -> B, xs: seq<A>): seq<B>
  {
    if xs == [] then []
    else MapSeq(f, xs[..|xs| - 1]) + [f(xs[|xs| - 1])]
  }

  /** The mapped sequence holds `f` of each element, position by position. */
  lemma {:induction false} MapSeqEach<A, B>(f: A -> B, xs: seq<A>)
    ensures |MapSeq(f, xs)| == |xs|
    ensures forall k :: 0 <= k < |xs| ==> MapSeq(f, xs)[k] == f(xs[k])
  {
    if xs != [] {
      var init := xs[..|xs| - 1];
      MapSeqEach(f, init);
      forall k | 0 <= k < |xs| ensures MapSeq(f, xs)[k] == f(xs[k]) {
        if k < |init| {
          assert xs[k] == init[k];
        }
      }
    }
  }

  /** `Dev.postprocess` on an answer whose calls were extracted: the answer is
      echoed character by character into `text`, and one record per call is
      appended, in the order the calls appear. */
  method Postprocess(output: string, calls: seq<Extracted>) returns (text: string, functionCalls: seq<FunctionCall>)
    ensures text == output
    ensures |functionCalls| == |calls|
    ensures forall k :: 0 <= k < |calls| ==> functionCalls[k] == Normalise(calls[k])
  {
    text := "";
    for i := 0 to |output|
      invariant text == output[..i]
    {
      text := text + [output[i]];
    }
    functionCalls := [];
    for k := 0 to |calls|
      invariant functionCalls == MapSeq(Normalise, calls[..k])
    {
      var call := calls[k];
      var params := CollectParams(call);
      assert calls[..k + 1][..k] == calls[..k];
      functionCalls := functionCalls + [FunctionCall(Lower(call.name), params)];
    }
    assert calls[..|calls|] == calls;
    MapSeqEach(Normalise, calls);
  }

  /** The parameter dictionary `postprocess` builds for one call: the matches
      stored one by one when the body holds both `<` and `>`, otherwise the
      stripped body under `value`. */
  method CollectParams(call: Extracted) returns (params: seq<(string, string)>)
    ensures params == ParamsOf(call)
  {
    params := [];
    if '<' in call.body && '>' in call.body {
      for m := 0 to |call.paramMatches|
        invariant params == NamedParams(call.paramMatches[..m])
      {
        var pm := call.paramMatches[m];
        assert call.paramMatches[..m + 1][..m] == call.paramMatches[..m];
        params := Put(params, Lower(pm.0), Strip(pm.1));
      }
      assert call.paramMatches[..|call.paramMatches|] == call.paramMatches;
    } else {
      params := Put(params, "value", Strip(call.body));
    }
  }
}
