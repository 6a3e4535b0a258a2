/** The anchor-delimited splice tool of `dev/tool/insert.py`.

    A block runs from a start anchor to the nearest end anchor after it. The
    tool replaces the first such block, and every identical copy of it, with
    `start\ncontent\nend`; when no block exists it appends that text after a
    blank line. The file system is a map from path to text; `forward` writes a
    backup before the target, and `insert_multiple` folds the splice over a
    list of insertions. */
module Insert {
  import opened Wrappers
  import opened Strings

  type FileSystem = map<string, string>

  /** The text `start\ncontent\nend` that a splice writes. */
  function Replacement(start: string, content: string, end: string): string
  {
    start + "\n" + content + "\n" + end
  }

  // ---------------------------------------------------------------------------
  // Finding the block
  // ---------------------------------------------------------------------------

  /** The pattern `escape(start) (.*?) escape(end)`, with `.` matching newlines,
      matches `c[i..j + |end|]`: the start anchor at `i`, the end anchor at `j`. */
  ghost predicate IsBlockMatch(c: string, start: string, end: string, i: nat, j: nat)
  {
    OccursAt(c, start, i) && i + |start| <= j && OccursAt(c, end, j)
  }

  /** The match a regex search reports: the leftmost start, and for it the
      nearest end, since `.*?` is lazy. */
  ghost predicate IsFirstMatch(c: string, start: string, end: string, i: nat, j: nat)
  {
    && IsBlockMatch(c, start, end, i, j)
    && (forall i': nat, j': nat :: IsBlockMatch(c, start, end, i', j') ==> i <= i')
    && (forall j': nat :: IsBlockMatch(c, start, end, i, j') ==> j <= j')
  }

  /** The block `c[p..q]` found by the search: the first start anchor, then the
      first end anchor that begins after it. It is exactly the regex's match. */
  function FindBlock(c: string, start: string, end: string): (r: Option<(nat, nat)>)
    ensures r.Some? ==> r.value.0 + |start| + |end| <= r.value.1 <= |c|
    ensures r.Some? ==> IsFirstMatch(c, start, end, r.value.0, r.value.1 - |end|)
    ensures r.None? <==> forall i: nat, j: nat :: !IsBlockMatch(c, start, end, i, j)
  {
    match FindFrom(c, start, 0)
    case None => None
    case Some(p) =>
      match FindFrom(c, end, p + |start|)
      case None => None
      case Some(e) => Some((p, e + |end|))
  }

  lemma FirstMatchUnique(c: string, start: string, end: string, i: nat, j: nat, i': nat, j': nat)
    requires IsFirstMatch(c, start, end, i, j) && IsFirstMatch(c, start, end, i', j')
    ensures i == i' && j == j'
  {
  }

  /** Whenever the regex matches, the search reports that match. */
  lemma FindBlockOfFirstMatch(c: string, start: string, end: string, i: nat, j: nat)
    requires IsFirstMatch(c, start, end, i, j)
    ensures FindBlock(c, start, end) == Some((i, j + |end|))
  {
    var r := FindBlock(c, start, end);
    assert r.Some?;
    FirstMatchUnique(c, start, end, i, j, r.value.0, r.value.1 - |end|);
  }

  // ---------------------------------------------------------------------------
  // The splice
  // ---------------------------------------------------------------------------

  /** The new file text: with a block found, `str.replace` of that block by
      the replacement text (so identical copies are replaced too); otherwise the
      replacement text appended after a blank line. */
  function Splice(c: string, content: string, start: string, end: string): (r: string)
    ensures match FindBlock(c, start, end)
            case None => r == c + "\n\n" + Replacement(start, content, end)
            case Some((p, q)) =>
              start != [] || end != [] ==>
              r == c[..p] + Replacement(start, content, end) + Replace(c[q..], c[p..q], Replacement(start, content, end))
  {
    var rep := Replacement(start, content, end);
    match FindBlock(c, start, end)
    case Some((p, q)) =>
      if start == [] && end == [] then Replace(c, c[p..q], rep)
      else
        ReplaceFoundBlock(c, start, end, rep, p, q);
        Replace(c, c[p..q], rep)
    case None => c + "\n\n" + rep
  }

  /** `str.replace` of the found block starts at the block: no copy of it
      occurs earlier. */
  lemma {:induction false} ReplaceFoundBlock(c: string, start: string, end: string, rep: string, p: nat, q: nat)
    requires FindBlock(c, start, end) == Some((p, q))
    requires start != [] || end != []
    ensures p <= q <= |c|
    ensures Replace(c, c[p..q], rep) == c[..p] + rep + Replace(c[q..], c[p..q], rep)
  {
    FirstBlockClear(c, start, end, p, q - |end|, c[p..q]);
    ReplaceFromFirstOccurrence(c, c[p..q], rep, p);
  }

  /** Without a block the new text is the old text, a blank line and the block. */
  lemma SpliceAppendsWhenNoBlock(c: string, content: string, start: string, end: string)
    requires forall i: nat, j: nat :: !IsBlockMatch(c, start, end, i, j)
    ensures Splice(c, content, start, end) == c + "\n\n" + start + "\n" + content + "\n" + end
  {
  }

  /** With a block found, the text before it is kept, the block becomes the
      replacement, and every later identical copy of the block is replaced. */
  lemma SpliceReplacesFirstBlock(c: string, content: string, start: string, end: string, i: nat, j: nat)
    requires IsFirstMatch(c, start, end, i, j)
    requires start != [] || end != []
    ensures var rep := Replacement(start, content, end);
            Splice(c, content, start, end) == c[..i] + rep + Replace(c[j + |end|..], c[i..j + |end|], rep)
  {
    var q := j + |end|;
    FindBlockOfFirstMatch(c, start, end, i, j);
    SpliceOfFoundBlock(c, content, start, end, i, q);
    ReplaceFoundBlock(c, start, end, Replacement(start, content, end), i, q);
  }

  /** The matched block does not occur before the first match. */
  lemma {:induction false} FirstBlockClear(c: string, start: string, end: string, i: nat, j: nat, b: string)
    requires IsFirstMatch(c, start, end, i, j)
    requires i + |start| <= j && j + |end| <= |c| && b == c[i..j + |end|]
    ensures forall k: nat :: k < i ==> !OccursAt(c, b, k)
  {
    assert b[..|start|] == start;
    assert b[|b| - |end|..] == end;
    forall k: nat | k < i ensures !OccursAt(c, b, k) {
      BlockOccurrenceIsMatch(c, b, start, end, k);
    }
  }

  /** `str.replace` copies the text before the first occurrence, replaces it,
      and continues after it. */
  lemma {:induction false} ReplaceFromFirstOccurrence(c: string, b: string, rep: string, i: nat)
    requires b != [] && i + |b| <= |c| && c[i..i + |b|] == b
    requires forall k: nat :: k < i ==> !OccursAt(c, b, k)
    ensures Replace(c, b, rep) == c[..i] + rep + Replace(c[i + |b|..], b, rep)
  {
    var rest := c[i + |b|..];
    var tail := c[i..];
    assert tail == b + rest;
    ReplaceSkip(c, b, rep, i);
    ReplaceFront(b, rest, rep);
    calc {
      Replace(c, b, rep);
      c[..i] + Replace(tail, b, rep);
      c[..i] + (rep + Replace(rest, b, rep));
      c[..i] + rep + Replace(rest, b, rep);
    }
  }

  /** An occurrence of a block that starts with the start anchor and ends with
      the end anchor is itself a match of the pattern. */
  lemma BlockOccurrenceIsMatch(c: string, b: string, start: string, end: string, k: nat)
    requires |start| + |end| <= |b| && b[..|start|] == start && b[|b| - |end|..] == end
    ensures OccursAt(c, b, k) ==> IsBlockMatch(c, start, end, k, k + |b| - |end|)
  {
    if OccursAt(c, b, k) {
      assert c[k..k + |start|] == b[..|start|];
      assert c[k + |b| - |end|..k + |b|] == b[|b| - |end|..];
    }
  }

  /** Everything before the first start anchor is left untouched. */
  lemma SpliceKeepsPrefix(c: string, content: string, start: string, end: string, i: nat, j: nat)
    requires IsFirstMatch(c, start, end, i, j)
    ensures i <= |Splice(c, content, start, end)|
    ensures Splice(c, content, start, end)[..i] == c[..i]
  {
    if start != [] || end != [] {
      SpliceReplacesFirstBlock(c, content, start, end, i, j);
    } else {
      assert OccursAt(c, start, 0) && IsBlockMatch(c, start, end, 0, 0);
    }
  }

  // ---------------------------------------------------------------------------
  // Running the same splice twice
  // ---------------------------------------------------------------------------

  /** After the start anchor, the end anchor occurs in `start\ncontent\nend`
      only as its final part, so the search finds the written block again. */
  predicate EndOnlyAtTail(start: string, content: string, end: string)
  {
    var rep := Replacement(start, content, end);
    forall j: nat :: |start| <= j < |rep| - |end| ==> !OccursAt(rep, end, j)
  }

  /** An occurrence of the end anchor inside the copy of `rep` at `p` is an
      occurrence inside `rep`. */
  lemma EndInsideReplacement(r: string, rep: string, end: string, p: nat, j: nat)
    requires p + |rep| <= |r| && r[p..p + |rep|] == rep
    requires p <= j && j + |end| <= p + |rep|
    ensures OccursAt(r, end, j) ==> OccursAt(rep, end, j - p)
  {
    if OccursAt(r, end, j) {
      forall t | 0 <= t < |end| ensures rep[j - p + t] == end[t] {
        assert rep[j - p + t] == r[p..p + |rep|][j - p + t] == r[j + t];
        assert r[j + t] == r[j..j + |end|][t];
      }
      assert rep[j - p..j - p + |end|] == end;
    }
  }

  /** In a text holding the replacement block at its first start anchor, the
      search finds exactly that block. */
  lemma FirstMatchAtReplacement(r: string, content: string, start: string, end: string, p: nat)
    requires EndOnlyAtTail(start, content, end)
    requires var rep := Replacement(start, content, end);
             p + |rep| <= |r| && r[p..p + |rep|] == rep
    requires forall k: nat :: k < p ==> !OccursAt(r, start, k)
    ensures IsFirstMatch(r, start, end, p, p + |Replacement(start, content, end)| - |end|)
  {
    var rep := Replacement(start, content, end);
    var e := p + |rep| - |end|;
    assert OccursAt(r, start, p) by {
      assert r[p..p + |start|] == rep[..|start|];
    }
    assert OccursAt(r, end, e) by {
      assert r[e..e + |end|] == rep[|rep| - |end|..];
    }
    forall j': nat | p + |start| <= j' < e ensures !OccursAt(r, end, j') {
      EndInsideReplacement(r, rep, end, p, j');
    }
  }

  /** A text holding the replacement block at its first start anchor is a
      fixed point of the splice. */
  lemma SpliceFixedAtReplacement(r: string, content: string, start: string, end: string, p: nat)
    requires EndOnlyAtTail(start, content, end)
    requires var rep := Replacement(start, content, end);
             p + |rep| <= |r| && r[p..p + |rep|] == rep
    requires forall k: nat :: k < p ==> !OccursAt(r, start, k)
    ensures Splice(r, content, start, end) == r
  {
    FindBlockAtReplacement(r, content, start, end, p);
    SpliceFixedWhenBlockIsReplacement(r, content, start, end, p, p + |Replacement(start, content, end)|);
  }

  /** A found block that already is the replacement text is replaced by itself. */
  lemma SpliceFixedWhenBlockIsReplacement(c: string, content: string, start: string, end: string, p: nat, q: nat)
    requires FindBlock(c, start, end) == Some((p, q))
    requires q <= |c| && c[p..q] == Replacement(start, content, end)
    ensures Splice(c, content, start, end) == c
  {
    SpliceOfFoundBlock(c, content, start, end, p, q);
    ReplaceSelf(c, c[p..q]);
  }

  /** The search in such a text reports the written block. */
  lemma FindBlockAtReplacement(r: string, content: string, start: string, end: string, p: nat)
    requires EndOnlyAtTail(start, content, end)
    requires var rep := Replacement(start, content, end);
             p + |rep| <= |r| && r[p..p + |rep|] == rep
    requires forall k: nat :: k < p ==> !OccursAt(r, start, k)
    ensures FindBlock(r, start, end) == Some((p, p + |Replacement(start, content, end)|))
  {
    var rep := Replacement(start, content, end);
    FirstMatchAtReplacement(r, content, start, end, p);
    FindBlockOfFirstMatch(r, start, end, p, p + |rep| - |end|);
  }

  /** With the block `c[p..q]` found, the splice replaces its copies. */
  lemma SpliceOfFoundBlock(c: string, content: string, start: string, end: string, p: nat, q: nat)
    requires FindBlock(c, start, end) == Some((p, q))
    ensures p <= q <= |c|
    ensures Splice(c, content, start, end) == Replace(c, c[p..q], Replacement(start, content, end))
  {
  }

  /** Splicing a second time changes nothing once a block was replaced,
      provided the end anchor occurs in the written block only at its end. */
  lemma SpliceIdempotentAfterReplace(c: string, content: string, start: string, end: string)
    requires FindBlock(c, start, end).Some?
    requires EndOnlyAtTail(start, content, end)
    ensures Splice(Splice(c, content, start, end), content, start, end) == Splice(c, content, start, end)
  {
    var rep := Replacement(start, content, end);
    var p, q := FindBlock(c, start, end).value.0, FindBlock(c, start, end).value.1;
    assert |start| + |end| < |rep|;
    assert !OccursAt(rep, end, |start|);
    assert end != [];
    SpliceReplacesFirstBlock(c, content, start, end, p, q - |end|);
    var r := Splice(c, content, start, end);
    NoStartBeforeReplacedBlock(c, r, rep, start, end, p, q);
    SpliceFixedAtReplacement(r, content, start, end, p);
  }

  /** After the first block is replaced, the start anchor still first occurs
      where the block began. */
  lemma NoStartBeforeReplacedBlock(c: string, r: string, rep: string, start: string, end: string, p: nat, q: nat)
    requires FindBlock(c, start, end) == Some((p, q))
    requires |start| <= |rep| && rep[..|start|] == start
    requires exists tail :: r == c[..p] + rep + tail
    ensures p + |rep| <= |r| && r[p..p + |rep|] == rep
    ensures forall k: nat :: k < p ==> !OccursAt(r, start, k)
  {
    var tail :| r == c[..p] + rep + tail;
    assert r[..p] == c[..p];
    assert r[p..p + |rep|] == rep;
    assert r[p..p + |start|] == start by {
      assert r[p..p + |start|] == r[p..p + |rep|][..|start|];
    }
    assert OccursAt(c, start, p);
    assert r[..p + |start|] == c[..p + |start|] by {
      assert r[..p + |start|] == r[..p] + r[p..p + |start|];
      assert c[..p + |start|] == c[..p] + c[p..p + |start|];
    }
    forall k: nat | k < p ensures !OccursAt(r, start, k) {
      OccursInCommonPrefix(r, c, p + |start|, start, k);
      NotBlockStart(c, start, end, p, q, k);
    }
  }

  /** The start anchor does not occur before the first block. */
  lemma NotBlockStart(c: string, start: string, end: string, p: nat, q: nat, k: nat)
    requires FindBlock(c, start, end) == Some((p, q))
    requires k < p
    ensures !OccursAt(c, start, k)
  {
    var e: nat := q - |end|;
    assert OccursAt(c, start, k) ==> IsBlockMatch(c, start, end, k, e);
  }

  /** Splicing a second time changes nothing after an append, provided the
      start anchor first occurs in the appended block and the end anchor occurs
      in it only at its end. */
  lemma SpliceIdempotentAfterAppend(c: string, content: string, start: string, end: string)
    requires FindBlock(c, start, end).None?
    requires forall k: nat :: k < |c| + 2 ==> !OccursAt(c + "\n\n" + start, start, k)
    requires EndOnlyAtTail(start, content, end)
    ensures Splice(Splice(c, content, start, end), content, start, end) == Splice(c, content, start, end)
  {
    var rep := Replacement(start, content, end);
    var r := Splice(c, content, start, end);
    var p := |c| + 2;
    assert r == c + "\n\n" + rep;
    assert r[p..p + |rep|] == rep;
    assert r[..p + |start|] == c + "\n\n" + start;
    forall k: nat | k < p ensures !OccursAt(r, start, k) {
      OccursInCommonPrefix(r, c + "\n\n" + start, p + |start|, start, k);
    }
    SpliceFixedAtReplacement(r, content, start, end, p);
  }

  /** The end anchor occurring only at the block's end is not enough after an
      append: when the old text holds a start anchor with no end anchor after
      it, the second splice takes the block from that stray start to the
      appended end and swallows the text between them. */
  lemma StrayStartSwallowsText()
    ensures EndOnlyAtTail("S", "x", "E")
    ensures Splice("S", "x", "S", "E") == "S\n\nS\nx\nE"
    ensures Splice("S\n\nS\nx\nE", "x", "S", "E") == "S\nx\nE"
    ensures Splice(Splice("S", "x", "S", "E"), "x", "S", "E") != Splice("S", "x", "S", "E")
  {
    StrayStartEndOnlyAtTail();
    StrayStartAppend();
    StrayStartSecond();
  }

  lemma StrayStartEndOnlyAtTail()
    ensures EndOnlyAtTail("S", "x", "E")
  {
    var rep := "S\nx\nE";
    assert Replacement("S", "x", "E") == rep;
    forall j: nat | 1 <= j < 4 ensures !OccursAt(rep, "E", j) {
      NotAtChar(rep, 'E', j);
    }
  }

  /** In the stray-start sample the first splice appends. */
  lemma StrayStartAppend()
    ensures Splice("S", "x", "S", "E") == "S\n\nS\nx\nE"
  {
    assert FindFrom("S", "S", 0) == Some(0);
    assert FindFrom("S", "E", 1) == None;
    assert FindBlock("S", "S", "E") == None;
  }

  /** In the stray-start sample the second splice replaces the whole text. */
  lemma StrayStartSecond()
    ensures Splice("S\n\nS\nx\nE", "x", "S", "E") == "S\nx\nE"
  {
    var r := "S\n\nS\nx\nE";
    StrayStartBlock();
    SpliceOfFoundBlock(r, "x", "S", "E", 0, 8);
    assert r[0..8] == r && r + "" == r;
    ReplaceFront(r, "", Replacement("S", "x", "E"));
  }

  /** In the stray-start sample the second splice's block is the whole text. */
  lemma StrayStartBlock()
    ensures FindBlock("S\n\nS\nx\nE", "S", "E") == Some((0, 8))
  {
    var r := "S\n\nS\nx\nE";
    assert FindFrom(r, "S", 0) == Some(0);
    assert OccursAt(r, "E", 7);
    var k := 6;
    while k > 0
      invariant 0 <= k <= 6
      invariant FindFrom(r, "E", k + 1) == Some(7)
    {
      NotAtChar(r, 'E', k);
      k := k - 1;
    }
  }

  /** A one-character pattern occurs only where that character is. */
  lemma NotAtChar(s: string, ch: char, k: nat)
    requires k < |s| && s[k] != ch
    ensures !OccursAt(s, [ch], k)
  {
    assert s[k..k + 1][0] == s[k];
  }

  /** Content free of both anchors is not enough for a repeated splice to be
      harmless: here the content ends a prefix of the end anchor. */
  lemma AnchorFreeContentCanSpliceAgain()
    ensures var c, content, start, end := "S\nE", "E", "S", "\nE";
            && (forall j: nat :: !OccursAt(content, start, j) && !OccursAt(content, end, j))
            && Splice(Splice(c, content, start, end), content, start, end) != Splice(c, content, start, end)
  {
    SampleFirstSplice();
    SampleSecondSplice();
  }

  /** The first splice of the sample replaces the whole text. */
  lemma SampleFirstSplice()
    ensures Splice("S\nE", "E", "S", "\nE") == "S\nE\n\nE"
  {
    var c := "S\nE";
    SampleBlock(c);
    SpliceOfFoundBlock(c, "E", "S", "\nE", 0, 3);
    assert c[0..3] == c && c + "" == c;
    ReplaceFront(c, "", "S\nE\n\nE");
  }

  /** The second splice of the sample finds the old block inside the written
      one and grows the text. */
  lemma SampleSecondSplice()
    ensures Splice("S\nE\n\nE", "E", "S", "\nE") == "S\nE\n\nE\n\nE"
  {
    var r := "S\nE\n\nE";
    SampleBlock(r);
    SpliceOfFoundBlock(r, "E", "S", "\nE", 0, 3);
    assert r[0..3] == "S\nE";
    SampleSecondReplace();
  }

  /** In both texts of the sample the block is their first three characters. */
  lemma SampleBlock(c: string)
    requires c == "S\nE" || c == "S\nE\n\nE"
    ensures FindBlock(c, "S", "\nE") == Some((0, 3))
  {
    assert FindFrom(c, "S", 0) == Some(0);
    assert FindFrom(c, "\nE", 1) == Some(1);
  }

  /** Replacing the old block in the written text replaces only its head. */
  lemma SampleSecondReplace()
    ensures Replace("S\nE\n\nE", "S\nE", "S\nE\n\nE") == "S\nE\n\nE\n\nE"
  {
    assert "S\nE\n\nE" == "S\nE" + "\n\nE";
    ReplaceFront("S\nE", "\n\nE", "S\nE\n\nE");
    SampleTailUnchanged();
  }

  /** The old block does not occur in the appended tail. */
  lemma SampleTailUnchanged()
    ensures Replace("\n\nE", "S\nE", "S\nE\n\nE") == "\n\nE"
  {
    forall k: nat ensures !OccursAt("\n\nE", "S\nE", k) {
      if k == 0 {
        assert "\n\nE"[0..3][0] != "S\nE"[0];
      }
    }
    ReplaceAbsent("\n\nE", "S\nE", "S\nE\n\nE");
  }

  // ---------------------------------------------------------------------------
  // forward: one splice on the file system
  // ---------------------------------------------------------------------------

  /** The dictionary `forward` returns; a `backup_path` that is absent or
      `None` is `None` here. */
  datatype ForwardResult = ForwardResult(success: bool, filePath: string, backupPath: Option<string>, message: string)

  function BackupPath(path: string): string
  {
    path + ".bak"
  }

  /** `Insert.forward`: a missing file is refused or created with the block
      alone; an existing file is first copied to its backup when asked, then
      overwritten with the splice of its content. No other file changes. */
  method Forward(fs: FileSystem, filePath: string, content: string, start: string, end: string,
                 createIfMissing: bool, backup: bool)
    returns (fs': FileSystem, res: ForwardResult)
    ensures res.filePath == filePath
    ensures filePath !in fs && !createIfMissing ==>
              && fs' == fs && !res.success && res.backupPath == None
              && res.message == "File not found and create_if_missing is False"
    ensures filePath !in fs && createIfMissing ==>
              && fs'.Keys == fs.Keys + {filePath}
              && fs'[filePath] == start + "\n" + content + "\n" + end
              && (forall p :: p in fs ==> fs'[p] == fs[p])
              && res.success && res.backupPath == None
              && res.message == "Created new file with anchors and content"
    ensures filePath in fs ==>
              && res.success
              && res.message == "Successfully inserted content between anchors"
              && fs'.Keys == fs.Keys + (if backup then {BackupPath(filePath)} else {})
              && fs'[filePath] == Splice(fs[filePath], content, start, end)
              && res.backupPath == (if backup then Some(BackupPath(filePath)) else None)
              && (backup ==> fs'[BackupPath(filePath)] == fs[filePath])
              && (forall p :: p in fs && p != filePath && (backup ==> p != BackupPath(filePath)) ==> fs'[p] == fs[p])
  {
    if filePath !in fs {
      if !createIfMissing {
        return fs, ForwardResult(false, filePath, None, "File not found and create_if_missing is False");
      }
      fs' := fs[filePath := Replacement(start, content, end)];
      return fs', ForwardResult(true, filePath, None, "Created new file with anchors and content");
    }
    var original := fs[filePath];
    fs' := fs;
    var backupPath: Option<string> := None;
    if backup {
      backupPath := Some(BackupPath(filePath));
      fs' := fs'[BackupPath(filePath) := original];
    }
    assert |BackupPath(filePath)| != |filePath|;
    var updated := Splice(original, content, start, end);
    fs' := fs'[filePath := updated];
    res := ForwardResult(true, filePath, backupPath, "Successfully inserted content between anchors");
  }

  // ---------------------------------------------------------------------------
  // insert_multiple: the splice folded over a list
  // ---------------------------------------------------------------------------

  /** One entry of the `insertions` list; a missing key reads as "". */
  datatype Insertion = Insertion(startAnchor: string, endAnchor: string, content: string)

  /** The dictionary `insert_multiple` returns; absent keys are `None`. */
  datatype MultipleResult = MultipleResult(
    success: bool, filePath: string, backupPath: Option<string>,
    successfulInsertions: Option<nat>, totalInsertions: Option<nat>, message: string)

  /** An entry is applied only when both of its anchors are non-empty. */
  predicate HasAnchors(ins: Insertion)
  {
    ins.startAnchor != [] && ins.endAnchor != []
  }

  function BlockOf(ins: Insertion): string
  {
    Replacement(ins.startAnchor, ins.content, ins.endAnchor)
  }

  /** The text after applying `insertions` in list order to `c`. */
  function ApplyInsertions(c: string, insertions: seq<Insertion>): string
    decreases |insertions|
  {
    if insertions == [] then c
    else
      var prev := ApplyInsertions(c, insertions[..|insertions| - 1]);
      var last := insertions[|insertions| - 1];
      if HasAnchors(last) then Splice(prev, last.content, last.startAnchor, last.endAnchor) else prev
  }

  /** The number of entries with both anchors. */
  function CountWithAnchors(insertions: seq<Insertion>): (n: nat)
    ensures n <= |insertions|
    decreases |insertions|
  {
    if insertions == [] then 0
    else CountWithAnchors(insertions[..|insertions| - 1]) + (if HasAnchors(insertions[|insertions| - 1]) then 1 else 0)
  }

  /** The entries with both anchors, in list order. */
  function WithAnchors(insertions: seq<Insertion>): (r: seq<Insertion>)
    ensures forall k :: 0 <= k < |r| ==> HasAnchors(r[k])
    decreases |insertions|
  {
    if insertions == [] then []
    else
      var last := insertions[|insertions| - 1];
      WithAnchors(insertions[..|insertions| - 1]) + (if HasAnchors(last) then [last] else [])
  }

  /** The blocks a missing file is created from: one per entry, skipped or not. */
  function Blocks(insertions: seq<Insertion>): (r: seq<string>)
    ensures |r| == |insertions|
  {
    seq(|insertions|, k requires 0 <= k < |insertions| => BlockOf(insertions[k]))
  }

  /** `Insert.insert_multiple`. */
  method InsertMultiple(fs: FileSystem, filePath: string, insertions: seq<Insertion>,
                        createIfMissing: bool, backup: bool)
    returns (fs': FileSystem, res: MultipleResult)
    ensures res.filePath == filePath
    ensures filePath !in fs && !createIfMissing ==>
              && fs' == fs && !res.success && res.backupPath == None
              && res.successfulInsertions == None && res.totalInsertions == None
              && res.message == "File not found and create_if_missing is False"
    ensures filePath !in fs && createIfMissing ==>
              && fs'.Keys == fs.Keys + {filePath}
              && fs'[filePath] == Join(Blocks(insertions), "\n\n")
              && (forall p :: p in fs ==> fs'[p] == fs[p])
              && res.success && res.backupPath == None
              && res.successfulInsertions == None && res.totalInsertions == None
              && res.message == "Created new file with multiple insertions"
    ensures filePath in fs ==>
              && fs'.Keys == fs.Keys + (if backup then {BackupPath(filePath)} else {})
              && fs'[filePath] == ApplyInsertions(fs[filePath], insertions)
              && res.backupPath == (if backup then Some(BackupPath(filePath)) else None)
              && (backup ==> fs'[BackupPath(filePath)] == fs[filePath])
              && (forall p :: p in fs && p != filePath && (backup ==> p != BackupPath(filePath)) ==> fs'[p] == fs[p])
              && res.successfulInsertions == Some(CountWithAnchors(insertions))
              && res.totalInsertions == Some(|insertions|)
              && res.success == (CountWithAnchors(insertions) > 0)
              && res.message == "Completed " + NatToString(CountWithAnchors(insertions)) + " of "
                                + NatToString(|insertions|) + " insertions"
  {
    if filePath !in fs {
      if !createIfMissing {
        return fs, MultipleResult(false, filePath, None, None, None, "File not found and create_if_missing is False");
      }
      var parts: seq<string> := [];
      var i := 0;
      while i < |insertions|
        invariant 0 <= i <= |insertions|
        invariant parts == Blocks(insertions[..i])
      {
        parts := parts + [BlockOf(insertions[i])];
        i := i + 1;
      }
      assert insertions[..i] == insertions;
      fs' := fs[filePath := Join(parts, "\n\n")];
      return fs', MultipleResult(true, filePath, None, None, None, "Created new file with multiple insertions");
    }
    var original := fs[filePath];
    fs' := fs;
    var backupPath: Option<string> := None;
    if backup {
      backupPath := Some(BackupPath(filePath));
      fs' := fs'[BackupPath(filePath) := original];
    }
    var newContent := original;
    var successful: nat := 0;
    var i := 0;
    while i < |insertions|
      invariant 0 <= i <= |insertions|
      invariant newContent == ApplyInsertions(original, insertions[..i])
      invariant successful == CountWithAnchors(insertions[..i])
    {
      var ins := insertions[i];
      assert insertions[..i + 1][..i] == insertions[..i];
      if HasAnchors(ins) {
        newContent := Splice(newContent, ins.content, ins.startAnchor, ins.endAnchor);
        successful := successful + 1;
      }
      i := i + 1;
    }
    assert insertions[..i] == insertions;
    assert |BackupPath(filePath)| != |filePath|;
    fs' := fs'[filePath := newContent];
    res := MultipleResult(successful > 0, filePath, backupPath, Some(successful), Some(|insertions|),
                          "Completed " + NatToString(successful) + " of " + NatToString(|insertions|) + " insertions");
  }

  /** Applying two lists one after the other is applying their concatenation. */
  lemma {:induction false} ApplyInsertionsAppend(c: string, a: seq<Insertion>, b: seq<Insertion>)
    ensures ApplyInsertions(c, a + b) == ApplyInsertions(ApplyInsertions(c, a), b)
    decreases |b|
  {
    if b == [] {
      assert a + b == a;
    } else {
      ApplyInsertionsAppend(c, a, b[..|b| - 1]);
      assert (a + b)[..|a + b| - 1] == a + b[..|b| - 1];
    }
  }

  /** Entries without both anchors change nothing: the result is that of the
      anchored entries alone, and they are exactly the ones counted. */
  lemma {:induction false} SkippedEntriesChangeNothing(c: string, insertions: seq<Insertion>)
    ensures ApplyInsertions(c, insertions) == ApplyInsertions(c, WithAnchors(insertions))
    ensures CountWithAnchors(insertions) == |WithAnchors(insertions)|
    decreases |insertions|
  {
    if insertions != [] {
      var init := insertions[..|insertions| - 1];
      var last := insertions[|insertions| - 1];
      SkippedEntriesChangeNothing(c, init);
      var prev := ApplyInsertions(c, WithAnchors(init));
      assert ApplyInsertions(c, init) == prev;
      if HasAnchors(last) {
        ApplyInsertionsAppend(c, WithAnchors(init), [last]);
        SingleInsertionIsSplice(prev, last);
        assert WithAnchors(insertions) == WithAnchors(init) + [last];
        assert ApplyInsertions(c, insertions) == Splice(prev, last.content, last.startAnchor, last.endAnchor);
      } else {
        assert WithAnchors(insertions) == WithAnchors(init);
        assert ApplyInsertions(c, insertions) == prev;
      }
    }
  }

  /** `success` holds exactly when some entry has both anchors. */
  lemma {:induction false} SuccessIffSomeAnchored(insertions: seq<Insertion>)
    ensures CountWithAnchors(insertions) > 0 <==> exists k :: 0 <= k < |insertions| && HasAnchors(insertions[k])
    decreases |insertions|
  {
    if insertions != [] {
      var init := insertions[..|insertions| - 1];
      SuccessIffSomeAnchored(init);
      if exists k :: 0 <= k < |init| && HasAnchors(init[k]) {
        var k :| 0 <= k < |init| && HasAnchors(init[k]);
        assert insertions[k] == init[k];
      }
      if exists k :: 0 <= k < |insertions| && HasAnchors(insertions[k]) {
        var k :| 0 <= k < |insertions| && HasAnchors(insertions[k]);
        if k < |init| {
          assert init[k] == insertions[k];
        }
      }
    }
  }

  /** A single anchored entry performs the same splice as `forward`. */
  lemma SingleInsertionIsSplice(c: string, ins: Insertion)
    requires HasAnchors(ins)
    ensures ApplyInsertions(c, [ins]) == Splice(c, ins.content, ins.startAnchor, ins.endAnchor)
  {
    assert [ins][..0] == [];
  }
}
