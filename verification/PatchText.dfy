/** The patch tool on whole texts, and what one update does to a file's lines. */
module PatchText {
  import opened Options
  import opened Strings
  import opened Patch
  import opened PatchMeaning

  // -------------------------------------------------------------- from the text

  predicate NoReturnNewline(s: string) {
    forall i :: 0 <= i < |s| - 1 ==> !(s[i] == '\r' && s[i + 1] == '\n')
  }

  lemma {:induction false} NothingDropped(s: string)
    requires NoReturnNewline(s)
    ensures DropReturns(s) == s
    decreases |s|
  {
    if s != "" {
      if |s| >= 2 { assert "\r\n"[0] == '\r' && "\r\n"[1] == '\n' && !(s[0] == '\r' && s[1] == '\n'); }
      forall i | 0 <= i < |s[1..]| - 1 ensures !(s[1..][i] == '\r' && s[1..][i + 1] == '\n') {
        assert !(s[i + 1] == '\r' && s[i + 2] == '\n');
      }
      NothingDropped(s[1..]);
      assert [s[0]] + s[1..] == s;
    }
  }

  lemma {:induction false} JoinedClean(lines: seq<string>)
    requires lines != [] && forall i :: 0 <= i < |lines| ==> Clean(lines[i])
    ensures NoReturnNewline(Join(lines, '\n'))
  {
    if |lines| > 1 {
      JoinedClean(lines[1..]);
      var rest := Join(lines[1..], '\n');
      var s := Join(lines, '\n');
      var n := |lines[0]|;
      assert s == lines[0] + ['\n'] + rest;
      forall i | 0 <= i < |s| - 1 ensures !(s[i] == '\r' && s[i + 1] == '\n') {
        if i > n {
          assert s[i] == rest[i - n - 1] && s[i + 1] == rest[i - n];
        } else if i + 1 < n {
          assert s[i + 1] == lines[0][i + 1];
        }
      }
    }
  }

  lemma HeaderClean(prefix: string, path: string)
    requires Clean(prefix) && prefix != "" && Trimmed(path) && '\n' !in path
    ensures Clean(prefix + path)
  {
    var l := prefix + path;
    if path != "" {
      assert l[|l| - 1] == path[|path| - 1];
      assert IsSpace('\r');
    } else {
      assert l == prefix;
    }
  }

  lemma MarkClean(mark: char, text: string)
    requires Clean(text) && mark != '\n' && mark != '\r'
    ensures Clean([mark] + text)
  {
    var l := [mark] + text;
    if text != "" {
      assert l[|l| - 1] == text[|text| - 1];
    }
  }

  lemma {:induction false} PlusTextsClean(lines: seq<string>)
    requires forall i :: 0 <= i < |lines| ==> Clean(lines[i])
    ensures forall i :: 0 <= i < |PlusTexts(lines)| ==> Clean(PlusTexts(lines)[i])
  {
    if lines != [] {
      hide Clean;
      assert Clean("+" + lines[0]) by { MarkClean('+', lines[0]); }
      PlusTextsClean(lines[1..]);
    }
  }

  lemma {:induction false} HunkTextsClean(hunk: seq<HunkLine>)
    requires CleanHunk(hunk)
    ensures forall i :: 0 <= i < |HunkTexts(hunk)| ==> Clean(HunkTexts(hunk)[i])
  {
    if hunk != [] {
      hide Clean, TrimSpace;
      MarkClean(if hunk[0].Context? then ' ' else if hunk[0].Minus? then '-' else '+', hunk[0].text);
      HunkTextsClean(hunk[1..]);
    }
  }

  lemma OpLinesClean(op: Op)
    requires Printable(op)
    ensures forall i :: 0 <= i < |OpLines(op)| ==> Clean(OpLines(op)[i])
  {
    hide TrimSpace, Trimmed, HunkTexts, PlusTexts;
    match op
    case Add(path, lines) => HeaderClean("*** Add File: ", path); hide Clean; PlusTextsClean(lines);
    case Update(path, hunk) =>
      HeaderClean("*** Update File: ", path); assert Clean("@@"); hide Clean, CleanHunk; HunkTextsClean(hunk);
    case Delete(path) => HeaderClean("*** Delete File: ", path);
    case UpdateMove(path, hunk, to) =>
      HeaderClean("*** Update File: ", path); HeaderClean("*** Move to: ", to); assert Clean("@@");
      hide Clean, CleanHunk;
      HunkTextsClean(hunk);
  }

  lemma {:induction false} OpsLinesClean(ops: seq<Op>)
    requires AllPrintable(ops)
    ensures forall i :: 0 <= i < |OpsLines(ops)| ==> Clean(OpsLines(ops)[i])
  {
    hide Printable, Clean, OpLines;
    if ops != [] {
      OpLinesClean(ops[0]);
      OpsLinesClean(ops[1..]);
    }
  }

  lemma PrintedLines(ops: seq<Op>)
    requires AllPrintable(ops)
    ensures Split(DropReturns(PrintPatch(ops)), '\n') == PatchLines(ops)
  {
    hide Join, Split, DropReturns, NoReturnNewline, OpsLines, AllPrintable;
    var lines := PatchLines(ops);
    OpsLinesClean(ops);
    assert Clean("*** Begin Patch") && Clean("*** End Patch");
    forall i | 0 <= i < |lines| ensures Clean(lines[i]) {
      if 0 < i < |lines| - 1 {
        assert lines[i] == OpsLines(ops)[i - 1];
      }
    }
    JoinedClean(lines);
    NothingDropped(Join(lines, '\n'));
    forall p | p in lines ensures '\n' !in p {}
    SplitJoin(lines, '\n');
  }

  /** Running a printed patch leaves the files as the fold of its operations does,
    whatever lines of earlier updates are still held; the reports are the fold's,
    plus one failure on the empty path wherever such lines are flushed. */
  lemma PrintedPatchApplies(resolve: Resolver, files: Files, ops: seq<Op>)
    requires AllPrintable(ops) && NotTheWorkingDirectory(resolve, files, ops)
    requires |PatchLines(ops)| <= MAX_INDEX + 1
    ensures RunPatch(resolve, files, PrintPatch(ops))
         == Applied(ApplyOps(resolve, State(files, []), ops).files,
                    Reported(resolve, State(files, []), Residue(true, false), ops))
  {
    hide PrintPatch, AllPrintable, NotTheWorkingDirectory, OpsLines, ApplyOps, Reported, Step, PatchLines;
    PrintedLines(ops);
    WithinTheLimit(resolve, Start(files), PatchLines(ops), 0);
    Begins(resolve, files, ops);
    BegunStands(resolve, files);
    var d := OpsRun(resolve, Begun(files), State(files, []), Residue(true, false), ops);
  }

  function Begun(files: Files): Machine { Start(files).(mode := SeekingOp) }

  lemma Begins(resolve: Resolver, files: Files, ops: seq<Op>)
    ensures Run(resolve, Start(files), PatchLines(ops)) == Run(resolve, Begun(files), OpsLines(ops) + ["*** End Patch"])
  {
    hide OpsLines;
    var lines := PatchLines(ops);
    assert Step(resolve, Start(files), "*** Begin Patch") == Begun(files);
    assert lines[0] == "*** Begin Patch" && lines[1..] == OpsLines(ops) + ["*** End Patch"];
  }

  lemma BegunStands(resolve: Resolver, files: Files)
    ensures Stands(resolve, Begun(files), State(files, []), Residue(true, false))
  {}

  // ---------------------------------------------------------- spurious reports

  /** How many times stale lines are flushed. */
  function Flushes(r: Residue, ops: seq<Op>): nat
    decreases |ops|
  {
    |Spurious(r)| + if ops == [] then 0 else Flushes(Leaves(r, ops[0]), ops[1..])
  }

  lemma {:induction false} Shifted(resolve: Resolver, a: State, b: State, ops: seq<Op>)
    requires a.files == b.files
    ensures |ApplyOps(resolve, b, ops).reports| - |b.reports| == |ApplyOps(resolve, a, ops).reports| - |a.reports|
    decreases |ops|
  {
    if ops != [] {
      SameFiles(resolve, a, b, ops[0]);
      Grows(resolve, a, b, ops[0]);
      hide ApplyOp;
      Shifted(resolve, ApplyOp(resolve, a, ops[0]), ApplyOp(resolve, b, ops[0]), ops[1..]);
    }
  }

  lemma Grows(resolve: Resolver, a: State, b: State, op: Op)
    ensures |ApplyOp(resolve, b, op).reports| - |b.reports| == |ApplyOp(resolve, a, op).reports| - |a.reports|
  {}

  lemma {:induction false} ReportsCount(resolve: Resolver, s: State, r: Residue, ops: seq<Op>)
    ensures |Reported(resolve, s, r, ops)| == |ApplyOps(resolve, s, ops).reports| + Flushes(r, ops)
    ensures Flushes(r, ops) == 0 ==> Reported(resolve, s, r, ops) == ApplyOps(resolve, s, ops).reports
    decreases |ops|
  {
    hide ApplyOp, Leaves;
    assert s.reports + [] == s.reports;
    if ops != [] {
      var flushed := State(s.files, s.reports + Spurious(r));
      var next := ApplyOp(resolve, flushed, ops[0]);
      ReportsCount(resolve, next, Leaves(r, ops[0]), ops[1..]);
      Shifted(resolve, s, flushed, ops);
      assert ApplyOps(resolve, flushed, ops) == ApplyOps(resolve, next, ops[1..]);
    }
  }

  /** Adds only, and then a delete. */
  predicate AddsThenDelete(ops: seq<Op>) {
    ops != [] && (ops[0].Delete? || (ops[0].Add? && AddsThenDelete(ops[1..])))
  }

  /** Some update with new lines is followed, adds aside, by a delete. */
  predicate DeletesAfterUpdate(ops: seq<Op>) {
    ops != []
    && ((ops[0].Update? && NewOf(ops[0].hunk) != [] && AddsThenDelete(ops[1..])) || DeletesAfterUpdate(ops[1..]))
  }

  lemma {:induction false} FlushesIff(r: Residue, ops: seq<Op>)
    ensures Flushes(r, ops) == 0 <==>
              if r.stale then !r.between && !AddsThenDelete(ops) && !DeletesAfterUpdate(ops)
              else !DeletesAfterUpdate(ops)
    decreases |ops|
  {
    if ops != [] {
      FlushesIff(Leaves(r, ops[0]), ops[1..]);
    }
  }

  /** The reports are exactly the fold's if and only if no delete follows an update
    with new lines, adds aside. */
  lemma ReportsAreTheFolds(resolve: Resolver, files: Files, ops: seq<Op>)
    requires AllPrintable(ops) && NotTheWorkingDirectory(resolve, files, ops)
    requires |PatchLines(ops)| <= MAX_INDEX + 1
    ensures var folded := ApplyOps(resolve, State(files, []), ops);
      RunPatch(resolve, files, PrintPatch(ops)) == Applied(folded.files, folded.reports)
      <==> !DeletesAfterUpdate(ops)
  {
    hide AllPrintable, NotTheWorkingDirectory, RunPatch, PrintPatch, ApplyOps, Reported, Flushes, DeletesAfterUpdate;
    PrintedPatchApplies(resolve, files, ops);
    ReportsCount(resolve, State(files, []), Residue(true, false), ops);
    FlushesIff(Residue(true, false), ops);
  }

  function Anywhere(path: string): Option<string> { if path == "" then None else Some(path) }

  /** An update of one file and a delete of another: a failure is reported that the
    operations do not have. */
  lemma SpuriousFailure(files: Files)
    ensures var ops := [Update("a", [Plus("x")]), Delete("b")]; var folded := ApplyOps(Anywhere, State(files, []), ops);
      && RunPatch(Anywhere, files, PrintPatch(ops)).files == folded.files
      && RunPatch(Anywhere, files, PrintPatch(ops)) != Applied(folded.files, folded.reports)
  {
    var ops := [Update("a", [Plus("x")]), Delete("b")];
    assert AllPrintable(ops);
    assert NewOf([Plus("x")])[0] == "x" && AddsThenDelete(ops[1..]);
    assert |PatchLines(ops)| <= MAX_INDEX + 1;
    PrintedPatchApplies(Anywhere, files, ops);
    ReportsAreTheFolds(Anywhere, files, ops);
  }

  // --------------------------------------------------------- one file's content

  /** An update replaces the first occurrence of the old block and nothing else. */
  lemma UpdateReplacesFirst(before: string, after: string, oldLines: seq<string>, newLines: seq<string>)
    requires oldLines != []
    requires var block := JoinLines(oldLines); var content := before + block + after;
      forall i :: 0 <= i < |before| ==> !OccursAt(content, block, i)
    ensures Modified(before + JoinLines(oldLines) + after, oldLines, newLines) == before + JoinLines(newLines) + after
  {
    hide JoinLines, Find, PartialUpdate;
    var block := JoinLines(oldLines);
    var content := before + block + after;
    FindIsFirst(content, block);
    assert content[|before|..] == block + after;
    assert OccursAt(content, block, |before|);
    assert Find(content, block) == Some(|before|);
    assert content[..|before|] == before && content[|before| + |block|..] == after;
  }

  /** One fallback round changes at most one line, one that contains the trimmed old
    line, into the new line of the same position. */
  lemma PartialStepIsLocal(content: string, oldLine: string, i: nat, newLines: seq<string>)
    requires forall k :: 0 <= k < |newLines| ==> '\n' !in newLines[k]
    ensures var a := Split(content, '\n'); var b := Split(PartialStep(content, oldLine, i, newLines), '\n');
      && |b| == |a|
      && forall k :: 0 <= k < |a| ==>
           b[k] == a[k] || (i < |newLines| && b[k] == newLines[i] && Find(a[k], TrimSpace(oldLine)).Some?)
  {
    hide TrimSpace, Find, Split, Join;
    var a := Split(content, '\n');
    JoinSplit(content, '\n');
    var r := FirstLineWith(a, TrimSpace(oldLine), 0);
    if r.Some? && i < |newLines| {
      var c := a[r.value := newLines[i]];
      forall p | p in c ensures '\n' !in p {
        assert p in a || p == newLines[i];
      }
      SplitJoin(c, '\n');
    }
  }

  /** The fallback never adds or removes a line. */
  lemma {:induction false} PartialUpdateKeepsLineCount(content: string, oldLines: seq<string>, newLines: seq<string>)
    requires forall k :: 0 <= k < |newLines| ==> '\n' !in newLines[k]
    ensures |Split(PartialUpdate(content, oldLines, newLines), '\n')| == |Split(content, '\n')|
  {
    hide PartialStep, Split;
    if oldLines != [] {
      var i := |oldLines| - 1;
      PartialUpdateKeepsLineCount(content, oldLines[..i], newLines);
      PartialStepIsLocal(PartialUpdate(content, oldLines[..i], newLines), oldLines[i], i, newLines);
    }
  }
}
