/** Patches written in other ways than the printer does: unfinished, surrounded by
  other text, without marks, too large. */
module PatchForms {
  import opened Options
  import opened Sequences
  import opened Strings
  import opened Patch
  import opened PatchMeaning
  import PatchText

  // -------------------------------------------------------- outside the patch

  /** Text before the first line and behind the last one is ignored. */
  lemma {:induction false} OutsideIsIgnored(resolve: Resolver, m: Machine, lines: seq<string>)
    requires m.mode == Finished || (m.mode == SeekingBegin && forall i :: 0 <= i < |lines| ==> !IsBegin(lines[i]))
    ensures Run(resolve, m, lines) == m
    decreases |lines|
  {
    hide IsBegin;
    if lines != [] {
      OutsideIsIgnored(resolve, m, lines[1..]);
    }
  }

  // ------------------------------------------------------------------ the limit

  /** The patch is refused as too large if and only if some line past index 10000 is not
    one on which the loop continues. */
  lemma {:induction false} TooLargeIff(resolve: Resolver, m: Machine, lines: seq<string>, i: nat)
    ensures RunLines(resolve, m, lines, i).TooLarge?
       <==> exists k :: 0 <= k < |lines| && i + k > 10000 && !SkipsCheck(Run(resolve, m, lines[..k]), lines[k])
    decreases |lines|
  {
    hide Step, SkipsCheck;
    if lines != [] {
      var next := Step(resolve, m, lines[0]);
      TooLargeIff(resolve, next, lines[1..], i + 1);
      assert lines[..0] == [];
      forall k | 1 <= k < |lines|
        ensures Run(resolve, m, lines[..k]) == Run(resolve, next, lines[1..][..k - 1]) && lines[k] == lines[1..][k - 1]
      {
        assert lines[..k][1..] == lines[1..][..k - 1];
      }
      if k :| 0 <= k < |lines[1..]| && i + 1 + k > 10000
              && !SkipsCheck(Run(resolve, next, lines[1..][..k]), lines[1..][k]) {
        assert lines[k + 1] == lines[1..][k] && Run(resolve, m, lines[..k + 1]) == Run(resolve, next, lines[1..][..k]);
      }
    }
  }

  // ---------------------------------------------------------- without the end line

  /** The reports up to the last operation: those of a patch that does not end. */
  function OpenReports(resolve: Resolver, s: State, r: Residue, ops: seq<Op>): seq<Report>
    decreases |ops|
  {
    if ops == [] then s.reports
    else
      var flushed := State(s.files, s.reports + Spurious(r));
      OpenReports(resolve, ApplyOp(resolve, flushed, ops[0]), Leaves(r, ops[0]), ops[1..])
  }

  lemma {:induction false} OpsStand(resolve: Resolver, m: Machine, s: State, r: Residue, ops: seq<Op>)
    returns (d: Machine, e: State, q: Residue)
    requires Stands(resolve, m, s, r) && AllPrintable(ops) && NotTheWorkingDirectory(resolve, s.files, ops)
    requires m.mode == SeekingOp || m.file != ""
    requires forall i :: 0 <= i < |ops| ==> ops[i].path != ""
    ensures d == Run(resolve, m, OpsLines(ops)) && Stands(resolve, d, e, q)
    ensures d.mode == SeekingOp || d.file != ""
    ensures e.reports == OpenReports(resolve, s, r, ops) && e.files == ApplyOps(resolve, s, ops).files
    decreases |ops|
  {
    hide ApplyOp, Leaves, OpLines, Stands;
    if ops == [] {
      d, e, q := m, s, r;
    } else {
      var flushed := State(s.files, s.reports + Spurious(r));
      OpRuns(resolve, m, s, r, ops[0]);
      EmptyPathStays(resolve, s, ops[0]);
      SameFiles(resolve, s, flushed, ops[0]);
      var mid := Run(resolve, m, OpLines(ops[0]));
      RunConcat(resolve, m, OpLines(ops[0]), OpsLines(ops[1..]));
      BetweenOrNamed(resolve, mid, ApplyOp(resolve, flushed, ops[0]), Leaves(r, ops[0]), r, ops[0]);
      d, e, q := OpsStand(resolve, mid, ApplyOp(resolve, flushed, ops[0]), Leaves(r, ops[0]), ops[1..]);
      SameFilesAll(resolve, ApplyOp(resolve, s, ops[0]), ApplyOp(resolve, flushed, ops[0]), ops[1..]);
    }
  }

  lemma BetweenOrNamed(resolve: Resolver, m: Machine, s: State, q: Residue, r: Residue, op: Op)
    requires Stands(resolve, m, s, q) && q == Leaves(r, op)
    requires op.Add? || op.Update? ==> m.file == op.path
    ensures op.Add? || op.Update? || m.mode == SeekingOp
  {}

  /** A printed patch that breaks off before its last line leaves the same files; the
    report of lines still held at the end is missing. */
  lemma UnfinishedPatchApplies(resolve: Resolver, files: Files, ops: seq<Op>)
    requires AllPrintable(ops) && NotTheWorkingDirectory(resolve, files, ops)
    requires (forall i :: 0 <= i < |ops| ==> ops[i].path != "") && |OpsLines(ops)| <= MAX_INDEX
    ensures RunLines(resolve, Start(files), ["*** Begin Patch"] + OpsLines(ops), 0)
         == Applied(ApplyOps(resolve, State(files, []), ops).files,
                    OpenReports(resolve, State(files, []), Residue(true, false), ops))
  {
    hide AllPrintable, NotTheWorkingDirectory, OpsLines, ApplyOps, OpenReports, Step;
    var lines := ["*** Begin Patch"] + OpsLines(ops);
    WithinTheLimit(resolve, Start(files), lines, 0);
    PatchText.BegunStands(resolve, files);
    BeginsWith(resolve, files, OpsLines(ops));
    var d, e, q := OpsStand(resolve, PatchText.Begun(files), State(files, []), Residue(true, false), ops);
    FinishStands(resolve, d, e, q);
  }

  lemma BeginsWith(resolve: Resolver, files: Files, rest: seq<string>)
    ensures Run(resolve, Start(files), ["*** Begin Patch"] + rest) == Run(resolve, PatchText.Begun(files), rest)
  {
    assert (["*** Begin Patch"] + rest)[1..] == rest;
    assert Step(resolve, Start(files), "*** Begin Patch") == PatchText.Begun(files);
  }

  lemma FinishStands(resolve: Resolver, m: Machine, s: State, r: Residue)
    requires Stands(resolve, m, s, r) && (m.mode == SeekingOp || m.file != "")
    ensures Finish(resolve, m) == Applied(s.files, s.reports)
  {}

  // --------------------------------------------------------------- without marks

  predicate Unmarked(line: string) {
    TrimSpace(line) != "" && !IsStars(line) && !IsHunk(line)
    && !("+" <= line) && !("-" <= line) && !(" " <= line)
  }

  /** Lines of a new file may lack their mark. */
  lemma {:induction false} AddWithoutMarks(resolve: Resolver, m: Machine, lines: seq<string>)
    requires m.mode == InAdd && forall i :: 0 <= i < |lines| ==> Unmarked(lines[i])
    ensures Run(resolve, m, lines) == m.(addLines := m.addLines + lines)
    decreases |lines|
  {
    hide TrimSpace;
    if lines == [] {
      AppendNothing(m.addLines);
    } else {
      AddWithoutMarks(resolve, m.(addLines := m.addLines + [lines[0]]), lines[1..]);
      Assoc(m.addLines, [lines[0]], lines[1..]);
      assert [lines[0]] + lines[1..] == lines;
    }
  }

  lemma StarsAre(line: string)
    ensures IsEndOfFile(line) || IsMove(line) ==> IsStars(line)
  {
    StarsFirst(line);
  }

  /** So may context lines inside a hunk. */
  lemma {:induction false} ContextWithoutMarks(resolve: Resolver, m: Machine, lines: seq<string>)
    requires m.mode == InUpdate && m.inHunk && forall i :: 0 <= i < |lines| ==> Unmarked(lines[i])
    ensures Run(resolve, m, lines) == m.(oldLines := m.oldLines + lines, newLines := m.newLines + lines)
    decreases |lines|
  {
    hide TrimSpace, IsStars, IsHunk, IsEndOfFile, IsMove;
    if lines == [] {
      AppendNothing(m.oldLines);
      AppendNothing(m.newLines);
    } else {
      StarsAre(lines[0]);
      var x := [lines[0]];
      ContextWithoutMarks(resolve, m.(oldLines := m.oldLines + x, newLines := m.newLines + x), lines[1..]);
      Assoc(m.oldLines, x, lines[1..]);
      Assoc(m.newLines, x, lines[1..]);
      assert x + lines[1..] == lines;
    }
  }

  function Spaced(texts: seq<string>): seq<string> {
    if texts == [] then [] else [" " + texts[0]] + Spaced(texts[1..])
  }

  lemma ContextStep(resolve: Resolver, m: Machine, text: string)
    requires m.mode == InUpdate && !m.inHunk
    ensures Step(resolve, m, " " + text) == m.(oldLines := m.oldLines + [text], newLines := m.newLines + [text])
  {
    BodyLine(text, ' ');
    hide TrimSpace, IsHunk, IsEndOfFile, IsMove, IsStars;
  }

  /** Before a hunk, lines that begin with a space are context. */
  lemma {:induction false} ContextBeforeHunk(resolve: Resolver, m: Machine, texts: seq<string>)
    requires m.mode == InUpdate && !m.inHunk
    ensures Run(resolve, m, Spaced(texts)) == m.(oldLines := m.oldLines + texts, newLines := m.newLines + texts)
    decreases |texts|
  {
    hide Step;
    if texts == [] {
      AppendNothing(m.oldLines);
      AppendNothing(m.newLines);
    } else {
      var x := [texts[0]];
      ContextStep(resolve, m, texts[0]);
      ContextBeforeHunk(resolve, m.(oldLines := m.oldLines + x, newLines := m.newLines + x), texts[1..]);
      assert Spaced(texts)[0] == " " + texts[0] && Spaced(texts)[1..] == Spaced(texts[1..]);
      Assoc(m.oldLines, x, texts[1..]);
      Assoc(m.newLines, x, texts[1..]);
      assert x + texts[1..] == texts;
    }
  }

  /** There, lines with other marks are ignored, as are the end-of-file line and, in a
    hunk, blank lines. */
  lemma IgnoredLines(resolve: Resolver, m: Machine, line: string)
    requires m.mode == InUpdate
    requires || IsEndOfFile(line)
             || (!m.inHunk && ("+" <= line || "-" <= line) && TrimSpace(line) != "")
             || (m.inHunk && line == "")
    ensures Step(resolve, m, line) == m
  {
    hide TrimSpace;
    if IsEndOfFile(line) {
      assert line[0] == '*';
    } else if line != "" {
      assert line[0] != '*' && line[0] != '@' && line[0] != ' ';
    }
    TrimmedStays("");
  }

  // --------------------------------------------------------------- line endings

  function JoinCrLf(lines: seq<string>): string
    requires lines != []
  {
    if |lines| == 1 then lines[0] else lines[0] + "\r\n" + JoinCrLf(lines[1..])
  }

  lemma {:induction false} DropsReturns(line: string, rest: string)
    requires forall c :: c in line ==> c != '\r' && c != '\n'
    ensures DropReturns(line + rest) == line + DropReturns(rest)
  {
    if line == "" {
      assert line + rest == rest && line + DropReturns(rest) == DropReturns(rest);
    } else {
      assert line[0] in line && forall c :: c in line[1..] ==> c in line;
      DropsReturns(line[1..], rest);
      assert (line + rest)[0] == line[0] && (line + rest)[1..] == line[1..] + rest;
      Assoc([line[0]], line[1..], DropReturns(rest));
      assert [line[0]] + line[1..] == line;
    }
  }

  /** A patch with CR LF line endings is the same patch. */
  lemma {:induction false} CrLfIsLf(lines: seq<string>)
    requires lines != []
    requires forall i :: 0 <= i < |lines| ==> forall c :: c in lines[i] ==> c != '\r' && c != '\n'
    ensures DropReturns(JoinCrLf(lines)) == Join(lines, '\n') == DropReturns(Join(lines, '\n'))
  {
    if |lines| == 1 {
      AppendNothing(lines[0]);
      DropsReturns(lines[0], "");
    } else {
      CrLfIsLf(lines[1..]);
      var rest := JoinCrLf(lines[1..]);
      hide DropReturns;
      DropsReturns(lines[0], "\r\n" + rest);
      DropsReturns(lines[0], "\n" + Join(lines[1..], '\n'));
      ReturnGoes(rest);
      NewlineStays(Join(lines[1..], '\n'));
      Assoc(lines[0], "\r\n", rest);
      Assoc(lines[0], "\n", Join(lines[1..], '\n'));
      assert lines[0] + ['\n'] + Join(lines[1..], '\n') == lines[0] + "\n" + Join(lines[1..], '\n');
    }
  }

  lemma ReturnGoes(rest: string)
    ensures DropReturns("\r\n" + rest) == "\n" + DropReturns(rest)
  {
    assert ("\r\n" + rest)[2..] == rest;
  }

  lemma NewlineStays(rest: string)
    ensures DropReturns("\n" + rest) == "\n" + DropReturns(rest)
  {
    assert ("\n" + rest)[0] == '\n' && ("\n" + rest)[1..] == rest;
  }
}
