/** Running a printed patch is folding its operations over the files. */
module PatchMeaning {
  import opened Options
  import opened Strings
  import opened Sequences
  import opened Patch

  datatype HunkLine = Context(text: string) | Minus(text: string) | Plus(text: string)

  datatype Op =
    | Add(path: string, lines: seq<string>)
    | Update(path: string, hunk: seq<HunkLine>)
    | Delete(path: string)
    | UpdateMove(path: string, hunk: seq<HunkLine>, to: string)

  // ------------------------------------------------------------------- printer

  function HunkText(h: HunkLine): string {
    match h
    case Context(text) => " " + text
    case Minus(text) => "-" + text
    case Plus(text) => "+" + text
  }

  function HunkTexts(hunk: seq<HunkLine>): seq<string> {
    if hunk == [] then [] else [HunkText(hunk[0])] + HunkTexts(hunk[1..])
  }

  function PlusTexts(lines: seq<string>): seq<string> {
    if lines == [] then [] else ["+" + lines[0]] + PlusTexts(lines[1..])
  }

  function OpLines(op: Op): seq<string> {
    match op
    case Add(path, lines) => ["*** Add File: " + path] + PlusTexts(lines)
    case Update(path, hunk) => ["*** Update File: " + path, "@@"] + HunkTexts(hunk)
    case Delete(path) => ["*** Delete File: " + path]
    case UpdateMove(path, hunk, to) =>
      ["*** Update File: " + path, "@@"] + HunkTexts(hunk) + ["*** Move to: " + to]
  }

  function OpsLines(ops: seq<Op>): seq<string> {
    if ops == [] then [] else OpLines(ops[0]) + OpsLines(ops[1..])
  }

  function PatchLines(ops: seq<Op>): seq<string> {
    ["*** Begin Patch"] + OpsLines(ops) + ["*** End Patch"]
  }

  function PrintPatch(ops: seq<Op>): string { Join(PatchLines(ops), '\n') }

  // ------------------------------------------------------------------- meaning

  function OldOf(hunk: seq<HunkLine>): seq<string> {
    if hunk == [] then []
    else if hunk[0].Plus? then OldOf(hunk[1..])
    else [hunk[0].text] + OldOf(hunk[1..])
  }

  function NewOf(hunk: seq<HunkLine>): seq<string> {
    if hunk == [] then []
    else if hunk[0].Minus? then NewOf(hunk[1..])
    else [hunk[0].text] + NewOf(hunk[1..])
  }

  datatype State = State(files: Files, reports: seq<Report>)

  function Done(s: State, e: Effect): State { State(e.files, s.reports + [e.report]) }

  function ApplyOp(resolve: Resolver, s: State, op: Op): State {
    match op
    case Add(path, lines) => Done(s, ApplyAdd(resolve, s.files, path, lines))
    case Update(path, hunk) => Done(s, ApplyUpdate(resolve, s.files, path, OldOf(hunk), NewOf(hunk)))
    case Delete(path) => Done(s, ApplyDelete(resolve, s.files, path))
    case UpdateMove(path, hunk, to) =>
      var u := Done(s, ApplyUpdate(resolve, s.files, path, OldOf(hunk), NewOf(hunk)));
      Done(u, ApplyMove(resolve, u.files, path, to))
  }

  /** Folding the operations in order. */
  function ApplyOps(resolve: Resolver, s: State, ops: seq<Op>): State
    decreases |ops|
  {
    if ops == [] then s else ApplyOps(resolve, ApplyOp(resolve, s, ops[0]), ops[1..])
  }

  /** What an operation leaves behind for the next one: whether the machine is
    between operations, and whether lines of an earlier update are still there. */
  datatype Residue = Residue(between: bool, stale: bool)

  function Leaves(r: Residue, op: Op): Residue {
    match op
    case Add(_, _) => Residue(false, r.stale && !r.between)
    case Update(_, hunk) => Residue(false, NewOf(hunk) != [])
    case Delete(_) => Residue(true, r.stale && !r.between)
    case UpdateMove(_, _, _) => Residue(true, false)
  }

  const NOTHING_THERE := Report("", Failed)

  function Spurious(r: Residue): seq<Report> {
    if r.between && r.stale then [NOTHING_THERE] else []
  }

  /** The reports the tool gives: those of the fold, and one failure on the empty
    path wherever stale lines are flushed. */
  function Reported(resolve: Resolver, s: State, r: Residue, ops: seq<Op>): seq<Report>
    decreases |ops|
  {
    if ops == [] then s.reports + Spurious(r)
    else
      var flushed := State(s.files, s.reports + Spurious(r));
      Reported(resolve, ApplyOp(resolve, flushed, ops[0]), Leaves(r, ops[0]), ops[1..])
  }

  // -------------------------------------------------------- what can be printed

  predicate Clean(s: string) {
    '\n' !in s && (s != "" ==> s[|s| - 1] != '\r')
  }

  predicate CleanHunk(hunk: seq<HunkLine>) {
    forall i :: 0 <= i < |hunk| ==>
      Clean(hunk[i].text) && (hunk[i].Context? ==> TrimSpace(" " + hunk[i].text) != "")
  }

  predicate Printable(op: Op) {
    && Trimmed(op.path) && '\n' !in op.path
    && match op
       case Add(_, lines) => forall i :: 0 <= i < |lines| ==> Clean(lines[i])
       case Update(_, hunk) => CleanHunk(hunk)
       case Delete(_) => true
       case UpdateMove(_, hunk, to) => CleanHunk(hunk) && Trimmed(to) && '\n' !in to
  }

  predicate AllPrintable(ops: seq<Op>) { forall i :: 0 <= i < |ops| ==> Printable(ops[i]) }

  /** The empty path is the working directory: outside the jail, or not a regular
    file and not what any path of the patch resolves to. */
  ghost predicate NotTheWorkingDirectory(resolve: Resolver, files: Files, ops: seq<Op>) {
    resolve("").Some? ==>
      && resolve("").value !in files
      && forall i :: 0 <= i < |ops| ==>
           && resolve(ops[i].path) != resolve("")
           && (ops[i].UpdateMove? ==> resolve(ops[i].to) != resolve(""))
  }

  // ------------------------------------------------------------------ the lines

  lemma PathRead(prefix: string, path: string)
    requires Trimmed(path)
    ensures PathAfter(prefix + " " + path, |prefix|) == path
  {
    var line := prefix + " " + path;
    assert line[|prefix|..] == " " + path;
    assert IsSpace(' ');
    hide IsSpace;
    TrimLeftSkips(" ", path);
    TrimmedStays(path);
  }

  lemma AddHeader(path: string)
    requires Trimmed(path)
    ensures var l := "*** Add File: " + path;
      IsAdd(l) && IsStars(l) && !IsUpdate(l) && !IsDelete(l) && !IsEnd(l) && !IsEndOfFile(l) && !IsMove(l) && !IsHunk(l)
      && PathAfter(l, 13) == path
  {
    var l := "*** Add File: " + path;
    assert l == "*** Add File:" + " " + path;
    PathRead("*** Add File:", path);
    assert l[0] == '*' && l[4] == 'A';
  }

  lemma UpdateHeader(path: string)
    requires Trimmed(path)
    ensures var l := "*** Update File: " + path;
      IsUpdate(l) && IsStars(l) && !IsAdd(l) && !IsDelete(l) && !IsEnd(l) && !IsEndOfFile(l) && !IsMove(l) && !IsHunk(l)
      && PathAfter(l, 16) == path
  {
    var l := "*** Update File: " + path;
    assert l == "*** Update File:" + " " + path;
    PathRead("*** Update File:", path);
    assert l[0] == '*' && l[4] == 'U';
  }

  lemma DeleteHeader(path: string)
    requires Trimmed(path)
    ensures var l := "*** Delete File: " + path;
      IsDelete(l) && IsStars(l) && !IsAdd(l) && !IsUpdate(l) && !IsEnd(l) && !IsEndOfFile(l) && !IsMove(l) && !IsHunk(l)
      && PathAfter(l, 16) == path
  {
    var l := "*** Delete File: " + path;
    assert l == "*** Delete File:" + " " + path;
    PathRead("*** Delete File:", path);
    assert l[0] == '*' && l[4] == 'D';
  }

  lemma MoveHeader(path: string)
    requires Trimmed(path)
    ensures var l := "*** Move to: " + path;
      IsMove(l) && !IsEndOfFile(l) && !IsHunk(l) && PathAfter(l, 12) == path
  {
    var l := "*** Move to: " + path;
    assert l == "*** Move to:" + " " + path;
    PathRead("*** Move to:", path);
    assert l[0] == '*' && l[4] == 'M';
  }

  lemma EndHeader()
    ensures var l := "*** End Patch";
      IsEnd(l) && IsStars(l) && !IsAdd(l) && !IsUpdate(l) && !IsDelete(l) && !IsEndOfFile(l) && !IsMove(l) && !IsHunk(l)
  {
    var l := "*** End Patch";
    assert l[0] == '*' && l[4] == 'E' && l[8] == 'P';
  }

  lemma BodyLine(text: string, mark: char)
    requires mark == '+' || mark == '-' || mark == ' '
    ensures var l := [mark] + text;
      !IsHunk(l) && !IsEndOfFile(l) && !IsMove(l) && !IsStars(l) && l[1..] == text
      && ("+" <= l <==> mark == '+') && ("-" <= l <==> mark == '-') && (" " <= l <==> mark == ' ')
  {
    var l := [mark] + text;
    assert l[0] == mark;
  }

  // ------------------------------------------------------------- running lines

  /** The machine after some lines, ignoring the size limit. */
  function Run(resolve: Resolver, m: Machine, lines: seq<string>): Machine
    decreases |lines|
  {
    if lines == [] then m else Run(resolve, Step(resolve, m, lines[0]), lines[1..])
  }

  lemma {:induction false} RunConcat(resolve: Resolver, m: Machine, a: seq<string>, b: seq<string>)
    ensures Run(resolve, m, a + b) == Run(resolve, Run(resolve, m, a), b)
    decreases |a|
  {
    hide Step;
    if a == [] {
      assert a + b == b;
    } else {
      RunConcat(resolve, Step(resolve, m, a[0]), a[1..], b);
      assert (a + b)[0] == a[0] && (a + b)[1..] == a[1..] + b;
    }
  }

  lemma RunOne(resolve: Resolver, m: Machine, line: string)
    ensures Run(resolve, m, [line]) == Step(resolve, m, line)
  {
    hide Step;
    assert [line][1..] == [];
    assert Run(resolve, Step(resolve, m, line), []) == Step(resolve, m, line);
  }

  lemma {:induction false} WithinTheLimit(resolve: Resolver, m: Machine, lines: seq<string>, i: nat)
    requires i + |lines| <= MAX_INDEX + 1
    ensures RunLines(resolve, m, lines, i) == Finish(resolve, Run(resolve, m, lines))
    decreases |lines|
  {
    hide Step, Finish;
    if lines != [] {
      WithinTheLimit(resolve, Step(resolve, m, lines[0]), lines[1..], i + 1);
    }
  }

  lemma {:induction false} AddBody(resolve: Resolver, m: Machine, lines: seq<string>)
    requires m.mode == InAdd
    ensures Run(resolve, m, PlusTexts(lines)) == m.(addLines := m.addLines + lines)
    decreases |lines|
  {
    hide IsStars, TrimSpace, Open, Close;
    if lines == [] {
      assert m.addLines + lines == m.addLines;
    } else {
      var l := "+" + lines[0];
      BodyLine(lines[0], '+');
      var next := m.(addLines := m.addLines + [lines[0]]);
      assert Step(resolve, m, l) == next;
      AddBody(resolve, next, lines[1..]);
      assert m.addLines + [lines[0]] + lines[1..] == m.addLines + lines;
      assert PlusTexts(lines)[0] == l && PlusTexts(lines)[1..] == PlusTexts(lines[1..]);
    }
  }

  lemma HunkStep(resolve: Resolver, m: Machine, h: HunkLine)
    requires m.mode == InUpdate && m.inHunk
    requires h.Context? ==> TrimSpace(" " + h.text) != ""
    ensures Step(resolve, m, HunkText(h))
         == m.(oldLines := if h.Plus? then m.oldLines else m.oldLines + [h.text],
               newLines := if h.Minus? then m.newLines else m.newLines + [h.text])
  {
    hide IsStars, IsHunk, IsEndOfFile, IsMove, TrimSpace, Open, Close;
    BodyLine(h.text, if h.Context? then ' ' else if h.Minus? then '-' else '+');
  }

  lemma {:induction false} HunkBody(resolve: Resolver, m: Machine, hunk: seq<HunkLine>)
    requires m.mode == InUpdate && m.inHunk && CleanHunk(hunk)
    ensures Run(resolve, m, HunkTexts(hunk))
         == m.(oldLines := m.oldLines + OldOf(hunk), newLines := m.newLines + NewOf(hunk))
    decreases |hunk|
  {
    hide Step, TrimSpace, Clean, HunkText;
    if hunk == [] {
      AppendNothing(m.oldLines);
      AppendNothing(m.newLines);
    } else {
      var h := hunk[0];
      HunkStep(resolve, m, h);
      var next := Step(resolve, m, HunkText(h));
      HunkBody(resolve, next, hunk[1..]);
      var texts := HunkTexts(hunk);
      assert texts[0] == HunkText(h) && texts[1..] == HunkTexts(hunk[1..]);
      Assoc(m.oldLines, [h.text], OldOf(hunk[1..]));
      Assoc(m.newLines, [h.text], NewOf(hunk[1..]));
    }
  }

  // ---------------------------------------------------------- op by op

  /** The machine between two printed operations stands for a state: applying what
    is pending gives the state's files and reports. */
  ghost predicate Stands(resolve: Resolver, m: Machine, s: State, r: Residue) {
    && (m.mode == SeekingOp || m.mode == InAdd || m.mode == InUpdate)
    && r.between == (m.mode == SeekingOp)
    && r.stale == (m.newLines != [])
    && (m.mode == SeekingOp ==> m.file == "" && s == State(m.files, m.reports))
    && (m.mode == InAdd ==> s == Done(State(m.files, m.reports), ApplyAdd(resolve, m.files, m.file, m.addLines)))
    && (m.mode == InUpdate ==>
          s == Done(State(m.files, m.reports), ApplyUpdate(resolve, m.files, m.file, m.oldLines, m.newLines)))
  }

  ghost predicate EmptyPathFails(resolve: Resolver, files: Files) {
    resolve("").Some? ==> resolve("").value !in files
  }

  /** Closing the pending operation reaches the state, plus a failure if stale lines are flushed. */
  lemma Closes(resolve: Resolver, m: Machine, s: State, r: Residue)
    requires Stands(resolve, m, s, r) && EmptyPathFails(resolve, s.files)
    ensures var c := Close(resolve, m);
      && c.files == s.files && c.reports == s.reports + Spurious(r)
      && (c.newLines != [] <==> r.stale && !r.between)
  {
    hide ApplyAdd, Modified;
    assert s.reports + [] == s.reports;
  }

  lemma AddRuns(resolve: Resolver, m: Machine, s: State, r: Residue, path: string, lines: seq<string>)
    requires Stands(resolve, m, s, r) && EmptyPathFails(resolve, s.files) && Trimmed(path)
    ensures var op := Add(path, lines);
      && Stands(resolve, Run(resolve, m, OpLines(op)),
                ApplyOp(resolve, State(s.files, s.reports + Spurious(r)), op), Leaves(r, op))
      && Run(resolve, m, OpLines(op)).file == path
  {
    var l := "*** Add File: " + path;
    AddHeader(path);
    Closes(resolve, m, s, r);
    hide IsAdd, IsUpdate, IsDelete, IsEnd, IsStars, IsHunk, IsEndOfFile, IsMove, PathAfter, Close, ApplyAdd,
      ApplyUpdate, PlusTexts;
    var c := Close(resolve, m);
    var next := c.(file := path, addLines := [], mode := InAdd);
    assert Step(resolve, m, l) == next;
    AddBody(resolve, next, lines);
    assert [] + lines == lines;
    assert ([l] + PlusTexts(lines))[1..] == PlusTexts(lines);
  }

  lemma DeleteRuns(resolve: Resolver, m: Machine, s: State, r: Residue, path: string)
    requires Stands(resolve, m, s, r) && EmptyPathFails(resolve, s.files) && Trimmed(path)
    ensures var op := Delete(path);
      Stands(resolve, Run(resolve, m, OpLines(op)),
             ApplyOp(resolve, State(s.files, s.reports + Spurious(r)), op), Leaves(r, op))
  {
    var l := "*** Delete File: " + path;
    DeleteHeader(path);
    Closes(resolve, m, s, r);
    hide IsAdd, IsUpdate, IsDelete, IsEnd, IsStars, IsHunk, IsEndOfFile, IsMove, PathAfter, Close,
      ApplyDelete, ApplyUpdate;
    hide EmptyPathFails;
    RunOne(resolve, m, l);
  }

  lemma UpdateRuns(resolve: Resolver, m: Machine, s: State, r: Residue, path: string, hunk: seq<HunkLine>)
    requires Stands(resolve, m, s, r) && EmptyPathFails(resolve, s.files) && Trimmed(path) && CleanHunk(hunk)
    ensures var op := Update(path, hunk); var d := Run(resolve, m, OpLines(op));
      && Stands(resolve, d, ApplyOp(resolve, State(s.files, s.reports + Spurious(r)), op), Leaves(r, op))
      && d.mode == InUpdate && d.inHunk && d.file == path && d.newLines == NewOf(hunk)
  {
    var l := "*** Update File: " + path;
    UpdateHeader(path);
    Closes(resolve, m, s, r);
    assert IsHunk("@@");
    hide IsAdd, IsUpdate, IsDelete, IsEnd, IsStars, IsHunk, IsEndOfFile, IsMove, PathAfter, Close,
      ApplyAdd, ApplyUpdate, HunkTexts, CleanHunk;
    var c := Close(resolve, m);
    var m1 := c.(file := path, oldLines := [], newLines := [], inHunk := false, mode := InUpdate);
    assert Step(resolve, m, l) == m1;
    var m2 := m1.(inHunk := true);
    assert Step(resolve, m1, "@@") == m2;
    HunkBody(resolve, m2, hunk);
    assert [] + OldOf(hunk) == OldOf(hunk) && [] + NewOf(hunk) == NewOf(hunk);
    var texts := [l, "@@"] + HunkTexts(hunk);
    assert texts[0] == l && texts[1..][0] == "@@" && texts[1..][1..] == HunkTexts(hunk);
    assert Run(resolve, m, texts) == Run(resolve, m1, texts[1..]) == Run(resolve, m2, HunkTexts(hunk));
  }

  lemma MoveRuns(resolve: Resolver, m: Machine, s: State, r: Residue, path: string, hunk: seq<HunkLine>, to: string)
    requires Stands(resolve, m, s, r) && EmptyPathFails(resolve, s.files)
    requires Trimmed(path) && CleanHunk(hunk) && Trimmed(to)
    ensures var op := UpdateMove(path, hunk, to);
      Stands(resolve, Run(resolve, m, OpLines(op)),
             ApplyOp(resolve, State(s.files, s.reports + Spurious(r)), op), Leaves(r, op))
  {
    var u := Update(path, hunk);
    var l := "*** Move to: " + to;
    UpdateRuns(resolve, m, s, r, path, hunk);
    MoveHeader(to);
    hide IsHunk, IsEndOfFile, IsMove, PathAfter, ApplyUpdate, ApplyMove, HunkTexts, CleanHunk;
    assert OpLines(UpdateMove(path, hunk, to)) == OpLines(u) + [l];
    RunConcat(resolve, m, OpLines(u), [l]);
    var d := Run(resolve, m, OpLines(u));
    var next := Step(resolve, d, l);
    assert [l][1..] == [];
    assert Run(resolve, d, [l]) == Run(resolve, next, []) == next;
  }

  lemma OpRuns(resolve: Resolver, m: Machine, s: State, r: Residue, op: Op)
    requires Stands(resolve, m, s, r) && EmptyPathFails(resolve, s.files) && Printable(op)
    ensures Stands(resolve, Run(resolve, m, OpLines(op)),
                   ApplyOp(resolve, State(s.files, s.reports + Spurious(r)), op), Leaves(r, op))
    ensures op.Add? || op.Update? ==> Run(resolve, m, OpLines(op)).file == op.path
  {
    hide Stands, Run, OpLines, ApplyOp, Leaves, Spurious, Trimmed, CleanHunk;
    match op
    case Add(path, lines) => AddRuns(resolve, m, s, r, path, lines);
    case Update(path, hunk) => UpdateRuns(resolve, m, s, r, path, hunk);
    case Delete(path) => DeleteRuns(resolve, m, s, r, path);
    case UpdateMove(path, hunk, to) => MoveRuns(resolve, m, s, r, path, hunk, to);
  }

  /** No operation on other paths creates a file at the empty path. */
  lemma EmptyPathStays(resolve: Resolver, s: State, op: Op)
    requires EmptyPathFails(resolve, s.files)
    requires resolve("").Some? ==> resolve(op.path) != resolve("") && (op.UpdateMove? ==> resolve(op.to) != resolve(""))
    ensures EmptyPathFails(resolve, ApplyOp(resolve, s, op).files)
  {
    hide Modified, JoinLines;
  }

  lemma {:induction false} OpsRun(resolve: Resolver, m: Machine, s: State, r: Residue, ops: seq<Op>)
    returns (d: Machine)
    requires Stands(resolve, m, s, r) && AllPrintable(ops) && NotTheWorkingDirectory(resolve, s.files, ops)
    ensures d == Run(resolve, m, OpsLines(ops) + ["*** End Patch"])
    ensures d.mode == Finished
    ensures d.reports == Reported(resolve, s, r, ops)
    ensures d.files == ApplyOps(resolve, s, ops).files
    decreases |ops|
  {
    hide ApplyOp, Leaves, OpLines, Stands;
    var last := "*** End Patch";
    if ops == [] {
      assert [] + [last] == [last] && [last][1..] == [];
      d := EndRuns(resolve, m, s, r);
      assert Run(resolve, m, [last]) == Run(resolve, d, []) == d;
    } else {
      var flushed := State(s.files, s.reports + Spurious(r));
      OpRuns(resolve, m, s, r, ops[0]);
      EmptyPathStays(resolve, s, ops[0]);
      SameFiles(resolve, s, flushed, ops[0]);
      var mid := Run(resolve, m, OpLines(ops[0]));
      RunConcat(resolve, m, OpLines(ops[0]), OpsLines(ops[1..]) + [last]);
      assert OpsLines(ops) + [last] == OpLines(ops[0]) + (OpsLines(ops[1..]) + [last]);
      d := OpsRun(resolve, mid, ApplyOp(resolve, flushed, ops[0]), Leaves(r, ops[0]), ops[1..]);
      SameFilesAll(resolve, ApplyOp(resolve, s, ops[0]), ApplyOp(resolve, flushed, ops[0]), ops[1..]);
    }
  }

  lemma EndRuns(resolve: Resolver, m: Machine, s: State, r: Residue) returns (d: Machine)
    requires Stands(resolve, m, s, r) && EmptyPathFails(resolve, s.files)
    ensures d == Step(resolve, m, "*** End Patch")
    ensures d.mode == Finished && d.files == s.files && d.reports == s.reports + Spurious(r)
  {
    EndHeader();
    Closes(resolve, m, s, r);
    hide IsAdd, IsUpdate, IsDelete, IsEnd, IsStars, IsHunk, IsEndOfFile, IsMove, PathAfter, Close, ApplyAdd,
      ApplyUpdate, Spurious;
    d := Step(resolve, m, "*** End Patch");
  }

  lemma SameFiles(resolve: Resolver, a: State, b: State, op: Op)
    requires a.files == b.files
    ensures ApplyOp(resolve, a, op).files == ApplyOp(resolve, b, op).files
  {}

  lemma {:induction false} SameFilesAll(resolve: Resolver, a: State, b: State, ops: seq<Op>)
    requires a.files == b.files
    ensures ApplyOps(resolve, a, ops).files == ApplyOps(resolve, b, ops).files
    decreases |ops|
  {
    if ops != [] {
      SameFiles(resolve, a, b, ops[0]);
      hide ApplyOp;
      SameFilesAll(resolve, ApplyOp(resolve, a, ops[0]), ApplyOp(resolve, b, ops[0]), ops[1..]);
    }
  }
}
