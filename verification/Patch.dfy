/** The apply_patch tool: a line-driven machine that parses a patch and applies it
  to the workspace as it goes. */
module Patch {
  import opened Options
  import opened Strings

  /** Regular files by absolute path. */
  type Files = map<string, string>

  /** `IsPathAllowed`: the absolute path, or None when the path is outside the jail. */
  type Resolver = string -> Option<string>

  datatype Status = Added | Updated | Deleted | Moved | Skipped | Failed

  datatype Report = Report(path: string, status: Status)

  datatype Effect = Effect(files: Files, report: Report)

  // ------------------------------------------------------- one file operation

  function JoinLines(lines: seq<string>): string {
    if lines == [] then "" else Join(lines, '\n')
  }

  function ApplyAdd(resolve: Resolver, files: Files, path: string, lines: seq<string>): Effect {
    match resolve(path)
    case None => Effect(files, Report(path, Failed))
    case Some(abs) =>
      if abs in files then Effect(files, Report(abs, Skipped))
      else Effect(files[abs := JoinLines(lines)], Report(abs, Added))
  }

  /** The first line containing `needle`, counting from `from`. */
  function FirstLineWith(lines: seq<string>, needle: string, from: nat): (r: Option<nat>)
    requires from <= |lines|
    ensures r.Some? ==> from <= r.value < |lines| && Find(lines[r.value], needle).Some?
    ensures forall j :: from <= j < (if r.Some? then r.value else |lines|) ==> Find(lines[j], needle).None?
    decreases |lines| - from
  {
    if from == |lines| then None
    else if Find(lines[from], needle).Some? then Some(from)
    else FirstLineWith(lines, needle, from + 1)
  }

  /** One round of `applyPartialUpdate`, for the i-th old line. */
  function PartialStep(content: string, oldLine: string, i: nat, newLines: seq<string>): string {
    var needle := TrimSpace(oldLine);
    if needle == "" then content
    else
      var lines := Split(content, '\n');
      match FirstLineWith(lines, needle, 0)
      case None => content
      case Some(j) => if i < |newLines| then Join(lines[j := newLines[i]], '\n') else content
  }

  function PartialUpdate(content: string, oldLines: seq<string>, newLines: seq<string>): string {
    if oldLines == [] then content
    else
      var i := |oldLines| - 1;
      PartialStep(PartialUpdate(content, oldLines[..i], newLines), oldLines[i], i, newLines)
  }

  /** The new content of an updated file. */
  function Modified(content: string, oldLines: seq<string>, newLines: seq<string>): string {
    if oldLines != [] then
      var oldBlock := JoinLines(oldLines);
      match Find(content, oldBlock)
      case Some(i) =>
        FindIsFirst(content, oldBlock);
        content[..i] + JoinLines(newLines) + content[i + |oldBlock|..]
      case None => PartialUpdate(content, oldLines, newLines)
    else if newLines != [] then content + "\n" + JoinLines(newLines)
    else content
  }

  function ApplyUpdate(resolve: Resolver, files: Files, path: string,
                       oldLines: seq<string>, newLines: seq<string>): Effect
  {
    match resolve(path)
    case None => Effect(files, Report(path, Failed))
    case Some(abs) =>
      if abs !in files then Effect(files, Report(path, Failed))
      else
        var content := Modified(files[abs], oldLines, newLines);
        if content == files[abs] then Effect(files, Report(abs, Skipped))
        else Effect(files[abs := content], Report(abs, Updated))
  }

  function ApplyDelete(resolve: Resolver, files: Files, path: string): Effect {
    match resolve(path)
    case None => Effect(files, Report(path, Failed))
    case Some(abs) =>
      if abs !in files then Effect(files, Report(abs, Skipped))
      else Effect(files - {abs}, Report(abs, Deleted))
  }

  function ApplyMove(resolve: Resolver, files: Files, from: string, to: string): Effect {
    match (resolve(from), resolve(to))
    case (None, _) => Effect(files, Report(from, Failed))
    case (_, None) => Effect(files, Report(to, Failed))
    case (Some(absFrom), Some(absTo)) =>
      if absFrom !in files then Effect(files, Report(from, Failed))
      else Effect((files - {absFrom})[absTo := files[absFrom]], Report(absFrom, Moved))
  }

  // --------------------------------------------------------------- the machine

  datatype Mode = SeekingBegin | SeekingOp | InAdd | InUpdate | Finished

  datatype Machine = Machine(mode: Mode, file: string, addLines: seq<string>, oldLines: seq<string>,
                             newLines: seq<string>, inHunk: bool, files: Files, reports: seq<Report>)

  function Start(files: Files): Machine {
    Machine(SeekingBegin, "", [], [], [], false, files, [])
  }

  predicate IsBegin(line: string) { "*** Begin Patch" <= line }
  predicate IsAdd(line: string) { "*** Add File:" <= line }
  predicate IsUpdate(line: string) { "*** Update File:" <= line }
  predicate IsDelete(line: string) { "*** Delete File:" <= line }
  predicate IsEnd(line: string) { "*** End Patch" <= line }
  predicate IsEndOfFile(line: string) { "*** End of File" <= line }
  predicate IsMove(line: string) { "*** Move to:" <= line }
  predicate IsStars(line: string) { "***" <= line }
  predicate IsHunk(line: string) { "@@" <= line }

  function PathAfter(line: string, n: nat): string
    requires n <= |line|
  {
    TrimSpace(line[n..])
  }

  function Did(m: Machine, e: Effect): Machine {
    m.(files := e.files, reports := m.reports + [e.report])
  }

  /** `flushUpdate`; its condition parses as (file and old lines) or new lines. */
  function Flush(resolve: Resolver, m: Machine): Machine {
    if (m.file != "" && m.oldLines != []) || m.newLines != [] then
      Did(m, ApplyUpdate(resolve, m.files, m.file, m.oldLines, m.newLines))
        .(file := "", oldLines := [], newLines := [], inHunk := false)
    else m
  }

  /** Applies what is pending when a `***` line arrives. */
  function Close(resolve: Resolver, m: Machine): Machine {
    match m.mode
    case SeekingOp => Flush(resolve, m)
    case InAdd => Did(m, ApplyAdd(resolve, m.files, m.file, m.addLines))
    case InUpdate => Did(m, ApplyUpdate(resolve, m.files, m.file, m.oldLines, m.newLines))
    case _ => m
  }

  /** The operation a `***` line starts, once the pending one is closed. */
  function Open(resolve: Resolver, m: Machine, line: string): Machine {
    if IsAdd(line) then
      m.(file := PathAfter(line, 13), addLines := [], mode := InAdd)
    else if IsUpdate(line) then
      m.(file := PathAfter(line, 16), oldLines := [], newLines := [], inHunk := false, mode := InUpdate)
    else if IsDelete(line) then
      Did(m, ApplyDelete(resolve, m.files, PathAfter(line, 16))).(file := "", mode := SeekingOp)
    else if IsEnd(line) then m.(mode := Finished)
    else m
  }

  function UpdateLine(m: Machine, line: string): Machine {
    if m.inHunk then
      if "-" <= line then m.(oldLines := m.oldLines + [line[1..]])
      else if "+" <= line then m.(newLines := m.newLines + [line[1..]])
      else if TrimSpace(line) != "" then
        var context := if " " <= line then line[1..] else line;
        m.(oldLines := m.oldLines + [context], newLines := m.newLines + [context])
      else m
    else if " " <= line || TrimSpace(line) == "" then
      var context := if " " <= line then line[1..] else line;
      m.(oldLines := m.oldLines + [context], newLines := m.newLines + [context])
    else m
  }

  function Step(resolve: Resolver, m: Machine, line: string): Machine {
    match m.mode
    case SeekingBegin => if IsBegin(line) then m.(mode := SeekingOp) else m
    case SeekingOp =>
      if IsAdd(line) || IsUpdate(line) || IsDelete(line) || IsEnd(line)
      then Open(resolve, Close(resolve, m), line) else m
    case InAdd =>
      if IsStars(line) then Open(resolve, Close(resolve, m), line)
      else if "+" <= line then m.(addLines := m.addLines + [line[1..]])
      else if TrimSpace(line) != "" && !(" " <= line) then m.(addLines := m.addLines + [line])
      else m
    case InUpdate =>
      if IsHunk(line) then m.(inHunk := true)
      else if IsEndOfFile(line) then m
      else if IsMove(line) && m.inHunk then
        var c := Close(resolve, m);
        Did(c, ApplyMove(resolve, c.files, m.file, PathAfter(line, 12)))
          .(file := "", oldLines := [], newLines := [], inHunk := false, mode := SeekingOp)
      else if IsStars(line) then Open(resolve, Close(resolve, m), line)
      else UpdateLine(m, line)
    case Finished => m
  }

  const MAX_INDEX := 10000

  /** A line on which the loop continues before reaching the size check. */
  predicate SkipsCheck(m: Machine, line: string) {
    m.mode == InUpdate && (IsHunk(line) || IsStars(line))
  }

  datatype Outcome = Applied(files: Files, reports: seq<Report>) | TooLarge(files: Files)

  /** What is left pending at the end of the text. */
  function Finish(resolve: Resolver, m: Machine): Outcome {
    var c := if (m.mode == InAdd || m.mode == InUpdate) && m.file != "" then Close(resolve, m) else m;
    Applied(c.files, c.reports)
  }

  function RunLines(resolve: Resolver, m: Machine, lines: seq<string>, i: nat): Outcome
    decreases |lines|
  {
    if lines == [] then Finish(resolve, m)
    else
      var next := Step(resolve, m, lines[0]);
      if i > MAX_INDEX && !SkipsCheck(m, lines[0]) then TooLarge(next.files)
      else RunLines(resolve, next, lines[1..], i + 1)
  }

  /** strings.ReplaceAll(patch, "\r\n", "\n"). */
  function DropReturns(s: string): string
    decreases |s|
  {
    if s == "" then ""
    else if "\r\n" <= s then "\n" + DropReturns(s[2..])
    else [s[0]] + DropReturns(s[1..])
  }

  function RunPatch(resolve: Resolver, files: Files, patch: string): Outcome {
    RunLines(resolve, Start(files), Split(DropReturns(patch), '\n'), 0)
  }

  // ------------------------------------------------------------- the real loop

  /** One run of the tool: the variables of its loop and the workspace it changes. */
  class PatchRun {
    const resolve: Resolver
    var files: Files
    var reports: seq<Report>
    var mode: Mode
    var file: string
    var addLines: seq<string>
    var oldLines: seq<string>
    var newLines: seq<string>
    var inHunk: bool

    function View(): Machine
      reads this
    {
      Machine(mode, file, addLines, oldLines, newLines, inHunk, files, reports)
    }

    constructor (resolve: Resolver, files: Files)
      ensures View() == Start(files) && this.resolve == resolve
    {
      this.resolve, this.files := resolve, files;
      reports, mode, file, addLines, oldLines, newLines, inHunk := [], SeekingBegin, "", [], [], [], false;
    }

    method Do(e: Effect)
      modifies this`files, this`reports
      ensures View() == Did(old(View()), e)
    {
      files := e.files;
      reports := reports + [e.report];
    }

    method FlushUpdate()
      modifies this
      ensures View() == Flush(resolve, old(View()))
    {
      if (file != "" && |oldLines| > 0) || |newLines| > 0 {
        Do(ApplyUpdate(resolve, files, file, oldLines, newLines));
        file := "";
        oldLines := [];
        newLines := [];
        inHunk := false;
      }
    }

    method NewOperation(line: string)
      modifies this
      ensures View() == Open(resolve, old(View()), line)
    {
      if IsAdd(line) {
        file := PathAfter(line, 13);
        addLines := [];
        mode := InAdd;
      } else if IsUpdate(line) {
        file := PathAfter(line, 16);
        oldLines := [];
        newLines := [];
        inHunk := false;
        mode := InUpdate;
      } else if IsDelete(line) {
        file := PathAfter(line, 16);
        Do(ApplyDelete(resolve, files, file));
        file := "";
        mode := SeekingOp;
      } else if IsEnd(line) {
        mode := Finished;
      }
    }

    method OnLine(line: string) returns (continued: bool)
      modifies this
      ensures View() == Step(resolve, old(View()), line)
      ensures continued == SkipsCheck(old(View()), line)
    {
      hide IsAdd, IsUpdate, IsDelete, IsEnd, IsEndOfFile, IsMove, IsStars, IsHunk, IsBegin;
      hide PathAfter, TrimSpace, ApplyAdd, ApplyUpdate, ApplyMove, ApplyDelete;
      StarsFirst(line);
      continued := false;
      match mode {
        case SeekingBegin =>
          if IsBegin(line) { mode := SeekingOp; }
        case SeekingOp =>
          if IsAdd(line) || IsUpdate(line) || IsDelete(line) || IsEnd(line) {
            FlushUpdate();
            NewOperation(line);
          }
        case InAdd =>
          if IsStars(line) {
            Do(ApplyAdd(resolve, files, file, addLines));
            NewOperation(line);
          } else if "+" <= line {
            addLines := addLines + [line[1..]];
          } else if TrimSpace(line) != "" && !(" " <= line) {
            addLines := addLines + [line];
          }
        case InUpdate =>
          if IsHunk(line) {
            inHunk := true;
            return true;
          }
          if IsEndOfFile(line) {
            return true;
          }
          if IsMove(line) && inHunk {
            Do(ApplyUpdate(resolve, files, file, oldLines, newLines));
            Do(ApplyMove(resolve, files, file, PathAfter(line, 12)));
            file := "";
            oldLines := [];
            newLines := [];
            inHunk := false;
            mode := SeekingOp;
            return true;
          }
          if IsStars(line) {
            Do(ApplyUpdate(resolve, files, file, oldLines, newLines));
            NewOperation(line);
            return true;
          }
          InsideUpdate(line);
        case Finished =>
      }
    }

    method InsideUpdate(line: string)
      modifies this`oldLines, this`newLines
      ensures View() == UpdateLine(old(View()), line)
    {
      hide TrimSpace;
      if inHunk {
        if "-" <= line {
          oldLines := oldLines + [line[1..]];
        } else if "+" <= line {
          newLines := newLines + [line[1..]];
        } else if TrimSpace(line) != "" {
          var context := if " " <= line then line[1..] else line;
          oldLines := oldLines + [context];
          newLines := newLines + [context];
        }
      } else if " " <= line || TrimSpace(line) == "" {
        var context := if " " <= line then line[1..] else line;
        oldLines := oldLines + [context];
        newLines := newLines + [context];
      }
    }

    /** `parseAndApplyPatch`: when the patch is too large, what was applied stays. */
    method ApplyPatch(patch: string) returns (ok: bool)
      requires View() == Start(files)
      modifies this
      ensures var r := RunPatch(resolve, old(files), patch);
        files == r.files && (ok <==> r.Applied?) && (ok ==> reports == r.reports)
    {
      hide Step, Finish, Split, DropReturns, SkipsCheck;
      var lines := Split(DropReturns(patch), '\n');
      ghost var whole := RunPatch(resolve, files, patch);
      var i := 0;
      while i < |lines|
        invariant 0 <= i <= |lines|
        invariant whole == RunLines(resolve, View(), lines[i..], i)
      {
        assert lines[i..][0] == lines[i] && lines[i..][1..] == lines[i + 1..];
        var continued := OnLine(lines[i]);
        if !continued && i > MAX_INDEX {
          return false;
        }
        i := i + 1;
      }
      assert lines[i..] == [];
      Remaining();
      return true;
    }

    /** Applies what the text left pending. */
    method Remaining()
      modifies this`files, this`reports
      ensures Applied(files, reports) == Finish(resolve, old(View()))
    {
      if mode == InAdd && file != "" {
        Do(ApplyAdd(resolve, files, file, addLines));
      } else if mode == InUpdate && file != "" {
        Do(ApplyUpdate(resolve, files, file, oldLines, newLines));
      }
    }
  }

  lemma StarsFirst(line: string)
    ensures IsEndOfFile(line) || IsMove(line) ==> IsStars(line)
    ensures IsMove(line) ==> |line| >= 12
  {}

  /** `applyPartialUpdate` with its loop over the old lines. */
  method ApplyPartialUpdate(content: string, oldLines: seq<string>, newLines: seq<string>) returns (modified: string)
    ensures modified == PartialUpdate(content, oldLines, newLines)
  {
    hide TrimSpace, Split, Join, Find;
    modified := content;
    var i := 0;
    while i < |oldLines|
      invariant 0 <= i <= |oldLines|
      invariant modified == PartialUpdate(content, oldLines[..i], newLines)
    {
      assert oldLines[..i + 1][..i] == oldLines[..i];
      var needle := TrimSpace(oldLines[i]);
      if needle != "" {
        var lines := Split(modified, '\n');
        var j := 0;
        while j < |lines| && Find(lines[j], needle).None?
          invariant 0 <= j <= |lines|
          invariant FirstLineWith(lines, needle, 0) == FirstLineWith(lines, needle, j)
        {
          j := j + 1;
        }
        if j < |lines| && i < |newLines| {
          lines := lines[j := newLines[i]];
          modified := Join(lines, '\n');
        }
      }
      i := i + 1;
    }
    assert oldLines[..i] == oldLines;
  }
}
