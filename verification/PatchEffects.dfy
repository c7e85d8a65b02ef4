/** What a patch does to the files, in explicit maps. */
module PatchEffects {
  import opened Options
  import opened Sequences
  import opened Strings
  import opened Patch
  import opened PatchMeaning
  import PatchText

  /** The files are those of before but for one path. */
  ghost predicate OnlyAt(before: Files, after: Files, path: string) {
    forall p :: p != path ==> (p in after <==> p in before) && (p in after ==> after[p] == before[p])
  }

  // ------------------------------------------------------------- one operation

  /** An add: a free path gets the joined lines, a taken one keeps what it has. */
  ghost predicate Adds(resolve: Resolver, s: State, path: string, lines: seq<string>, d: State) {
    match resolve(path)
    case None => d.files == s.files && d.reports == s.reports + [Report(path, Failed)]
    case Some(abs) =>
      && OnlyAt(s.files, d.files, abs) && abs in d.files
      && (abs in s.files ==> d.files[abs] == s.files[abs] && d.reports == s.reports + [Report(abs, Skipped)])
      && (abs !in s.files ==> d.reports == s.reports + [Report(abs, Added)])
      && (abs !in s.files ==> d.files[abs] == if lines == [] then "" else Join(lines, '\n'))
  }

  /** A delete: afterwards the path is free. */
  ghost predicate Deletes(resolve: Resolver, s: State, path: string, d: State) {
    match resolve(path)
    case None => d.files == s.files && d.reports == s.reports + [Report(path, Failed)]
    case Some(abs) =>
      && OnlyAt(s.files, d.files, abs) && abs !in d.files
      && d.reports == s.reports + [Report(abs, if abs in s.files then Deleted else Skipped)]
  }

  /** An update: an existing file gets its modified content. */
  ghost predicate Updates(resolve: Resolver, s: State, path: string, hunk: seq<HunkLine>, d: State) {
    match resolve(path)
    case None => d.files == s.files && d.reports == s.reports + [Report(path, Failed)]
    case Some(abs) =>
      if abs !in s.files then d.files == s.files && d.reports == s.reports + [Report(path, Failed)]
      else
        var content := Modified(s.files[abs], OldOf(hunk), NewOf(hunk));
        && OnlyAt(s.files, d.files, abs) && abs in d.files && d.files[abs] == content
        && d.reports == s.reports + [Report(abs, if content == s.files[abs] then Skipped else Updated)]
  }

  /** A move: the target holds what the source held, and the source is free. */
  ghost predicate Moves(resolve: Resolver, s: State, path: string, to: string, d: State) {
    if resolve(path).None? then d.files == s.files && d.reports == s.reports + [Report(path, Failed)]
    else if resolve(to).None? then d.files == s.files && d.reports == s.reports + [Report(to, Failed)]
    else
      var from, target := resolve(path).value, resolve(to).value;
      if from !in s.files then d.files == s.files && d.reports == s.reports + [Report(path, Failed)]
      else
        && (from != target ==> from !in d.files)
        && target in d.files && d.files[target] == s.files[from]
        && (forall p :: p != from && p != target ==>
              (p in d.files <==> p in s.files) && (p in d.files ==> d.files[p] == s.files[p]))
        && d.reports == s.reports + [Report(from, Moved)]
  }

  /** What an operation means, without the functions that carry it out. */
  ghost predicate Means(resolve: Resolver, s: State, op: Op, d: State) {
    match op
    case Add(path, lines) => Adds(resolve, s, path, lines, d)
    case Update(path, hunk) => Updates(resolve, s, path, hunk, d)
    case Delete(path) => Deletes(resolve, s, path, d)
    case UpdateMove(path, hunk, to) => exists u :: Updates(resolve, s, path, hunk, u) && Moves(resolve, u, path, to, d)
  }

  lemma OpMeans(resolve: Resolver, s: State, op: Op)
    ensures Means(resolve, s, op, ApplyOp(resolve, s, op))
  {
    hide Modified, OldOf, NewOf;
    if op.UpdateMove? {
      var u := Done(s, ApplyUpdate(resolve, s.files, op.path, OldOf(op.hunk), NewOf(op.hunk)));
      assert Updates(resolve, s, op.path, op.hunk, u);
      assert Moves(resolve, u, op.path, op.to, ApplyOp(resolve, s, op));
    }
  }

  // ------------------------------------------------------------ a whole patch

  /** The states between the operations of a patch. */
  ghost predicate Chain(resolve: Resolver, states: seq<State>, ops: seq<Op>) {
    && |states| == |ops| + 1
    && forall i :: 0 <= i < |ops| ==> Means(resolve, states[i], ops[i], states[i + 1])
  }

  lemma {:induction false} OpsChain(resolve: Resolver, s: State, ops: seq<Op>) returns (states: seq<State>)
    ensures Chain(resolve, states, ops) && states[0] == s && states[|ops|] == ApplyOps(resolve, s, ops)
    decreases |ops|
  {
    hide Means, ApplyOp;
    states := [s];
    if ops != [] {
      OpMeans(resolve, s, ops[0]);
      var rest := OpsChain(resolve, ApplyOp(resolve, s, ops[0]), ops[1..]);
      states := [s] + rest;
      forall i | 0 <= i < |ops| ensures Means(resolve, states[i], ops[i], states[i + 1]) {
        if i > 0 {
          assert ops[1..][i - 1] == ops[i] && states[i] == rest[i - 1] && states[i + 1] == rest[i];
        }
      }
    }
  }

  /** Running a printed patch takes the files through its operations one by one, each
    doing what it means. */
  lemma PatchMeans(resolve: Resolver, files: Files, ops: seq<Op>) returns (states: seq<State>)
    requires AllPrintable(ops) && NotTheWorkingDirectory(resolve, files, ops)
    requires |PatchLines(ops)| <= MAX_INDEX + 1
    ensures Chain(resolve, states, ops) && states[0] == State(files, [])
    ensures RunPatch(resolve, files, PrintPatch(ops)).Applied?
    ensures RunPatch(resolve, files, PrintPatch(ops)).files == states[|ops|].files
    ensures !PatchText.DeletesAfterUpdate(ops) ==>
              RunPatch(resolve, files, PrintPatch(ops)).reports == states[|ops|].reports
  {
    hide *;
    states := OpsChain(resolve, State(files, []), ops);
    PatchText.PrintedPatchApplies(resolve, files, ops);
    PatchText.ReportsAreTheFolds(resolve, files, ops);
    ChainEnds(resolve, states, ops);
  }

  lemma ChainEnds(resolve: Resolver, states: seq<State>, ops: seq<Op>)
    requires Chain(resolve, states, ops)
    ensures |states| == |ops| + 1
  {}

  /** Whether an operation names a path. */
  predicate Names(resolve: Resolver, op: Op, abs: string) {
    resolve(op.path) == Some(abs) || (op.UpdateMove? && resolve(op.to) == Some(abs))
  }

  /** A path that no operation of the patch names keeps what it has. */
  lemma {:induction false} OtherPathsStay(resolve: Resolver, s: State, ops: seq<Op>, abs: string)
    requires forall i :: 0 <= i < |ops| ==> !Names(resolve, ops[i], abs)
    ensures var d := ApplyOps(resolve, s, ops);
      (abs in d.files <==> abs in s.files) && (abs in d.files ==> d.files[abs] == s.files[abs])
    decreases |ops|
  {
    if ops != [] {
      OneOtherStays(resolve, s, ops[0], abs);
      OtherPathsStay(resolve, ApplyOp(resolve, s, ops[0]), ops[1..], abs);
    }
  }

  lemma OneOtherStays(resolve: Resolver, s: State, op: Op, abs: string)
    requires !Names(resolve, op, abs)
    ensures var d := ApplyOp(resolve, s, op);
      (abs in d.files <==> abs in s.files) && (abs in d.files ==> d.files[abs] == s.files[abs])
  {
    hide Modified, OldOf, NewOf;
  }

  // ---------------------------------------------------------- an update's content

  /** New lines alone go behind the text. */
  lemma UpdateAppends(content: string, newLines: seq<string>)
    ensures Modified(content, [], newLines) == if newLines == [] then content else content + "\n" + Join(newLines, '\n')
  {}

  /** If the old block does not occur, the lines are replaced one by one. */
  lemma UpdateFallsBack(content: string, oldLines: seq<string>, newLines: seq<string>)
    requires oldLines != [] && forall i :: !OccursAt(content, Join(oldLines, '\n'), i)
    ensures Modified(content, oldLines, newLines) == PartialUpdate(content, oldLines, newLines)
  {
    FindIsFirst(content, Join(oldLines, '\n'));
  }

  /** One round of the fallback: the first line that contains the trimmed old line, if
    it is not blank, becomes the new line of the same position, if there is one. */
  lemma PartialStepReplacesFirst(content: string, oldLine: string, i: nat, newLines: seq<string>, j: nat)
    requires var lines := Split(content, '\n');
      && j < |lines| && Find(lines[j], TrimSpace(oldLine)).Some? && TrimSpace(oldLine) != ""
      && forall k :: 0 <= k < j ==> Find(lines[k], TrimSpace(oldLine)).None?
    ensures PartialStep(content, oldLine, i, newLines)
         == if i < |newLines| then Join(Split(content, '\n')[j := newLines[i]], '\n') else content
  {
    hide Find, TrimSpace, Split, Join;
    var lines := Split(content, '\n');
    var r := FirstLineWith(lines, TrimSpace(oldLine), 0);
    assert r == Some(j);
  }

  lemma PartialStepFindsNothing(content: string, oldLine: string, i: nat, newLines: seq<string>)
    requires TrimSpace(oldLine) == "" || FirstLineWith(Split(content, '\n'), TrimSpace(oldLine), 0).None?
    ensures PartialStep(content, oldLine, i, newLines) == content
  {
    hide Find, TrimSpace, Split, Join;
  }
}
