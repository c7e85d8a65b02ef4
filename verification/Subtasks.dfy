/** Split tasks: the subtask rows, the parent's derived counter, and the loop that
  runs the subtasks. */
module Subtasks {
  import opened Options
  import opened Sequences

  datatype Status = Pending | Running | Completed | Failed

  /** A row of user_subtasks; its index_num is its position. */
  datatype Subtask = Subtask(description: string, status: Status, result: string)

  datatype Task = Task(total: nat, completed: nat, status: Status, result: string)

  datatype Tables = Tables(task: Task, subs: seq<Subtask>)

  // ---------------------------------------------------------------- statements

  function CreateUserTask(descriptions: seq<string>): Tables {
    Tables(Task(|descriptions|, 0, Pending, ""),
           seq(|descriptions|, i requires 0 <= i < |descriptions| => Subtask(descriptions[i], Pending, "")))
  }

  function NextPending(subs: seq<Subtask>, from: nat): (r: Option<nat>)
    requires from <= |subs|
    ensures r.Some? ==> from <= r.value < |subs| && subs[r.value].status == Pending
    ensures forall i :: from <= i < (if r.Some? then r.value else |subs|) ==> subs[i].status != Pending
    decreases |subs| - from
  {
    if from == |subs| then None
    else if subs[from].status == Pending then Some(from)
    else NextPending(subs, from + 1)
  }

  function StartSubtask(t: Tables, i: nat): Tables
    requires i < |t.subs|
  {
    t.(subs := t.subs[i := t.subs[i].(status := Running)])
  }

  /** The transaction of `UpdateSubtaskStatus`. */
  function UpdateSubtaskStatus(t: Tables, i: nat, status: Status, result: string): Tables
    requires i < |t.subs|
  {
    var subs := t.subs[i := t.subs[i].(status := status, result := result)];
    var task :=
      if status == Completed then t.task.(completed := t.task.completed + 1)
      else if status == Running && t.task.status == Pending then t.task.(status := Running)
      else t.task;
    Tables(if task.completed >= task.total then task.(status := Completed) else task, subs)
  }

  // ---------------------------------------------------------------- the counter

  function CountOf(subs: seq<Subtask>, status: Status): nat {
    if subs == [] then 0
    else CountOf(subs[..|subs| - 1], status) + if subs[|subs| - 1].status == status then 1 else 0
  }

  lemma {:induction false} CountUpdate(subs: seq<Subtask>, i: nat, s: Subtask, status: Status)
    requires i < |subs|
    ensures CountOf(subs[i := s], status)
         == CountOf(subs, status) - (if subs[i].status == status then 1 else 0) + (if s.status == status then 1 else 0)
  {
    var n := |subs| - 1;
    if i == n {
      assert subs[i := s][..n] == subs[..n];
    } else {
      CountUpdate(subs[..n], i, s, status);
      assert subs[i := s][..n] == subs[..n][i := s];
    }
  }

  lemma {:induction false} CountBound(subs: seq<Subtask>, status: Status)
    ensures CountOf(subs, status) <= |subs|
    ensures CountOf(subs, status) == |subs| <==> forall i :: 0 <= i < |subs| ==> subs[i].status == status
    ensures CountOf(subs, status) == 0 <==> forall i :: 0 <= i < |subs| ==> subs[i].status != status
  {
    if subs != [] {
      var n := |subs| - 1;
      CountBound(subs[..n], status);
      assert subs == subs[..n] + [subs[n]];
    }
  }

  ghost predicate CounterRight(t: Tables) {
    t.task.completed == CountOf(t.subs, Completed) && t.task.total == |t.subs|
  }

  /** The transaction keeps the counter derived exactly when the subtask was not
    completed before: completing twice counts twice. */
  lemma CounterKeptIff(t: Tables, i: nat, status: Status, result: string)
    requires CounterRight(t) && i < |t.subs|
    ensures CounterRight(UpdateSubtaskStatus(t, i, status, result)) <==> t.subs[i].status != Completed
  {
    CountUpdate(t.subs, i, t.subs[i].(status := status, result := result), Completed);
  }

  // -------------------------------------------------------------------- the loop

  /** One round of the loop on the i-th subtask; `run` is the language model. */
  function RunOne(t: Tables, i: nat, run: string -> string): Tables
    requires i < |t.subs|
  {
    var started := UpdateSubtaskStatus(StartSubtask(t, i), i, Running, "");
    UpdateSubtaskStatus(started, i, Completed, run(t.subs[i].description))
  }

  lemma RunOneIs(t: Tables, i: nat, run: string -> string)
    requires i < |t.subs| && t.subs[i].status == Pending
    ensures var d := RunOne(t, i, run);
      && d.subs == t.subs[i := Subtask(t.subs[i].description, Completed, run(t.subs[i].description))]
      && d.task.completed == t.task.completed + 1 && d.task.total == t.task.total && d.task.result == t.task.result
      && CountOf(d.subs, Pending) == CountOf(t.subs, Pending) - 1
      && CountOf(d.subs, Completed) == CountOf(t.subs, Completed) + 1
      && (d.task.status == Completed <==>
            t.task.completed + 1 >= t.task.total || t.task.status == Completed)
      && (d.task.status == t.task.status || d.task.status == Running || d.task.status == Completed)
  {
    var sub := Subtask(t.subs[i].description, Completed, run(t.subs[i].description));
    CountUpdate(t.subs, i, sub, Pending);
    CountUpdate(t.subs, i, sub, Completed);
    hide CountOf;
    assert RunOne(t, i, run).subs == t.subs[i := sub];
  }

  /** The loop up to the point where nothing is pending. */
  function RunAll(t: Tables, run: string -> string): Tables
    decreases CountOf(t.subs, Pending)
  {
    match NextPending(t.subs, 0)
    case None => t
    case Some(i) =>
      RunOneIs(t, i, run);
      RunAll(RunOne(t, i, run), run)
  }

  ghost predicate StatusRight(t: Tables) {
    t.task.status == Completed <==> t.task.completed == t.task.total && t.task.total > 0
  }

  /** The loop after some rounds. */
  function Rounds(t: Tables, run: string -> string, n: nat): Tables {
    if n == 0 then t
    else
      var before := Rounds(t, run, n - 1);
      match NextPending(before.subs, 0)
      case None => before
      case Some(i) => RunOne(before, i, run)
  }

  /** The three statements of a round leave counter and status derived. */
  lemma RoundKeeps(t: Tables, i: nat, run: string -> string)
    requires CounterRight(t) && StatusRight(t) && i < |t.subs| && t.subs[i].status == Pending
    ensures var a := StartSubtask(t, i); var b := UpdateSubtaskStatus(a, i, Running, ""); var c := RunOne(t, i, run);
      && CounterRight(a) && StatusRight(a) && CounterRight(b) && StatusRight(b) && CounterRight(c) && StatusRight(c)
  {
    CountUpdate(t.subs, i, t.subs[i].(status := Running), Completed);
    CountBound(t.subs, Completed);
    assert CountOf(t.subs, Completed) < |t.subs|;
    var a := StartSubtask(t, i);
    CountUpdate(a.subs, i, a.subs[i].(result := ""), Completed);
    RunOneIs(t, i, run);
    hide CountOf;
    assert a.subs[i := a.subs[i].(status := Running, result := "")] == UpdateSubtaskStatus(a, i, Running, "").subs;
  }

  /** In every state that the loop passes through, inside a round too, the counter is
    the number of completed subtasks, and the task is completed exactly when the
    counter has reached a positive total. */
  lemma {:induction false} DerivedThroughout(t: Tables, run: string -> string, n: nat)
    requires CounterRight(t) && StatusRight(t)
    ensures var d := Rounds(t, run, n); var next := NextPending(d.subs, 0);
      && CounterRight(d) && StatusRight(d)
      && (next.Some? ==>
            var a := StartSubtask(d, next.value); var b := UpdateSubtaskStatus(a, next.value, Running, "");
            CounterRight(a) && StatusRight(a) && CounterRight(b) && StatusRight(b))
  {
    hide CounterRight, StatusRight, CountOf, RunOne, StartSubtask, UpdateSubtaskStatus;
    if n > 0 {
      DerivedThroughout(t, run, n - 1);
      var before := Rounds(t, run, n - 1);
      var last := NextPending(before.subs, 0);
      if last.Some? { RoundKeeps(before, last.value, run); }
    }
    var d := Rounds(t, run, n);
    var next := NextPending(d.subs, 0);
    if next.Some? { RoundKeeps(d, next.value, run); }
  }

  /** The loop ends after as many rounds as there are pending subtasks. */
  lemma {:induction false} RoundsEnd(t: Tables, run: string -> string, n: nat)
    requires n <= CountOf(t.subs, Pending)
    ensures CountOf(Rounds(t, run, n).subs, Pending) == CountOf(t.subs, Pending) - n
    ensures RunAll(Rounds(t, run, n), run) == RunAll(t, run)
    ensures n == CountOf(t.subs, Pending) ==> Rounds(t, run, n) == RunAll(t, run)
  {
    if n > 0 {
      RoundsEnd(t, run, n - 1);
      var before := Rounds(t, run, n - 1);
      CountBound(before.subs, Pending);
      RunOneIs(before, NextPending(before.subs, 0).value, run);
    }
    CountBound(Rounds(t, run, n).subs, Pending);
  }

  /** The loop completes every pending subtask once, each with its own result, and
    touches no other. */
  lemma {:induction false} RunAllIs(t: Tables, run: string -> string)
    requires CounterRight(t) && StatusRight(t)
    ensures var d := RunAll(t, run);
      && CounterRight(d) && StatusRight(d)
      && |d.subs| == |t.subs|
      && forall i :: 0 <= i < |t.subs| ==>
           d.subs[i] == if t.subs[i].status == Pending
                        then Subtask(t.subs[i].description, Completed, run(t.subs[i].description)) else t.subs[i]
    decreases CountOf(t.subs, Pending)
  {
    var r := NextPending(t.subs, 0);
    if r.Some? {
      var i := r.value;
      RunOneIs(t, i, run);
      CountBound(t.subs, Completed);
      assert CountOf(t.subs, Completed) < |t.subs|;
      hide RunOne, CountOf;
      RunAllIs(RunOne(t, i, run), run);
    }
  }

  /** A freshly split task: every subtask is completed, and so is the task if it
    has any. */
  lemma SplitTaskCompletes(descriptions: seq<string>, run: string -> string)
    ensures var d := RunAll(CreateUserTask(descriptions), run);
      && d.task.completed == d.task.total == |descriptions|
      && (d.task.status == Completed <==> descriptions != [])
      && |d.subs| == |descriptions|
      && forall i :: 0 <= i < |descriptions| ==> d.subs[i] == Subtask(descriptions[i], Completed, run(descriptions[i]))
  {
    var t := CreateUserTask(descriptions);
    CountBound(t.subs, Completed);
    CountBound(t.subs, Pending);
    hide CountOf, RunAll;
    RunAllIs(t, run);
    var d := RunAll(t, run);
    CountBound(d.subs, Completed);
  }

  /** The first n subtasks are done, each with its own result, the others wait, and the
    task has begun with its first and ended with its last. */
  ghost predicate Done(d: Tables, descriptions: seq<string>, run: string -> string, n: nat) {
    && |d.subs| == |descriptions|
    && d.task == Task(|d.subs|, n, if n == 0 then Pending else if n < |d.subs| then Running else Completed, "")
    && (forall i :: 0 <= i < |d.subs| ==>
          var text := descriptions[i];
          d.subs[i] == if i < n then Subtask(text, Completed, run(text)) else Subtask(text, Pending, ""))
  }

  /** A round takes the n-th subtask; while it runs, it and the task are marked running. */
  lemma RoundIs(d: Tables, descriptions: seq<string>, run: string -> string, n: nat)
    requires Done(d, descriptions, run, n) && n < |descriptions|
    ensures NextPending(d.subs, 0) == Some(n)
    ensures var b := UpdateSubtaskStatus(StartSubtask(d, n), n, Running, "");
      && b.task == Task(|descriptions|, n, Running, "")
      && b.subs == d.subs[n := Subtask(descriptions[n], Running, "")]
    ensures Done(RunOne(d, n, run), descriptions, run, n + 1)
  {
    hide CountOf, NextPending;
    assert d.subs[n].status == Pending;
    var r := NextPending(d.subs, 0);
    assert r.Some? && r.value <= n;
    assert r.value >= n;
    var a := StartSubtask(d, n);
    assert a.subs[n := a.subs[n].(status := Running, result := "")]
        == d.subs[n := Subtask(descriptions[n], Running, "")];
    RunOneIs(d, n, run);
  }

  /** A freshly split task after n rounds, and in the middle of the next one. */
  lemma {:induction false} AfterRounds(descriptions: seq<string>, run: string -> string, n: nat)
    requires n <= |descriptions|
    ensures var d := Rounds(CreateUserTask(descriptions), run, n);
      && Done(d, descriptions, run, n)
      && (n < |descriptions| ==>
            && NextPending(d.subs, 0) == Some(n)
            && var b := UpdateSubtaskStatus(StartSubtask(d, n), n, Running, "");
               b == Tables(Task(|descriptions|, n, Running, ""), d.subs[n := Subtask(descriptions[n], Running, "")]))
  {
    hide Done, RunOne, NextPending, UpdateSubtaskStatus, StartSubtask, CreateUserTask;
    if n == 0 {
      NoneDone(descriptions, run);
    } else {
      AfterRounds(descriptions, run, n - 1);
      RoundIs(Rounds(CreateUserTask(descriptions), run, n - 1), descriptions, run, n - 1);
    }
    if n < |descriptions| {
      RoundIs(Rounds(CreateUserTask(descriptions), run, n), descriptions, run, n);
    }
  }

  lemma NoneDone(descriptions: seq<string>, run: string -> string)
    ensures Done(CreateUserTask(descriptions), descriptions, run, 0)
  {}

  /** The descriptions the loop sends to the model, in the order it sends them. */
  function Prompts(t: Tables, run: string -> string): seq<string>
    decreases CountOf(t.subs, Pending)
  {
    match NextPending(t.subs, 0)
    case None => []
    case Some(i) =>
      RunOneIs(t, i, run);
      [t.subs[i].description] + Prompts(RunOne(t, i, run), run)
  }

  function PendingFrom(subs: seq<Subtask>, from: nat): seq<string>
    requires from <= |subs|
    decreases |subs| - from
  {
    if from == |subs| then []
    else if subs[from].status == Pending then [subs[from].description] + PendingFrom(subs, from + 1)
    else PendingFrom(subs, from + 1)
  }

  lemma {:induction false} SkipTo(subs: seq<Subtask>, from: nat, i: nat)
    requires from <= i <= |subs| && forall k :: from <= k < i ==> subs[k].status != Pending
    ensures PendingFrom(subs, from) == PendingFrom(subs, i)
    decreases i - from
  {
    if from < i {
      SkipTo(subs, from + 1, i);
    }
  }

  lemma {:induction false} SameFrom(a: seq<Subtask>, b: seq<Subtask>, from: nat)
    requires from <= |a| == |b| && forall k :: from <= k < |a| ==> a[k] == b[k]
    ensures PendingFrom(a, from) == PendingFrom(b, from)
    decreases |a| - from
  {
    if from < |a| {
      SameFrom(a, b, from + 1);
    }
  }

  /** Each pending subtask is sent once, in index order. */
  lemma {:induction false} PromptsInOrder(t: Tables, run: string -> string)
    ensures Prompts(t, run) == PendingFrom(t.subs, 0)
    decreases CountOf(t.subs, Pending)
  {
    var r := NextPending(t.subs, 0);
    if r.Some? {
      var i := r.value;
      RunOneIs(t, i, run);
      var d := RunOne(t, i, run);
      hide RunOne, CountOf;
      SkipTo(t.subs, 0, i);
      PromptsInOrder(d, run);
      SkipTo(d.subs, 0, i + 1);
      SameFrom(t.subs, d.subs, i + 1);
    } else {
      SkipTo(t.subs, 0, |t.subs|);
    }
  }

  // ------------------------------------------------------------------- the method

  class TaskStore {
    var tables: Tables
    /** What has been sent to the model. */
    var sent: seq<string>

    constructor (descriptions: seq<string>)
      ensures tables == CreateUserTask(descriptions) && sent == []
    {
      tables, sent := CreateUserTask(descriptions), [];
    }

    /** `ExecuteSubtasks`.  When nothing is pending the query answers with an error
      instead of no row, so the loop always leaves through its error branch: the
      collected results are dropped and the task is marked failed. */
    method ExecuteSubtasks(run: string -> string) returns (ok: bool, combined: seq<string>)
      modifies this
      ensures var done := RunAll(old(tables), run);
        tables == done.(task := done.task.(status := Failed))
      ensures sent == old(sent) + PendingFrom(old(tables).subs, 0)
      ensures !ok && combined == []
    {
      ghost var whole, prompts := RunAll(tables, run), Prompts(tables, run);
      PromptsInOrder(tables, run);
      ghost var start := sent;
      assert start + prompts == sent + Prompts(tables, run);
      var results := [];
      while true
        invariant whole == RunAll(tables, run)
        invariant start + prompts == sent + Prompts(tables, run)
        decreases CountOf(tables.subs, Pending)
      {
        var next := NextPending(tables.subs, 0);
        if next.None? {
          tables := tables.(task := tables.task.(status := Failed));
          return false, [];
        }
        var i := next.value;
        var description := tables.subs[i].description;
        ghost var before := tables;
        RunOneIs(before, i, run);
        Assoc(sent, [description], Prompts(RunOne(before, i, run), run));
        hide RunOne, CountOf, NextPending, PendingFrom;
        assert Prompts(before, run) == [description] + Prompts(RunOne(before, i, run), run);
        assert whole == RunAll(RunOne(before, i, run), run);
        hide RunAll, Prompts;
        tables := StartSubtask(tables, i);
        tables := UpdateSubtaskStatus(tables, i, Running, "");
        sent := sent + [description];
        var result := run(description);
        tables := UpdateSubtaskStatus(tables, i, Completed, result);
        assert tables == RunOne(before, i, run) by { RunOneUnfolds(before, i, run); }
        results := results + [result];
      }
    }
  }

  lemma RunOneUnfolds(t: Tables, i: nat, run: string -> string)
    requires i < |t.subs|
    ensures RunOne(t, i, run)
         == UpdateSubtaskStatus(UpdateSubtaskStatus(StartSubtask(t, i), i, Running, ""), i, Completed,
                                run(t.subs[i].description))
  {}
}
