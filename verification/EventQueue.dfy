/** The event queue: one heartbeat worker that peeks, claims and processes, while
  events are added and background completions land at any moment. */
module EventQueue {

  datatype Status = Pending | Processing | ProcessingLLM | Completed | CompletedWithErrors | Cancelled

  /** How far an event has come. */
  function Rank(s: Status): nat {
    match s
    case Pending => 0
    case Processing => 1
    case ProcessingLLM => 2
    case _ => 3
  }

  datatype Event = Event(priority: int, created: int, status: Status)

  type Table = map<nat, Event>

  /** The order of ORDER BY priority, created_at; ties are left to the database. */
  predicate NotAfter(a: Event, b: Event) {
    a.priority < b.priority || (a.priority == b.priority && a.created <= b.created)
  }

  /** A row that `SELECT ... WHERE status = st ORDER BY ... LIMIT 1` may answer. */
  predicate Answers(rows: Table, st: Status, id: nat) {
    && id in rows && rows[id].status == st
    && forall other :: other in rows && rows[other].status == st ==> NotAfter(rows[id], rows[other])
  }

  function SetStatus(rows: Table, id: nat, st: Status): Table
    requires id in rows
  {
    rows[id := rows[id].(status := st)]
  }

  /** A claim updates one row that the first query may answer, then reads one that
    the second may answer. */
  predicate ClaimMay(rows: Table, updated: nat, selected: nat) {
    Answers(rows, Pending, updated) && Answers(SetStatus(rows, updated, Processing), Processing, selected)
  }

  // ------------------------------------------------------- when a claim is right

  /** The row read back is the row updated, whatever the ties, exactly when every
    row already in processing comes strictly after it. */
  lemma ClaimIsExactIff(rows: Table, updated: nat)
    requires Answers(rows, Pending, updated)
    ensures (forall selected: nat :: ClaimMay(rows, updated, selected) ==> selected == updated)
       <==> (forall p :: p in rows && rows[p].status == Processing ==> !NotAfter(rows[p], rows[updated]))
  {
    var after := SetStatus(rows, updated, Processing);
    if p :| p in rows && rows[p].status == Processing && NotAfter(rows[p], rows[updated]) {
      var first := LeastOf(after, Processing, p);
      assert NotAfter(after[first], after[p]);
      if first == updated {
        assert NotAfter(rows[updated], rows[p]);
        assert Answers(after, Processing, p) by {
          forall other | other in after && after[other].status == Processing ensures NotAfter(after[p], after[other]) {
            assert NotAfter(after[first], after[other]);
          }
        }
        assert ClaimMay(rows, updated, p);
      } else {
        assert ClaimMay(rows, updated, first);
      }
    } else {
      forall selected: nat | ClaimMay(rows, updated, selected) ensures selected == updated {
        assert NotAfter(after[selected], after[updated]);
      }
    }
  }

  /** With something in a status there is a least one. */
  lemma LeastOf(rows: Table, st: Status, some: nat) returns (least: nat)
    requires some in rows && rows[some].status == st
    ensures Answers(rows, st, least)
  {
    var ids := set id | id in rows && rows[id].status == st;
    least := LeastIn(rows, ids, some);
  }

  lemma {:induction false} LeastIn(rows: Table, ids: set<nat>, some: nat) returns (least: nat)
    requires some in ids && forall id :: id in ids ==> id in rows
    ensures least in ids && forall id :: id in ids ==> NotAfter(rows[least], rows[id])
    decreases |ids|
  {
    least := some;
    var rest := ids - {some};
    if other: nat :| other in rest {
      var l: nat := LeastIn(rows, rest, other);
      least := if NotAfter(rows[l], rows[some]) then l else some;
    }
  }

  // ------------------------------------------------------------------- the system

  datatype Worker = Idle | Peeked | Claimed(id: nat, priority: int)

  /** `claims` lists the ids handed out, `background` the completions under way. */
  datatype System = System(rows: Table, nextId: nat, worker: Worker, background: set<nat>, claims: seq<nat>)

  datatype Move =
    | AddEvent(priority: int, created: int)
    | Peek(id: nat)
    | Claim(updated: nat, selected: nat)
    | Finish(failed: bool, inBackground: bool)
    | BackgroundDone(id: nat, st: Status)
    | ClearOld(ids: set<nat>)

  /** `shouldProcessEvent` with nothing in progress. */
  predicate ShouldProcess(e: Event) { 0 <= e.priority <= 3 }

  /** Whether the move can happen now; Peek and Claim carry the database's answers. */
  predicate Enabled(s: System, m: Move) {
    match m
    case AddEvent(_, _) => true
    case Peek(id) => s.worker.Idle? && Answers(s.rows, Pending, id) && ShouldProcess(s.rows[id])
    case Claim(updated, selected) => s.worker.Peeked? && ClaimMay(s.rows, updated, selected)
    case Finish(_, _) => s.worker.Claimed?
    case BackgroundDone(id, st) => id in s.background && Rank(st) == 3
    case ClearOld(ids) =>
      s.worker.Idle? && forall id :: id in ids ==> id in s.rows && s.rows[id].status == Completed
  }

  /** What `processEvent` leaves an event as. */
  function Processed(priority: int, failed: bool, inBackground: bool): Status {
    if (priority == 2 || priority == 3) && inBackground then ProcessingLLM
    else if (priority == 0 || priority == 1) && failed then CompletedWithErrors
    else Completed
  }

  function Step(s: System, m: Move): System {
    if !Enabled(s, m) then s
    else
      match m
      case AddEvent(priority, created) =>
        s.(rows := s.rows[s.nextId := Event(priority, created, Pending)], nextId := s.nextId + 1)
      case Peek(_) => s.(worker := Peeked)
      case Claim(updated, selected) =>
        var rows := SetStatus(s.rows, updated, Processing);
        s.(rows := rows, worker := Claimed(selected, rows[selected].priority), claims := s.claims + [selected])
      case Finish(failed, inBackground) =>
        var id := s.worker.id;
        var st := Processed(s.worker.priority, failed, inBackground);
        s.(rows := if id in s.rows then SetStatus(s.rows, id, st) else s.rows,
           worker := Idle,
           background := if st == ProcessingLLM then s.background + {id} else s.background)
      case BackgroundDone(id, st) =>
        s.(rows := if id in s.rows then SetStatus(s.rows, id, st) else s.rows, background := s.background - {id})
      case ClearOld(ids) => s.(rows := s.rows - ids)
  }

  function Run(moves: seq<Move>): System {
    if moves == [] then System(map[], 1, Idle, {}, [])
    else Step(Run(moves[..|moves| - 1]), moves[|moves| - 1])
  }

  // ------------------------------------------------------------------- invariant

  ghost predicate NoneProcessingBut(rows: Table, w: Worker) {
    forall id :: id in rows ==> (rows[id].status == Processing <==> w.Claimed? && w.id == id)
  }

  ghost predicate Valid(s: System) {
    && (forall id :: id in s.rows ==> id < s.nextId)
    && NoneProcessingBut(s.rows, s.worker)
    && (s.worker.Claimed? ==> s.worker.id in s.rows && s.worker.priority == s.rows[s.worker.id].priority)
    && (forall id :: id in s.rows ==> (s.rows[id].status == ProcessingLLM <==> id in s.background))
    && (forall id :: id in s.background ==> id in s.rows)
    && (forall i :: 0 <= i < |s.claims| ==> s.claims[i] < s.nextId)
    && (forall i :: 0 <= i < |s.claims| && s.claims[i] in s.rows ==> s.rows[s.claims[i]].status != Pending)
    && (forall i, j :: 0 <= i < j < |s.claims| ==> s.claims[i] != s.claims[j])
  }

  /** While nothing is in processing, a claim reads back the row it updated. */
  lemma ClaimReadsItsRow(s: System, updated: nat, selected: nat)
    requires Valid(s) && s.worker.Peeked? && ClaimMay(s.rows, updated, selected)
    ensures selected == updated && Answers(s.rows, Pending, selected)
  {
    hide NotAfter;
    assert forall p :: p in s.rows ==> s.rows[p].status != Processing;
  }

  /** Every step keeps the invariant and moves no event back. */
  lemma StepKeeps(s: System, m: Move)
    requires Valid(s)
    ensures Valid(Step(s, m))
    ensures var d := Step(s, m);
      forall id :: id in s.rows && id in d.rows ==>
        && d.rows[id].priority == s.rows[id].priority && d.rows[id].created == s.rows[id].created
        && Rank(s.rows[id].status) <= Rank(d.rows[id].status)
  {
    hide NotAfter;
    if Enabled(s, m) && m.Claim? {
      ClaimReadsItsRow(s, m.updated, m.selected);
    }
  }

  lemma {:induction false} RunValid(moves: seq<Move>)
    ensures Valid(Run(moves))
  {
    if moves != [] {
      RunValid(moves[..|moves| - 1]);
      StepKeeps(Run(moves[..|moves| - 1]), moves[|moves| - 1]);
    }
  }

  // ------------------------------------------------------------- main theorems

  /** Over every interleaving: between ticks nothing is left in processing, a claim
    returns the row it updated, which is a least pending one, and no event is
    claimed twice. */
  lemma QueueIsSafe(moves: seq<Move>)
    ensures var s := Run(moves);
      && (!s.worker.Claimed? ==> forall id :: id in s.rows ==> s.rows[id].status != Processing)
      && (forall i, j :: 0 <= i < j < |s.claims| ==> s.claims[i] != s.claims[j])
      && (forall u: nat, sel: nat :: Enabled(s, Claim(u, sel)) ==> sel == u && Answers(s.rows, Pending, sel))
  {
    RunValid(moves);
    var s := Run(moves);
    forall u: nat, sel: nat | Enabled(s, Claim(u, sel)) ensures sel == u && Answers(s.rows, Pending, sel) {
      ClaimReadsItsRow(s, u, sel);
    }
  }

  /** Something pending is not beyond the priorities, and nothing pending is before. */
  ghost predicate CanGoOn(rows: Table) {
    && (exists p :: p in rows && rows[p].status == Pending && rows[p].priority <= 3)
    && (forall p :: p in rows && rows[p].status == Pending ==> rows[p].priority >= 0)
  }

  /** An idle worker may take an event on exactly when some pending priority is at
    most 3 and none is negative. */
  lemma PeekIsPossibleIff(s: System)
    requires s.worker.Idle?
    ensures (exists id :: Enabled(s, Peek(id))) <==> CanGoOn(s.rows)
  {
    if CanGoOn(s.rows) {
      var p :| p in s.rows && s.rows[p].status == Pending && s.rows[p].priority <= 3;
      var id := LeastOf(s.rows, Pending, p);
      assert Enabled(s, Peek(id));
    }
  }

  /** Then it can also claim, and otherwise the queue stands still. */
  lemma ClaimIsPossible(s: System) returns (id: nat)
    requires Valid(s) && s.worker.Idle? && CanGoOn(s.rows)
    ensures Enabled(s, Peek(id)) && Enabled(Step(s, Peek(id)), Claim(id, id))
  {
    PeekIsPossibleIff(s);
    id :| Enabled(s, Peek(id));
    var rows := SetStatus(s.rows, id, Processing);
    assert forall p :: p in s.rows ==> s.rows[p].status != Processing;
  }

  lemma StandsStillIff(s: System)
    requires s.worker.Idle?
    ensures (forall m: Move :: m.Peek? || m.Claim? ==> Step(s, m) == s) <==> !CanGoOn(s.rows)
  {
    PeekIsPossibleIff(s);
    if id :| Enabled(s, Peek(id)) {
      assert Step(s, Peek(id)).worker.Peeked?;
    }
  }

  function RunFrom(s: System, moves: seq<Move>): System {
    if moves == [] then s else Step(RunFrom(s, moves[..|moves| - 1]), moves[|moves| - 1])
  }

  /** A pending event with a negative priority stops the queue for ever: whatever is
    added, completed or cleared, nothing is claimed again. */
  lemma {:induction false} NegativeBlocksForEver(s: System, bad: nat, moves: seq<Move>)
    requires Valid(s) && s.worker.Idle?
    requires bad in s.rows && s.rows[bad].status == Pending && s.rows[bad].priority < 0
    ensures var d := RunFrom(s, moves);
      && Valid(d) && d.worker.Idle? && d.claims == s.claims
      && bad in d.rows && d.rows[bad] == s.rows[bad]
  {
    hide Valid, NotAfter;
    if moves != [] {
      var front := moves[..|moves| - 1];
      NegativeBlocksForEver(s, bad, front);
      var d := RunFrom(s, front);
      StepKeeps(d, moves[|moves| - 1]);
      BadStays(d, bad, moves[|moves| - 1]);
    }
  }

  lemma BadStays(d: System, bad: nat, m: Move)
    requires Valid(d) && d.worker.Idle?
    requires bad in d.rows && d.rows[bad].status == Pending && d.rows[bad].priority < 0
    ensures var e := Step(d, m);
      e.worker.Idle? && e.claims == d.claims && bad in e.rows && e.rows[bad] == d.rows[bad]
  {}

  /** With a second worker the claim can go wrong: both are handed event 1. */
  lemma TwoWorkersShareAnEvent()
    ensures exists rows: Table :: ClaimMay(rows, 1, 1) && ClaimMay(SetStatus(rows, 1, Processing), 2, 1)
  {
    var rows: Table := map[1 := Event(0, 0, Pending), 2 := Event(1, 0, Pending)];
    assert ClaimMay(rows, 1, 1);
    assert ClaimMay(SetStatus(rows, 1, Processing), 2, 1);
  }

  // ------------------------------------------------------- what a move does, exactly

  /** The status an event is left in: with errors exactly if it is critical or high and
    its broadcast failed, in the background exactly if it is lower and works there. */
  ghost predicate Leaves(priority: int, failed: bool, inBackground: bool, st: Status) {
    && (st == CompletedWithErrors <==> failed && 0 <= priority <= 1)
    && (st == ProcessingLLM <==> inBackground && 2 <= priority <= 3)
    && (st == CompletedWithErrors || st == ProcessingLLM || st == Completed)
  }

  /** One event is left so; it keeps its priority and time, and no other row changes. */
  ghost predicate Left(before: Table, after: Table, id: nat, failed: bool, inBackground: bool) {
    && id in before && id in after
    && after == before[id := before[id].(status := after[id].status)]
    && Leaves(before[id].priority, failed, inBackground, after[id].status)
  }

  /** The background work once the event is left. */
  ghost function Joined(background: set<nat>, id: nat, st: Status): set<nat> {
    if st == ProcessingLLM then background + {id} else background
  }

  /** After every run that holds an event: finishing it changes its status alone. */
  lemma FinishIs(moves: seq<Move>, failed: bool, inBackground: bool)
    requires Run(moves).worker.Claimed?
    ensures var s, d := Run(moves), Run(moves + [Finish(failed, inBackground)]); var id := s.worker.id;
      && Left(s.rows, d.rows, id, failed, inBackground) && s.rows[id].status == Processing
      && d == System(d.rows, s.nextId, Idle, Joined(s.background, id, d.rows[id].status), s.claims)
  {
    RunValid(moves);
    assert (moves + [Finish(failed, inBackground)])[..|moves|] == moves;
  }

  /** After every run, the moves that are possible and are not a finish. */
  lemma MoveIs(moves: seq<Move>, m: Move)
    requires Enabled(Run(moves), m) && !m.Finish?
    ensures var s, d := Run(moves), Run(moves + [m]);
      && (m.AddEvent? ==>
            && s.nextId !in s.rows
            && d == s.(rows := s.rows[s.nextId := Event(m.priority, m.created, Pending)], nextId := s.nextId + 1))
      && (m.Peek? ==> s.worker.Idle? && d == s.(worker := Peeked))
      && (m.Claim? ==>
            && m.updated == m.selected && Answers(s.rows, Pending, m.updated)
            && d == s.(rows := s.rows[m.updated := s.rows[m.updated].(status := Processing)],
                       worker := Claimed(m.updated, s.rows[m.updated].priority), claims := s.claims + [m.updated]))
      && (m.BackgroundDone? ==>
            && m.id in s.rows && s.rows[m.id].status == ProcessingLLM
            && (m.st == Completed || m.st == CompletedWithErrors || m.st == Cancelled)
            && d == s.(rows := s.rows[m.id := s.rows[m.id].(status := m.st)], background := s.background - {m.id}))
      && (m.ClearOld? ==>
            && d == s.(rows := d.rows)
            && (forall id :: id in d.rows <==> id in s.rows && id !in m.ids)
            && (forall id :: id in d.rows ==> d.rows[id] == s.rows[id]))
  {
    RunValid(moves);
    assert (moves + [m])[..|moves|] == moves;
    if m.Claim? {
      ClaimReadsItsRow(Run(moves), m.updated, m.selected);
    }
  }

  // ------------------------------------------------------------------ the handler

  datatype Found = NoEvent | TheEvent(id: nat)

  class PulseHandler {
    var rows: Table
    var nextId: nat
    var isProcessing: bool
    var currentEvent: Found
    var background: set<nat>

    ghost predicate Valid()
      reads this
    {
      && !isProcessing && currentEvent.NoEvent?
      && (forall id :: id in rows ==> id < nextId && rows[id].status != Processing)
      && (forall id :: id in background ==> id in rows && rows[id].status == ProcessingLLM)
    }

    constructor ()
      ensures Valid() && rows == map[]
    {
      rows, nextId, isProcessing, currentEvent, background := map[], 1, false, NoEvent, {};
    }

    method AddEvent(priority: int, created: int) returns (id: nat)
      requires Valid()
      modifies this`rows, this`nextId
      ensures Valid()
      ensures id == old(nextId)
      ensures rows == old(rows)[id := Event(if 0 <= priority <= 3 then priority else 2, created, Pending)]
    {
      var p := if priority < 0 || priority > 3 then 2 else priority;
      id := nextId;
      rows := rows[id := Event(p, created, Pending)];
      nextId := nextId + 1;
    }

    /** Some row the query may answer. */
    method PeekNextEvent() returns (r: Found)
      ensures r.NoEvent? ==> forall p :: p in rows ==> rows[p].status != Pending
      ensures r.TheEvent? ==> Answers(rows, Pending, r.id)
    {
      if some: nat :| some in rows && rows[some].status == Pending {
        r := SelectFirst(Pending, some);
      } else {
        r := NoEvent;
      }
    }

    /** Any row the ordered query may put first. */
    method SelectFirst(st: Status, ghost some: nat) returns (r: Found)
      requires some in rows && rows[some].status == st
      ensures r.TheEvent? && Answers(rows, st, r.id)
    {
      ghost var least := LeastOf(rows, st, some);
      var id: nat :| id in rows && Answers(rows, st, id);
      r := TheEvent(id);
    }

    method ClaimNextEvent() returns (r: Found)
      requires forall p :: p in rows ==> rows[p].status != Processing
      modifies this`rows
      ensures r.NoEvent? ==> rows == old(rows) && forall p :: p in rows ==> rows[p].status != Pending
      ensures r.TheEvent? ==>
                && r.id in old(rows) && Answers(old(rows), Pending, r.id)
                && rows == old(rows)[r.id := old(rows)[r.id].(status := Processing)]
    {
      var updated := PeekNextEvent();
      if updated.NoEvent? {
        return NoEvent;
      }
      rows := SetStatus(rows, updated.id, Processing);
      assert forall p :: p in rows && rows[p].status == Processing ==> p == updated.id;
      r := SelectFirst(Processing, updated.id);
    }

    method ProcessEvent(id: nat, failed: bool, inBackground: bool)
      requires id in rows && rows[id].status == Processing
      modifies this`rows, this`isProcessing, this`currentEvent, this`background
      ensures Left(old(rows), rows, id, failed, inBackground)
      ensures background == Joined(old(background), id, rows[id].status)
      ensures !isProcessing && currentEvent.NoEvent?
    {
      isProcessing := true;
      currentEvent := TheEvent(id);
      var priority := rows[id].priority;
      if (priority == 2 || priority == 3) && inBackground {
        rows := SetStatus(rows, id, ProcessingLLM);
        background := background + {id};
      } else if (priority == 0 || priority == 1) && failed {
        rows := SetStatus(rows, id, CompletedWithErrors);
      } else {
        rows := SetStatus(rows, id, Completed);
      }
      isProcessing := false;
      currentEvent := NoEvent;
    }

    /** One heartbeat: at most one event is claimed, a least pending one, and it is
      carried past processing before the tick ends. */
    method Tick(failed: bool, inBackground: bool)
      requires Valid()
      modifies this
      ensures Valid() && nextId == old(nextId)
      ensures rows == old(rows) ||
              exists id :: Answers(old(rows), Pending, id) && ShouldProcess(old(rows)[id])
                        && Left(old(rows), rows, id, failed, inBackground)
                        && background == Joined(old(background), id, rows[id].status)
      ensures rows == old(rows) ==>
                forall id :: Answers(rows, Pending, id) && ShouldProcess(rows[id]) ==>
                  exists bad :: Answers(rows, Pending, bad) && !ShouldProcess(rows[bad])
    {
      var event := PeekNextEvent();
      if event.NoEvent? || !ShouldProcess(rows[event.id]) {
        return;
      }
      var claimed := ClaimNextEvent();
      if claimed.NoEvent? {
        return;
      }
      var id := claimed.id;
      assert rows[id] == old(rows)[id].(status := Processing);
      ProcessEvent(id, failed, inBackground);
      assert Left(old(rows), rows, id, failed, inBackground);
      assert rows[id].status != old(rows)[id].status;
    }
  }
}
