/** Concurrent callers of the rate limiter: each reads the row and then runs one
  statement, a reset or a conditional increment.  A maximum of zero lets the request
  through at once. */
module RateRaces {
  import opened RateLimit
  import opened Sequences

  /** A caller between its statements. A reset is decided at a time and for a window,
    the number of resets so far. */
  datatype Caller = WillReset(window: nat, since: int) | WillIncrement

  /** A reset is late when its window was reset already. */
  datatype Shared = Shared(row: Row, callers: map<nat, Caller>, resets: nat, late: nat)

  datatype Move =
    | Read(caller: nat, now: int)
    | Write(caller: nat, now: int)

  function Start(r: Row): Shared { Shared(r, map[], 0, 0) }

  function Apply(s: Shared, m: Move): Shared {
    match m
    case Read(c, now) =>
      if c in s.callers || s.row.max == 0 then s
      else s.(callers := s.callers[c := if Expired(s.row, now) then WillReset(s.resets, now) else WillIncrement])
    case Write(c, now) =>
      if c !in s.callers then s
      else
        var rest := s.(callers := s.callers - {c});
        match s.callers[c]
        case WillReset(window, _) =>
          rest.(row := s.row.(requests := 0, windowStart := now), resets := s.resets + 1,
                late := if window == s.resets then s.late else s.late + 1)
        case WillIncrement =>
          if s.row.requests < s.row.max then rest.(row := s.row.(requests := s.row.requests + 1)) else rest
  }

  function Run(r: Row, moves: seq<Move>): Shared {
    if moves == [] then Start(r) else Apply(Run(r, moves[..|moves| - 1]), moves[|moves| - 1])
  }

  /** Whether the move lets a request through. */
  predicate Admits(s: Shared, m: Move) {
    if m.Read? then m.caller !in s.callers && s.row.max == 0
    else m.caller in s.callers && (s.callers[m.caller].WillReset? || s.row.requests < s.row.max)
  }

  /** A caller that nobody comes between is one check: same row, same answer. */
  lemma OneCallerIsCheck(s: Shared, c: nat, now: int)
    requires c !in s.callers
    ensures var read := Apply(s, Read(c, now)); var d := Apply(read, Write(c, now));
      && d.callers == s.callers && d.row == Check(s.row, now).0
      && (Admits(s, Read(c, now)) || Admits(read, Write(c, now)) <==> Check(s.row, now).1)
      && !(Admits(s, Read(c, now)) && Admits(read, Write(c, now)))
  {}

  /** The requests let through at times from lo to hi. */
  function AdmittedIn(r: Row, moves: seq<Move>, lo: int, hi: int): nat {
    if moves == [] then 0
    else
      var front, m := moves[..|moves| - 1], moves[|moves| - 1];
      AdmittedIn(r, front, lo, hi) + if Admits(Run(r, front), m) && lo <= m.now <= hi then 1 else 0
  }

  function Admitted(r: Row, moves: seq<Move>): nat {
    if moves == [] then 0
    else
      var front, m := moves[..|moves| - 1], moves[|moves| - 1];
      Admitted(r, front) + if Admits(Run(r, front), m) then 1 else 0
  }

  // ------------------------------------------------------------- every schedule

  /** For every interleaving: what was free at first, and max + 1 for every reset. */
  lemma {:induction false} AdmittedBound(r: Row, moves: seq<Move>)
    requires r.max > 0
    ensures var d := Run(r, moves);
      d.row.max == r.max && Admitted(r, moves) + Free(d.row) <= Free(r) + d.resets * (r.max + 1)
  {
    if moves != [] {
      var front := moves[..|moves| - 1];
      AdmittedBound(r, front);
      OneMore(Run(r, front).resets, r.max + 1);
    }
  }

  lemma OneMore(n: nat, k: int)
    ensures (n + 1) * k == n * k + k
  {}

  /** The requests let through by an increment since the last reset. */
  function SinceReset(r: Row, moves: seq<Move>): nat {
    if moves == [] then r.requests
    else
      var front, m := moves[..|moves| - 1], moves[|moves| - 1];
      if m.Read? || !Admits(Run(r, front), m) then SinceReset(r, front)
      else if Run(r, front).callers[m.caller].WillReset? then 0
      else SinceReset(r, front) + 1
  }

  /** The stored count is what was let through since the last reset, and never
    exceeds the maximum, unless it did at first. */
  lemma {:induction false} CountNeverExceeds(r: Row, moves: seq<Move>)
    requires r.max > 0
    ensures var d := Run(r, moves);
      && d.row.max == r.max && d.row.requests == SinceReset(r, moves)
      && (d.row.requests <= r.max || (d.resets == 0 && d.row.requests == r.requests))
  {
    if moves != [] {
      CountNeverExceeds(r, moves[..|moves| - 1]);
    }
  }

  // --------------------------------------------------------- exclusive schedules

  ghost predicate Resetting(s: Shared) {
    exists c :: c in s.callers && s.callers[c].WillReset?
  }

  /** A second caller reads the expired row before the first one has reset it. */
  ghost predicate Clashes(s: Shared, m: Move) {
    m.Read? && m.caller !in s.callers && s.row.max != 0 && Expired(s.row, m.now) && Resetting(s)
  }

  ghost predicate Exclusive(r: Row, moves: seq<Move>) {
    moves != [] ==>
      var front := moves[..|moves| - 1];
      Exclusive(r, front) && !Clashes(Run(r, front), moves[|moves| - 1])
  }

  /** No more than one caller is about to reset, and it read the current window. */
  ghost predicate Alone(s: Shared) {
    && s.late == 0
    && (forall c :: c in s.callers && s.callers[c].WillReset? ==> s.callers[c].window == s.resets)
    && (forall c, d :: c in s.callers && d in s.callers && s.callers[c].WillReset? && s.callers[d].WillReset? ==>
          c == d)
  }

  /** Some reset is late, or one is bound to be. */
  ghost predicate Crowded(s: Shared) {
    || s.late > 0
    || (exists c :: c in s.callers && s.callers[c].WillReset? && s.callers[c].window < s.resets)
    || (exists c, d :: c in s.callers && d in s.callers && c != d && s.callers[c].WillReset? && s.callers[d].WillReset?)
  }

  ghost predicate NoFuture(s: Shared) {
    forall c :: c in s.callers && s.callers[c].WillReset? ==> s.callers[c].window <= s.resets
  }

  lemma StepAlone(s: Shared, m: Move)
    requires Alone(s)
    ensures if Clashes(s, m) then Crowded(Apply(s, m)) else Alone(Apply(s, m))
  {
    if Clashes(s, m) {
      var c :| c in s.callers && s.callers[c].WillReset?;
      var d := Apply(s, m);
      assert d.callers[c].WillReset? && d.callers[m.caller].WillReset? && c != m.caller;
    }
  }

  lemma StepCrowded(s: Shared, m: Move)
    requires Crowded(s) && NoFuture(s)
    ensures Crowded(Apply(s, m))
  {
    var d := Apply(s, m);
    if s.late == 0 && m.Write? && m.caller in s.callers && s.callers[m.caller].WillReset? && d.late == 0 {
      if c :| c in s.callers && s.callers[c].WillReset? && c != m.caller {
        assert d.callers[c] == s.callers[c] && d.callers[c].window < d.resets;
      }
    } else if s.late == 0 && d.late == 0 {
      if c :| c in s.callers && s.callers[c].WillReset? && s.callers[c].window < s.resets {
        assert d.callers[c] == s.callers[c];
      } else {
        var c, e :| c in s.callers && e in s.callers && c != e && s.callers[c].WillReset? && s.callers[e].WillReset?;
        assert d.callers[c] == s.callers[c] && d.callers[e] == s.callers[e];
      }
    }
  }

  lemma {:induction false} RunIsAloneIff(r: Row, moves: seq<Move>)
    ensures var d := Run(r, moves);
      NoFuture(d) && if Exclusive(r, moves) then Alone(d) else Crowded(d)
  {
    hide Alone, Crowded, Clashes, Apply;
    if moves == [] {
      assert Alone(Start(r)) by { StartAlone(r); }
    } else {
      var front, m := moves[..|moves| - 1], moves[|moves| - 1];
      RunIsAloneIff(r, front);
      var s := Run(r, front);
      StepNoFuture(s, m);
      if Exclusive(r, front) {
        StepAlone(s, m);
      } else {
        StepCrowded(s, m);
      }
    }
  }

  lemma StartAlone(r: Row)
    ensures Alone(Start(r))
  {}

  lemma StepNoFuture(s: Shared, m: Move)
    requires NoFuture(s)
    ensures NoFuture(Apply(s, m))
  {}

  /** Once nobody is about to reset: every window was reset at most once if and only
    if no caller read an expired row that another was about to reset. */
  lemma ResetOnceIff(r: Row, moves: seq<Move>)
    requires !Resetting(Run(r, moves))
    ensures Run(r, moves).late == 0 <==> Exclusive(r, moves)
  {
    RunIsAloneIff(r, moves);
  }

  // ------------------------------------------------------ the bound of an hour

  ghost predicate Ascending(moves: seq<Move>) {
    forall i, j :: 0 <= i < j < |moves| ==> moves[i].now <= moves[j].now
  }

  ghost predicate InHour(s: Shared, max: int, count: int, lo: int, last: int) {
    && s.row.max == max
    && (forall c :: c in s.callers && s.callers[c].WillReset? ==>
          s.callers[c].since <= last && Expired(s.row, s.callers[c].since))
    && (last < lo ==> count == 0)
    && count <= 2 * max + 1
    && (last <= lo + HOUR && s.row.windowStart < lo ==> count + Free(s.row) <= max)
    && (last <= lo + HOUR && s.row.windowStart >= lo ==> count + Free(s.row) <= 2 * max + 1)
  }

  lemma StepInHour(s: Shared, m: Move, max: int, count: int, lo: int, last: int)
    requires max > 0 && InHour(s, max, count, lo, last) && Alone(s) && !Clashes(s, m) && last <= m.now
    ensures InHour(Apply(s, m), max, count + if Admits(s, m) && lo <= m.now <= lo + HOUR then 1 else 0, lo, m.now)
  {}

  /** If every window is reset at most once, no closed hour lets more through than a
    single caller at a time would: 2 max + 1. */
  lemma {:induction false} ExclusiveHour(r: Row, moves: seq<Move>, lo: int)
    requires r.max > 0 && Ascending(moves) && Exclusive(r, moves)
    ensures AdmittedIn(r, moves, lo, lo + HOUR) <= 2 * r.max + 1
    ensures moves != [] ==>
              InHour(Run(r, moves), r.max, AdmittedIn(r, moves, lo, lo + HOUR), lo, moves[|moves| - 1].now)
  {
    hide InHour, Alone, Clashes, Apply, Admits;
    if moves != [] {
      var front, m := moves[..|moves| - 1], moves[|moves| - 1];
      ExclusiveHour(r, front, lo);
      RunIsAloneIff(r, front);
      var last := if front == [] then (if m.now < lo then m.now else lo) else front[|front| - 1].now;
      if front == [] {
        StartInHour(r, lo, last);
      }
      StepInHour(Run(r, front), m, r.max, AdmittedIn(r, front, lo, lo + HOUR), lo, last);
      CountIs(Run(r, moves), r.max, AdmittedIn(r, moves, lo, lo + HOUR), lo, m.now);
    }
  }

  lemma StartInHour(r: Row, lo: int, last: int)
    requires r.max > 0
    ensures InHour(Start(r), r.max, 0, lo, last)
  {}

  lemma CountIs(s: Shared, max: int, count: int, lo: int, last: int)
    requires InHour(s, max, count, lo, last)
    ensures count <= 2 * max + 1
  {}

  // ------------------------------------------------------- and without exclusion

  function Reads(n: nat, now: int): (moves: seq<Move>)
    ensures |moves| == n
  {
    if n == 0 then [] else Reads(n - 1, now) + [Read(n - 1, now)]
  }

  function Writes(n: nat, now: int): (moves: seq<Move>)
    ensures |moves| == n
  {
    if n == 0 then [] else Writes(n - 1, now) + [Write(n - 1, now)]
  }

  /** n callers have decided to reset, and nothing has happened yet. */
  ghost predicate Decided(s: Shared, r: Row, n: nat, now: int) {
    && s.row == r && s.resets == 0 && s.late == 0
    && (forall c :: c in s.callers <==> 0 <= c < n)
    && (forall c :: 0 <= c < n ==> s.callers[c] == WillReset(0, now))
  }

  lemma OneMoreDecides(s: Shared, r: Row, n: nat, now: int)
    requires r.max != 0 && Expired(r, now) && Decided(s, r, n, now)
    ensures !Admits(s, Read(n, now)) && Decided(Apply(s, Read(n, now)), r, n + 1, now)
  {}

  lemma NoneDecided(r: Row, now: int)
    ensures Decided(Start(r), r, 0, now)
  {}

  lemma {:induction false} AllDecide(r: Row, n: nat, now: int)
    requires r.max != 0 && Expired(r, now)
    ensures Admitted(r, Reads(n, now)) == 0 && Decided(Run(r, Reads(n, now)), r, n, now)
  {
    hide Decided, Expired, Apply, Admits;
    if n == 0 {
      NoneDecided(r, now);
    } else {
      AllDecide(r, n - 1, now);
      var moves := Reads(n - 1, now);
      OneMoreDecides(Run(r, moves), r, n - 1, now);
      RunMore(r, moves, Read(n - 1, now));
    }
  }

  /** k of n callers that decided to reset have done so. */
  ghost predicate Done(d: Shared, n: nat, k: nat, now: int) {
    && d.resets == k && (k > 0 ==> d.late == k - 1 && d.row.requests == 0) && (k == 0 ==> d.late == 0)
    && (forall c :: c in d.callers <==> k <= c < n)
    && (forall c :: k <= c < n ==> d.callers[c] == WillReset(0, now))
  }

  lemma OneMoreDone(d: Shared, n: nat, k: nat, now: int)
    requires Done(d, n, k, now) && k < n
    ensures Admits(d, Write(k, now)) && Done(Apply(d, Write(k, now)), n, k + 1, now)
  {}

  /** Any number of callers that read an expired row are all let through, and none
    is counted. */
  lemma {:induction false} EveryReaderResets(r: Row, n: nat, k: nat, now: int)
    requires r.max != 0 && Expired(r, now) && k <= n
    ensures var moves := Reads(n, now) + Writes(k, now);
      Admitted(r, moves) == k && Done(Run(r, moves), n, k, now)
  {
    hide Reads, Expired, Done, Decided, Admits, Apply;
    if k == 0 {
      assert Reads(n, now) + Writes(0, now) == Reads(n, now);
      AllDecide(r, n, now);
      NoneDone(Run(r, Reads(n, now)), r, n, now);
    } else {
      EveryReaderResets(r, n, k - 1, now);
      var before := Reads(n, now) + Writes(k - 1, now);
      var moves := Reads(n, now) + Writes(k, now);
      hide Run, Admitted;
      OneMoreDone(Run(r, before), n, k - 1, now);
      Assoc(Reads(n, now), Writes(k - 1, now), [Write(k - 1, now)]);
      RunMore(r, before, Write(k - 1, now));
    }
  }

  lemma NoneDone(s: Shared, r: Row, n: nat, now: int)
    requires Decided(s, r, n, now)
    ensures Done(s, n, 0, now)
  {}

  lemma RunMore(r: Row, moves: seq<Move>, m: Move)
    ensures Run(r, moves + [m]) == Apply(Run(r, moves), m)
    ensures Admitted(r, moves + [m]) == Admitted(r, moves) + if Admits(Run(r, moves), m) then 1 else 0
  {
    assert (moves + [m])[..|moves|] == moves;
  }
}
