/** What stopping a writer between two of its statements does to the archive. */
module MessageCrash {
  import opened Options
  import opened MessageStore
  import MessageLog

  function Prefix(p: Program, k: nat): Program
    decreases k
  {
    if k == 0 || p.Done? then Done else Then(p.first, Prefix(p.rest, k - 1))
  }

  /** Either an event runs to its end, or its writer stops after some statements. */
  datatype Move = Whole(e: Event) | Stopped(e: Event, after: nat)

  function Apply(s: Session, m: Move): Session {
    match m
    case Whole(e) => Step(s, e)
    case Stopped(e, after) => ExecAll(s, Prefix(Plan(s, e), after))
  }

  function Run(s: Session, moves: seq<Move>): Session {
    if moves == [] then s else Apply(Run(s, moves[..|moves| - 1]), moves[|moves| - 1])
  }

  /** KeepMessages is fixed. */
  ghost predicate FixedKeep(keep: nat, moves: seq<Move>) {
    forall m :: m in moves && m.e.AutoCompact? ==> m.e.keep == keep
  }

  ghost predicate NeverTwice(archive: seq<Archived>) {
    forall i, j :: 0 <= i < j < |archive| ==> archive[i].origin != archive[j].origin
  }

  ghost predicate IsArchived(archive: seq<Archived>, origin: nat) {
    exists a :: a in archive && a.origin == origin
  }

  // -------------------------------------------------------------- invariant

  ghost predicate Rows(rows: seq<Message>, nextId: nat) {
    && (forall i, j :: 0 <= i < j < |rows| ==> rows[i].id < rows[j].id && rows[i].origin != rows[j].origin)
    && (forall i :: 0 <= i < |rows| ==> rows[i].id < nextId && rows[i].origin < nextId)
  }

  /** Rows that no automatic compaction puts back under a new id: the prefix it
    archives, and the rows beyond those it reads. */
  predicate Settled(i: int, bound: nat) { i < bound || COMPACT_LIMIT <= i }

  /** A live row that is archived kept the id it was archived under, and is settled. */
  ghost predicate Kept(rows: seq<Message>, archive: seq<Archived>, bound: nat) {
    forall i, a :: 0 <= i < |rows| && a in archive && a.origin == rows[i].origin ==>
      a.sourceId == rows[i].id && Settled(i, bound)
  }

  /** The other rows would be archived if they were reached. */
  ghost predicate Untouched(rows: seq<Message>, archive: seq<Archived>, watermark: int, bound: nat) {
    && (forall i :: 0 <= i < |rows| && !Settled(i, bound) ==> watermark < rows[i].id)
    && (forall i, a :: 0 <= i < |rows| && !Settled(i, bound) && a in archive ==> a.sourceId != rows[i].id)
  }

  ghost predicate Safe(s: Session, bound: nat) {
    && Rows(s.rows, s.nextId)
    && Kept(s.rows, s.archive, bound)
    && Untouched(s.rows, s.archive, s.meta.watermark, bound)
    && NeverTwice(s.archive)
    && (forall a :: a in s.archive ==> a.origin < s.nextId && a.sourceId < s.nextId)
    && 0 <= s.meta.watermark < s.nextId
  }

  /** How many leading rows the next compaction that keeps `keep` messages archives,
    now or once there are enough. */
  function Bound(s: Session, keep: nat): (b: nat)
    ensures b > 0
  {
    var n := |GetMessages(s, COMPACT_LIMIT)|;
    if keep >= COMPACT_LIMIT then COMPACT_LIMIT else if n > keep then n - keep else 1
  }

  // ------------------------------------------------------- statement lemmas

  lemma InsertSafe(s: Session, role: string, content: string, origin: Option<nat>, bound: nat)
    requires Safe(s, bound)
    requires origin.Some? ==> origin.value < s.nextId && !IsArchived(s.archive, origin.value)
    requires origin.Some? ==> forall i :: 0 <= i < |s.rows| ==> s.rows[i].origin != origin.value
    ensures Safe(Exec(s, Insert(role, content, origin)), bound)
  {
    var d := Exec(s, Insert(role, content, origin));
    var row := d.rows[|s.rows|];
    forall a | a in d.archive ensures a.origin != row.origin {}
  }

  /** Appending the selected rows that are not archived yet: no origin twice. */
  lemma {:induction false} ArchiveIntoSafe(archive: seq<Archived>, rows: seq<Message>, nextId: nat,
                                           wm: int, before: int, bound: nat)
    requires Rows(rows, nextId) && Kept(rows, archive, bound) && NeverTwice(archive)
    requires forall a :: a in archive ==> a.origin < nextId
    ensures var r := ArchiveInto(archive, rows, wm, before);
      && NeverTwice(r)
      && (forall a :: a in r ==> a.origin < nextId)
      && (forall a :: a in r && a !in archive ==>
            (exists i :: 0 <= i < |rows| && Selected(rows[i], wm, before) && a == AsArchived(rows[i])))
  {
    hide IsSummary;
    if rows != [] {
      var n := |rows| - 1;
      var m := rows[n];
      ArchiveIntoSafe(archive, rows[..n], nextId, wm, before, bound);
      var done := ArchiveInto(archive, rows[..n], wm, before);
      var r := ArchiveInto(archive, rows, wm, before);
      if r != done {
        forall a | a in done ensures a.origin != m.origin {
          assert a in archive && a.origin == m.origin ==> HasSource(done, m.id);
        }
        assert Selected(rows[n], wm, before);
      }
    }
  }

  lemma {:induction false} ArchiveIntoKeeps(archive: seq<Archived>, rows: seq<Message>, wm: int, before: int)
    ensures archive <= ArchiveInto(archive, rows, wm, before)
  {
    hide IsSummary, HasSource;
    if rows != [] {
      ArchiveIntoKeeps(archive, rows[..|rows| - 1], wm, before);
    }
  }

  /** Every selected row is archived under its id in the end. */
  lemma {:induction false} ArchiveIntoHas(archive: seq<Archived>, rows: seq<Message>, wm: int, before: int, i: nat)
    requires i < |rows| && Selected(rows[i], wm, before)
    ensures HasSource(ArchiveInto(archive, rows, wm, before), rows[i].id)
  {
    hide IsSummary;
    var n := |rows| - 1;
    var done := ArchiveInto(archive, rows[..n], wm, before);
    if i < n {
      ArchiveIntoHas(archive, rows[..n], wm, before, i);
      var a :| a in done && a.sourceId == rows[i].id;
      assert a in ArchiveInto(archive, rows, wm, before);
    } else if !HasSource(done, rows[n].id) {
      assert (done + [AsArchived(rows[n])])[|done|] == AsArchived(rows[n]);
    }
  }

  /** An entry that archiving up to row c - 1 adds comes from one of the first c rows. */
  lemma NewEntry(s: Session, c: nat, bound: nat, a: Archived) returns (k: nat)
    requires Safe(s, bound) && 0 < c <= |s.rows| && a !in s.archive
    requires a in ArchiveInto(s.archive, s.rows, s.meta.watermark, s.rows[c - 1].id)
    ensures k < c && a == AsArchived(s.rows[k]) && !IsSummary(s.rows[k].role, s.rows[k].content)
  {
    var before := s.rows[c - 1].id;
    ArchiveIntoSafe(s.archive, s.rows, s.nextId, s.meta.watermark, before, bound);
    hide ArchiveInto, NeverTwice, IsSummary, Kept, Untouched;
    k :| 0 <= k < |s.rows| && Selected(s.rows[k], s.meta.watermark, before) && a == AsArchived(s.rows[k]);
  }

  lemma RowIs(s: Session, bound: nat, i: int, k: int)
    requires Safe(s, bound)
    requires 0 <= i < |s.rows| && 0 <= k < |s.rows|
    ensures s.rows[i].origin == s.rows[k].origin || s.rows[i].id == s.rows[k].id ==> i == k
  {}

  lemma SettledKept(s: Session, c: nat, bound: nat)
    requires Safe(s, bound) && 0 < c <= |s.rows|
    requires forall i :: 0 <= i < c && !Settled(i, bound) ==> IsSummary(s.rows[i].role, s.rows[i].content)
    ensures var r := Exec(s, Archive(s.rows[c - 1].id)).archive;
      Kept(s.rows, r, bound) && Untouched(s.rows, r, s.meta.watermark, bound)
  {
    var r := ArchiveInto(s.archive, s.rows, s.meta.watermark, s.rows[c - 1].id);
    hide ArchiveInto, IsSummary, NeverTwice, Rows;
    forall i, a | 0 <= i < |s.rows| && a in r
      ensures a.origin == s.rows[i].origin ==> a.sourceId == s.rows[i].id && Settled(i, bound)
      ensures !Settled(i, bound) ==> a.sourceId != s.rows[i].id
    {
      if a !in s.archive {
        var k := NewEntry(s, c, bound, a);
        RowIs(s, bound, i, k);
      }
    }
  }

  lemma SettledIsSafe(s: Session, c: nat, bound: nat)
    requires Safe(s, bound) && 0 < c <= |s.rows|
    requires forall i :: 0 <= i < c && !Settled(i, bound) ==> IsSummary(s.rows[i].role, s.rows[i].content)
    ensures Safe(Exec(s, Archive(s.rows[c - 1].id)), bound)
  {
    var before := s.rows[c - 1].id;
    ArchiveIntoSafe(s.archive, s.rows, s.nextId, s.meta.watermark, before, bound);
    SettledKept(s, c, bound);
    var r := ArchiveInto(s.archive, s.rows, s.meta.watermark, before);
    hide ArchiveInto, IsSummary, NeverTwice, Rows, Kept, Untouched;
    forall a | a in r ensures a.sourceId < s.nextId {
      if a !in s.archive {
        var k := NewEntry(s, c, bound, a);
        SafeRow(s, k, bound);
      }
    }
  }

  lemma ArchiveSafe(s: Session, c: nat, bound: nat)
    requires Safe(s, bound) && 0 < c <= |s.rows|
    ensures Safe(Exec(s, Archive(s.rows[c - 1].id)), if c > bound then c else bound)
  {
    hide Safe, IsSummary;
    var wider := if c > bound then c else bound;
    Widen(s, bound, wider);
    SettledIsSafe(s, c, wider);
  }

  lemma EmptySafe(s: Session, bound: nat, row: Meta)
    requires Safe(s, bound) && 0 <= row.watermark < s.nextId
    ensures Safe(s.(rows := [], meta := row), 0)
  {}

  lemma {:induction false} ReInsertSafe(s: Session, keep: seq<Message>, summary: string, k: nat)
    requires Safe(s, 0)
    requires forall i, j :: 0 <= i < j < |keep| ==> keep[i].origin != keep[j].origin
    requires forall i :: 0 <= i < |keep| ==> keep[i].origin < s.nextId && !IsArchived(s.archive, keep[i].origin)
    requires forall i, j :: 0 <= i < |keep| && 0 <= j < |s.rows| ==> keep[i].origin != s.rows[j].origin
    ensures Safe(ExecAll(s, Prefix(ReInsert(keep, AddSummary(summary, Done)), k)), 0)
    decreases |keep|
  {
    hide Safe, IsArchived;
    if k != 0 {
      if keep == [] {
        var p := AddSummary(summary, Done);
        if summary != "" {
          InsertSafe(s, "system", p.first.content, None, 0);
          assert Prefix(p, k) == Then(p.first, Done);
          assert ExecAll(s, Prefix(p, k)) == ExecAll(Exec(s, p.first), Done) == Exec(s, p.first);
        } else {
          assert Prefix(p, k) == Done;
        }
      } else {
        var m := keep[0];
        var first := Insert(m.role, m.content, Some(m.origin));
        var rest := ReInsert(keep[1..], AddSummary(summary, Done));
        InsertSafe(s, m.role, m.content, Some(m.origin), 0);
        assert ReInsert(keep, AddSummary(summary, Done)) == Then(first, rest);
        ReInsertSafe(Exec(s, first), keep[1..], summary, k - 1);
      }
    }
  }

  // ------------------------------------------------------------- plan lemmas

  /** Every prefix of a compaction that archives the first c of its `stored` rows. */
  lemma CompactPrefixSafe(s: Session, gone: seq<Message>, keep: seq<Message>, k: nat, bound: nat)
    requires Safe(s, bound) && bound <= |gone| && gone != [] && gone + keep <= s.rows
    requires |gone| + |keep| <= COMPACT_LIMIT
    ensures var d := ExecAll(s, Prefix(CompactPlan(s.meta, gone, keep), k));
      Safe(d, 0) || (d.rows == s.rows && Safe(d, |gone|))
  {
    hide Safe, BuildSummary, ReInsert, AddSummary;
    var c := |gone|;
    assert s.rows[c - 1] == gone[c - 1];
    var p := CompactPlan(s.meta, gone, keep);
    var row := p.rest.first.row;
    assert 0 <= row.watermark < s.nextId by { SafeRow(s, c - 1, bound); }
    var d1 := Exec(s, p.first);
    ArchiveSafe(s, c, bound);
    var d2 := d1.(meta := row);
    assert Safe(d2, c) by { PointSafe(d1, c, row); }
    var d3 := d2.(rows := []);
    if k == 0 {
      assert Safe(s, c) by { Widen(s, bound, c); }
    } else if k <= 2 {
      assert Prefix(p, 1) == Then(p.first, Done) && Prefix(p, 2) == Then(p.first, Then(p.rest.first, Done));
      assert ExecAll(s, Prefix(p, 1)) == ExecAll(d1, Done) == d1;
      assert ExecAll(s, Prefix(p, 2)) == ExecAll(d1, Then(p.rest.first, Done)) == ExecAll(d2, Done) == d2;
    } else {
      var tail := p.rest.rest.rest;
      assert Prefix(p, k) == Then(p.first, Prefix(p.rest, k - 1));
      assert Prefix(p.rest, k - 1) == Then(p.rest.first, Prefix(p.rest.rest, k - 2));
      assert Prefix(p.rest.rest, k - 2) == Then(Clear, Prefix(tail, k - 3));
      assert ExecAll(s, Prefix(p, k)) == ExecAll(d1, Prefix(p.rest, k - 1)) == ExecAll(d2, Prefix(p.rest.rest, k - 2))
          == ExecAll(d3, Prefix(tail, k - 3));
      EmptySafe(d1, c, row);
      TailSafe(d1, c, keep);
      ReInsertSafe(d3, keep, BuildSummary(gone), k - 3);
    }
  }

  lemma SafeRow(s: Session, i: nat, bound: nat)
    requires Safe(s, bound) && i < |s.rows|
    ensures s.rows[i].id < s.nextId
  {}

  /** The watermark may move to the last archived row. */
  lemma PointSafe(s: Session, c: nat, row: Meta)
    requires Safe(s, c) && 0 < c <= |s.rows| && row.watermark == s.rows[c - 1].id
    ensures Safe(s.(meta := row), c)
  {}

  lemma MetaSafe(s: Session, bound: nat, row: Meta)
    requires Safe(s, bound) && 0 <= row.watermark < s.nextId
    requires forall i :: 0 <= i < |s.rows| ==> row.watermark < s.rows[i].id
    ensures Safe(s.(meta := row), bound)
  {}

  lemma Widen(s: Session, bound: nat, wider: nat)
    requires Safe(s, bound) && bound <= wider
    ensures Safe(s, wider)
  {}

  lemma TailSafe(s: Session, c: nat, keep: seq<Message>)
    requires Safe(s, c) && c + |keep| <= |s.rows| && c + |keep| <= COMPACT_LIMIT
    requires forall i :: 0 <= i < |keep| ==> keep[i] == s.rows[c + i]
    ensures forall i, j :: 0 <= i < j < |keep| ==> keep[i].origin != keep[j].origin
    ensures forall i :: 0 <= i < |keep| ==> keep[i].origin < s.nextId && !IsArchived(s.archive, keep[i].origin)
  {}

  lemma AutoPrefixSafe(s: Session, keep: nat, tokens: int, threshold: int, k: nat)
    requires Safe(s, Bound(s, keep))
    ensures var d := ExecAll(s, Prefix(AutoPlan(s, keep, tokens, threshold), k)); Safe(d, Bound(d, keep))
  {
    hide Safe, CompactPlan;
    var p := AutoPlan(s, keep, tokens, threshold);
    if k != 0 {
      var d1 := Exec(s, p.first);
      MetaSafe2(s, Bound(s, keep), p.first.row);
      assert ExecAll(s, Prefix(p, k)) == ExecAll(d1, Prefix(p.rest, k - 1));
      if Compacts(s, keep, tokens, threshold) {
        var stored := GetMessages(s, COMPACT_LIMIT);
        var cut := |stored| - keep;
        var gone, kept := stored[..cut], stored[cut..];
        assert gone + kept == stored;
        CompactPrefixSafe(d1, gone, kept, k - 1, cut);
        var d := ExecAll(d1, Prefix(p.rest, k - 1));
        if !(d.rows == s.rows && Safe(d, cut)) {
          Widen(d, 0, Bound(d, keep));
        }
      } else {
        assert Prefix(p.rest, k - 1) == Done;
      }
    }
  }

  lemma MetaSafe2(s: Session, bound: nat, row: Meta)
    requires Safe(s, bound) && row.watermark == s.meta.watermark
    ensures Safe(s.(meta := row), bound)
  {}

  lemma {:induction false} PrefixOfAll(p: Program) returns (k: nat)
    ensures Prefix(p, k) == p
    decreases p
  {
    if p.Done? {
      k := 0;
    } else {
      var n := PrefixOfAll(p.rest);
      k := n + 1;
    }
  }

  /** What follows the clearing in the other writers: at most one insertion and
    the meta row. */
  predicate IsTail(p: Program, nextId: nat) {
    || (p.Then? && p.first.PutMeta? && p.rest.Done? && 0 <= p.first.row.watermark < nextId)
    || (p.Then? && p.first.Insert? && p.first.origin.None? && p.rest.Then? && p.rest.first.PutMeta?
        && p.rest.rest.Done? && 0 <= p.rest.first.row.watermark < nextId)
  }

  lemma TailPrefixSafe(s: Session, p: Program, k: nat)
    requires Safe(s, 0) && s.rows == [] && IsTail(p, s.nextId)
    ensures Safe(ExecAll(s, Prefix(p, k)), 0)
  {
    if k != 0 {
      var d := Exec(s, p.first);
      assert ExecAll(s, Prefix(p, k)) == ExecAll(d, Prefix(p.rest, k - 1));
      if p.first.PutMeta? {
        MetaSafe(s, 0, p.first.row);
      } else {
        InsertSafe(s, p.first.role, p.first.content, None, 0);
        hide Safe;
        if k > 1 {
          MetaSafeLater(s, d, p.rest.first.row);
          var last := d.(meta := p.rest.first.row);
          assert Exec(d, p.rest.first) == last;
          assert Prefix(p.rest, k - 1) == Then(p.rest.first, Done);
          assert ExecAll(d, Then(p.rest.first, Done)) == ExecAll(last, Done) == last;
        }
      }
    }
  }

  lemma MetaSafeLater(s: Session, d: Session, row: Meta)
    requires Safe(d, 0) && 0 <= row.watermark < s.nextId <= d.nextId
    requires forall i :: 0 <= i < |d.rows| ==> d.rows[i].id >= s.nextId
    ensures Safe(d.(meta := row), 0)
  {}

  lemma ClearPrefixSafe(s: Session, bound: nat, p: Program, k: nat)
    requires Safe(s, bound) && IsTail(p, s.nextId)
    ensures Safe(ExecAll(s, Prefix(Then(Clear, p), k)), if k == 0 then bound else 0)
  {
    hide Safe, IsTail;
    if k != 0 {
      var d := s.(rows := []);
      SafeNext(s, bound);
      EmptySafe(s, bound, s.meta);
      assert ExecAll(s, Prefix(Then(Clear, p), k)) == ExecAll(d, Prefix(p, k - 1));
      TailPrefixSafe(d, p, k - 1);
    }
  }

  /** A writer stops with rows that are archived and not yet cleared. */
  predicate Lingers(s: Session, e: Event, after: nat) {
    after == 1 && (e.ManualCompact? || e.Reset?) && s.rows != []
  }

  /** The rows that were archived but are not settled are summaries, which archiving
    leaves out. */
  predicate Harmless(s: Session, keep: nat, e: Event, after: nat) {
    Lingers(s, e, after) ==>
      forall i :: Bound(s, keep) <= i < |GetMessages(s, COMPACT_LIMIT)| ==> IsSummary(s.rows[i].role, s.rows[i].content)
  }

  ghost predicate HarmlessRun(s: Session, keep: nat, moves: seq<Move>) {
    moves != [] ==>
      var front, m := moves[..|moves| - 1], moves[|moves| - 1];
      HarmlessRun(s, keep, front) && (m.Stopped? ==> Harmless(Run(s, front), keep, m.e, m.after))
  }

  /** Archiving a prefix without clearing it is safe exactly when what it archives
    is settled. */
  lemma ArchivingIsSafeIff(s: Session, c: nat, bound: nat)
    requires Safe(s, bound) && 0 < c <= |s.rows|
    ensures Safe(Exec(s, Archive(s.rows[c - 1].id)), bound)
       <==> forall i :: 0 <= i < c && !Settled(i, bound) ==> IsSummary(s.rows[i].role, s.rows[i].content)
  {
    if i :| 0 <= i < c && !Settled(i, bound) && !IsSummary(s.rows[i].role, s.rows[i].content) {
      UnsettledIsArchived(s, c, bound, i);
    } else {
      SettledIsSafe(s, c, bound);
    }
  }

  lemma UnsettledIsArchived(s: Session, c: nat, bound: nat, i: nat)
    requires Safe(s, bound) && i < c <= |s.rows|
    requires !Settled(i, bound) && !IsSummary(s.rows[i].role, s.rows[i].content)
    ensures exists a :: a in Exec(s, Archive(s.rows[c - 1].id)).archive && a.origin == s.rows[i].origin
    ensures !Safe(Exec(s, Archive(s.rows[c - 1].id)), bound)
  {
    var before := s.rows[c - 1].id;
    var r := ArchiveInto(s.archive, s.rows, s.meta.watermark, before);
    hide ArchiveInto, IsSummary, NeverTwice;
    ArchiveIntoHas(s.archive, s.rows, s.meta.watermark, before, i);
    var a :| a in r && a.sourceId == s.rows[i].id;
    assert a !in s.archive;
    var k := NewEntry(s, c, bound, a);
    RowIs(s, bound, i, k);
  }

  lemma OtherPrefixSafe(s: Session, keep: nat, e: Event, k: nat)
    requires Safe(s, Bound(s, keep)) && !e.AutoCompact? && Harmless(s, keep, e, k)
    ensures var d := ExecAll(s, Prefix(Plan(s, e), k)); Safe(d, Bound(d, keep))
  {
    hide Safe, ArchiveInto, IsSummary, Harmless;
    var b := Bound(s, keep);
    var d := ExecAll(s, Prefix(Plan(s, e), k));
    match e
    case Post(role, content) =>
      if k > 0 {
        var add := Insert(role, content, None);
        InsertSafe(s, role, content, None, b);
        assert Prefix(Then(add, Done), k) == Then(add, Done);
        assert d == ExecAll(Exec(s, add), Done) == Exec(s, add);
        Widen(d, b, Bound(d, keep));
      }
    case ManualCompact(summary) =>
      var stored := GetMessages(s, COMPACT_LIMIT);
      if stored != [] {
        ManualPlanIs(s, summary);
        ArchiveThenClear(s, keep, e, |stored|, Plan(s, e).rest.rest, k);
      }
    case Reset(stamp) =>
      var stored := GetMessages(s, RESET_LIMIT);
      ResetPlanIs(s, stamp);
      if stored != [] {
        ArchiveThenClear(s, keep, e, |stored|, Plan(s, e).rest.rest, k);
      } else {
        ClearPrefixSafe(s, b, Plan(s, e).rest, k);
        if k > 0 { Widen(d, 0, Bound(d, keep)); }
      }
    case IdleReset =>
      SafeNext(s, b);
      ClearPrefixSafe(s, b, Plan(s, e).rest, k);
      if k > 0 { Widen(d, 0, Bound(d, keep)); }
    case OtherSessions(ids) =>
  }

  lemma ManualPlanIs(s: Session, summary: string)
    requires s.rows != [] && exists b :: Safe(s, b)
    ensures var c := |GetMessages(s, COMPACT_LIMIT)|; var p := ManualPlan(s, summary);
      && 0 < c <= |s.rows| && p.Then? && p.first == Archive(s.rows[c - 1].id)
      && p.rest.Then? && p.rest.first == Clear && IsTail(p.rest.rest, s.nextId)
  {
    hide IsSummary;
  }

  lemma ResetPlanIs(s: Session, stamp: string)
    requires exists b :: Safe(s, b)
    ensures var c := |GetMessages(s, RESET_LIMIT)|; var p := ResetPlan(s, stamp);
      if s.rows == [] then p.Then? && p.first == Clear && IsTail(p.rest, s.nextId)
      else && 0 < c <= |s.rows| && p.Then? && p.first == Archive(s.rows[c - 1].id)
           && p.rest.Then? && p.rest.first == Clear && IsTail(p.rest.rest, s.nextId)
  {
    hide IsSummary;
  }

  lemma ArchiveThenClear(s: Session, keep: nat, e: Event, c: nat, tail: Program, k: nat)
    requires Safe(s, Bound(s, keep)) && 0 < c <= |s.rows| && IsTail(tail, s.nextId)
    requires (e.ManualCompact? && c == |GetMessages(s, COMPACT_LIMIT)|)
             || (e.Reset? && c == |GetMessages(s, RESET_LIMIT)|)
    requires Plan(s, e) == Then(Archive(s.rows[c - 1].id), Then(Clear, tail))
    requires Harmless(s, keep, e, k)
    ensures var d := ExecAll(s, Prefix(Plan(s, e), k)); Safe(d, Bound(d, keep))
  {
    hide Safe, ArchiveInto, IsSummary, IsTail;
    var b := Bound(s, keep);
    var p := Plan(s, e);
    var d := ExecAll(s, Prefix(p, k));
    if k != 0 {
      var d1 := Exec(s, p.first);
      assert d == ExecAll(d1, Prefix(p.rest, k - 1));
      if k == 1 {
        assert d == d1;
        ArchivingIsSafeIff(s, c, b);
      } else {
        ArchiveSafe(s, c, b);
        ClearPrefixSafe(d1, if c > b then c else b, tail, k - 1);
        Widen(d, 0, Bound(d, keep));
      }
    }
  }

  lemma SafeNext(s: Session, bound: nat)
    requires Safe(s, bound)
    ensures 0 <= s.meta.watermark < s.nextId
  {}

  lemma MoreIds(s: Session, bound: nat, ids: nat)
    requires Safe(s, bound)
    ensures Safe(s.(nextId := s.nextId + ids), bound)
  {}

  /** A whole writer is a prefix that is not one statement short of clearing. */
  lemma WholeIsHarmless(s: Session, keep: nat, e: Event, k: nat)
    requires Prefix(Plan(s, e), k) == Plan(s, e)
    ensures Harmless(s, keep, e, k)
  {
    hide IsSummary;
    if k == 1 {
      assert Prefix(Plan(s, e), 1).Then? ==> Prefix(Plan(s, e), 1).rest.Done?;
    }
  }

  lemma MoveSafe(s: Session, keep: nat, m: Move)
    requires Safe(s, Bound(s, keep)) && (m.e.AutoCompact? ==> m.e.keep == keep)
    requires m.Stopped? ==> Harmless(s, keep, m.e, m.after)
    ensures var d := Apply(s, m); Safe(d, Bound(d, keep))
  {
    hide Safe, Harmless, Lingers, IsSummary, AutoPlan, ManualPlan, ResetPlan;
    var k := 0;
    if m.Stopped? {
      k := m.after;
    } else if m.e.OtherSessions? {
      MoreIds(s, Bound(s, keep), m.e.ids);
      return;
    } else {
      k := PrefixOfAll(Plan(s, m.e));
      WholeIsHarmless(s, keep, m.e, k);
    }
    if m.e.AutoCompact? {
      AutoPrefixSafe(s, keep, m.e.tokens, m.e.threshold, k);
    } else {
      OtherPrefixSafe(s, keep, m.e, k);
    }
  }

  // ------------------------------------------------------------ main theorems

  lemma {:induction false} RunSafe(s: Session, keep: nat, moves: seq<Move>)
    requires Safe(s, Bound(s, keep)) && FixedKeep(keep, moves) && HarmlessRun(s, keep, moves)
    ensures var d := Run(s, moves); Safe(d, Bound(d, keep))
  {
    hide Safe, Harmless, Apply;
    if moves != [] {
      var n := |moves| - 1;
      assert moves[n] in moves;
      RunSafe(s, keep, moves[..n]);
      MoveSafe(Run(s, moves[..n]), keep, moves[n]);
    }
  }

  lemma NewIsSafe(keep: nat)
    ensures Safe(NEW_SESSION, Bound(NEW_SESSION, keep))
  {}

  /** With KeepMessages fixed and only harmless stops, no message is archived twice,
    and an archived message that is still live has the id it was archived under. */
  lemma NoMessageIsArchivedTwice(keep: nat, moves: seq<Move>)
    requires FixedKeep(keep, moves) && HarmlessRun(NEW_SESSION, keep, moves)
    ensures var s := Run(NEW_SESSION, moves);
      && NeverTwice(s.archive)
      && forall m, a :: m in s.rows && a in s.archive && a.origin == m.origin ==> a.sourceId == m.id
  {
    NewIsSafe(keep);
    RunSafe(NEW_SESSION, keep, moves);
  }

  /** The one stop that can do harm. */
  predicate StopsAfterArchiving(m: Move) {
    m.Stopped? && m.after == 1 && (m.e.ManualCompact? || m.e.Reset?)
  }

  lemma {:induction false} OtherStopsAreHarmless(s: Session, keep: nat, moves: seq<Move>)
    requires forall m :: m in moves ==> !StopsAfterArchiving(m)
    ensures HarmlessRun(s, keep, moves)
  {
    hide Run;
    if moves != [] {
      OtherStopsAreHarmless(s, keep, moves[..|moves| - 1]);
      assert moves[|moves| - 1] in moves;
    }
  }

  /** With KeepMessages fixed, wherever writers stop but right after the archiving of a
    manual compaction or a /reset, no message is archived twice. */
  lemma OnlyOneStopIsHarmful(keep: nat, moves: seq<Move>)
    requires FixedKeep(keep, moves) && forall m :: m in moves ==> !StopsAfterArchiving(m)
    ensures NeverTwice(Run(NEW_SESSION, moves).archive)
  {
    OtherStopsAreHarmless(NEW_SESSION, keep, moves);
    hide Run, FixedKeep, HarmlessRun, NeverTwice;
    NoMessageIsArchivedTwice(keep, moves);
  }
}
