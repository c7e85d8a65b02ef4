/** When stopping a writer right after its archiving statement does harm. */
module MessageHarm {
  import opened Options
  import opened Sequences
  import opened MessageStore
  import opened MessageCrash
  import MessageLog

  predicate NoStops(moves: seq<Move>) { forall m :: m in moves ==> m.Whole? }

  function Posts(n: nat): (moves: seq<Move>)
    ensures |moves| == n && forall m :: m in moves ==> m == Whole(Post("user", ""))
  {
    if n == 0 then [] else Posts(n - 1) + [Whole(Post("user", ""))]
  }

  lemma {:induction false} PostsAdd(s: Session, bound: nat, n: nat)
    requires Safe(s, bound)
    ensures var d := Run(s, Posts(n));
      Safe(d, bound) && d.archive == s.archive && |d.rows| == |s.rows| + n && d.rows[..|s.rows|] == s.rows
  {
    hide Safe;
    if n == 0 {
      WholePrefix(s.rows);
    } else {
      PostsAdd(s, bound, n - 1);
      var d := Run(s, Posts(n - 1));
      assert Posts(n)[..n - 1] == Posts(n - 1);
      InsertSafe(d, "user", "", None, bound);
      var add := Insert("user", "", None);
      assert Step(d, Post("user", "")) == ExecAll(Exec(d, add), Done) == Exec(d, add);
    }
  }

  lemma {:induction false} RenumberedAt(rows: seq<Message>, id: nat, j: nat)
    requires j < |rows|
    ensures var r := MessageLog.Renumbered(rows, id); |r| == |rows| && r[j] == rows[j].(id := id + j)
    decreases |rows|
  {
    if j > 0 {
      RenumberedAt(rows[1..], id + 1, j - 1);
    } else if |rows| > 1 {
      RenumberedAt(rows[1..], id + 1, 0);
    }
  }

  lemma ManualArchives(s: Session)
    requires 0 < |s.rows| <= COMPACT_LIMIT
    ensures Step(s, ManualCompact("")).archive
         == ArchiveInto(s.archive, s.rows, s.meta.watermark, s.rows[|s.rows| - 1].id)
  {
    hide ArchiveInto;
    var p := ManualPlan(s, "");
    var d1 := Exec(s, p.first);
    var d2 := d1.(rows := []);
    var d3 := Exec(d2, p.rest.rest.first);
    assert p.rest.rest == Then(p.rest.rest.first, Done);
    assert ExecAll(s, p) == ExecAll(d1, p.rest) == ExecAll(d2, p.rest.rest) == ExecAll(d3, Done) == d3;
  }

  lemma SourcesStayOld(s: Session, bound: nat, wm: int, before: int)
    requires Safe(s, bound)
    ensures forall a :: a in ArchiveInto(s.archive, s.rows, wm, before) ==> a.sourceId < s.nextId
  {
    hide ArchiveInto;
    MessageLog.ArchivedFrom(s.archive, s.rows, wm, before);
  }

  /** What the compaction leaves of an archived row it keeps: the same message
    under a new id, above the watermark. */
  lemma KeptAgain(x: Session, bound: nat, keep: nat, i: nat)
    requires Safe(x, bound) && 0 < |GetMessages(x, COMPACT_LIMIT)| - keep <= i < |GetMessages(x, COMPACT_LIMIT)|
    ensures var y := Step(x, AutoCompact(keep, 0, 0)); var j := i - (|GetMessages(x, COMPACT_LIMIT)| - keep);
      && |y.rows| == keep + 1 && y.rows[j] == x.rows[i].(id := x.nextId + j)
      && (forall k :: 0 <= k <= keep ==> y.rows[k].id == x.nextId + k)
      && x.archive <= y.archive && (forall a :: a in y.archive ==> a.sourceId < x.nextId)
      && y.meta.watermark < x.nextId
  {
    hide Step, Safe, ArchiveInto, MessageLog.Renumbered, BuildSummary;
    MessageLog.CompactedTables(x, keep, 0, 0);
    var stored := GetMessages(x, COMPACT_LIMIT);
    var cut := |stored| - keep;
    var last := stored[cut - 1].id;
    SafeRow(x, cut - 1, bound);
    ArchiveIntoKeeps(x.archive, x.rows, x.meta.watermark, last);
    SourcesStayOld(x, bound, x.meta.watermark, last);
    RenumberedAt(stored[cut..], x.nextId, i - cut);
    var r := MessageLog.Renumbered(stored[cut..], x.nextId);
    forall k | 0 <= k < keep ensures r[k].id == x.nextId + k {
      RenumberedAt(stored[cut..], x.nextId, k);
    }
  }

  /** An unsummarised row that is archived, and that a compaction keeps, is archived
    again by the next one that reaches it. */
  lemma ArchivedAgain(x: Session, bound: nat, keep: nat, i: nat, a: Archived)
    requires Safe(x, bound) && 0 < |GetMessages(x, COMPACT_LIMIT)| - keep <= i < |GetMessages(x, COMPACT_LIMIT)|
    requires !IsSummary(x.rows[i].role, x.rows[i].content) && a in x.archive && a.origin == x.rows[i].origin
    ensures !NeverTwice(Step(Step(x, AutoCompact(keep, 0, 0)), ManualCompact("")).archive)
  {
    var y := Step(x, AutoCompact(keep, 0, 0));
    var j := i - (|GetMessages(x, COMPACT_LIMIT)| - keep);
    KeptAgain(x, bound, keep, i);
    SourceIsOld(x, bound, a);
    hide Step, IsSummary, ArchiveInto, Safe, NeverTwice;
    ManualArchives(y);
    TwoEntries(y, x.nextId, keep, j, a);
  }

  lemma SourceIsOld(s: Session, bound: nat, a: Archived)
    requires Safe(s, bound) && a in s.archive
    ensures a.sourceId < s.nextId
  {}

  /** Archiving a row whose message is archived under an older id. */
  lemma TwoEntries(y: Session, id: nat, keep: nat, j: nat, a: Archived)
    requires |y.rows| == keep + 1 && j <= keep && forall k :: 0 <= k <= keep ==> y.rows[k].id == id + k
    requires y.meta.watermark < id && forall e :: e in y.archive ==> e.sourceId < id
    requires !IsSummary(y.rows[j].role, y.rows[j].content) && a in y.archive && a.origin == y.rows[j].origin
    ensures !NeverTwice(ArchiveInto(y.archive, y.rows, y.meta.watermark, y.rows[keep].id))
  {
    hide IsSummary, ArchiveInto;
    var before := y.rows[keep].id;
    var r := ArchiveInto(y.archive, y.rows, y.meta.watermark, before);
    ArchiveIntoHas(y.archive, y.rows, y.meta.watermark, before, j);
    ArchiveIntoKeeps(y.archive, y.rows, y.meta.watermark, before);
    MessageLog.ArchivedFrom(y.archive, y.rows, y.meta.watermark, before);
    var b :| b in r && b.sourceId == y.rows[j].id;
    var m :| m in y.rows && b == AsArchived(m);
    assert m == y.rows[j];
    assert a in r && a != b && a.origin == b.origin;
  }

  lemma HarmShows(s: Session, keep: nat, e: Event, after: nat) returns (moves: seq<Move>)
    requires Safe(s, Bound(s, keep)) && Lingers(s, e, after) && !Harmless(s, keep, e, after)
    ensures FixedKeep(keep, moves) && NoStops(moves)
    ensures !NeverTwice(Run(Apply(s, Stopped(e, after)), moves).archive)
  {
    var d := Apply(s, Stopped(e, after));
    var n := |GetMessages(s, COMPACT_LIMIT)|;
    var b := Bound(s, keep);
    var i :| b <= i < n && !IsSummary(s.rows[i].role, s.rows[i].content);
    var c := LingersAre(s, b, e, after);
    hide IsSummary, Lingers, Harmless, Apply, NeverTwice;
    ArchiveSafe(s, c, b);
    UnsettledIsArchived(s, c, b, i);
    hide Safe;
    var a :| a in d.archive && a.origin == s.rows[i].origin;
    moves := PostAndCompact(d, if c > b then c else b, keep, i, a);
  }

  /** Posts until there is something to compact, and two compactions. */
  lemma PostAndCompact(d: Session, bound: nat, keep: nat, i: nat, a: Archived) returns (moves: seq<Move>)
    requires Safe(d, bound) && keep < COMPACT_LIMIT
    requires Bound(d, keep) <= i < |GetMessages(d, COMPACT_LIMIT)| && !IsSummary(d.rows[i].role, d.rows[i].content)
    requires a in d.archive && a.origin == d.rows[i].origin
    ensures FixedKeep(keep, moves) && NoStops(moves) && !NeverTwice(Run(d, moves).archive)
  {
    hide Safe, IsSummary, NeverTwice, Step, FixedKeep, NoStops, Posts, Run;
    var n := |GetMessages(d, COMPACT_LIMIT)|;
    var p := if n > keep then 0 else keep + 1 - n;
    PostsAdd(d, bound, p);
    var x := Run(d, Posts(p));
    assert x.rows[i] == x.rows[..|d.rows|][i];
    ArchivedAgain(x, bound, keep, i, a);
    moves := CompactTwice(d, p, keep);
  }

  lemma CompactTwice(d: Session, p: nat, keep: nat) returns (moves: seq<Move>)
    ensures FixedKeep(keep, moves) && NoStops(moves)
    ensures Run(d, moves) == Step(Step(Run(d, Posts(p)), AutoCompact(keep, 0, 0)), ManualCompact(""))
  {
    hide Step;
    var more := Posts(p) + [Whole(AutoCompact(keep, 0, 0))];
    moves := more + [Whole(ManualCompact(""))];
    assert more[..p] == Posts(p) && moves[..p + 1] == more;
    assert Run(d, more) == Step(Run(d, Posts(p)), AutoCompact(keep, 0, 0));
  }

  lemma LingersAre(s: Session, bound: nat, e: Event, after: nat) returns (c: nat)
    requires Safe(s, bound) && Lingers(s, e, after)
    ensures |GetMessages(s, COMPACT_LIMIT)| <= c <= |s.rows| && c > 0
    ensures Apply(s, Stopped(e, after)) == Exec(s, Archive(s.rows[c - 1].id))
  {
    c := if e.Reset? then |GetMessages(s, RESET_LIMIT)| else |GetMessages(s, COMPACT_LIMIT)|;
    if e.Reset? {
      ResetPlanIs(s, e.stamp);
    } else {
      ManualPlanIs(s, e.summary);
    }
    hide ManualPlan, ResetPlan, Safe;
    var p := Plan(s, e);
    var d := Exec(s, p.first);
    assert Prefix(p, 1) == Then(p.first, Done);
    assert ExecAll(s, Prefix(p, 1)) == ExecAll(d, Done) == d;
  }

  // --------------------------------------------------------------- the condition

  /** Stopping right after the archiving is harmless, whatever happens later, exactly
    when all that was archived and is not settled are summaries. */
  lemma StopIsHarmlessIff(s: Session, keep: nat, e: Event, after: nat)
    requires Safe(s, Bound(s, keep)) && Lingers(s, e, after)
    ensures (forall moves :: FixedKeep(keep, moves) && NoStops(moves) ==>
               NeverTwice(Run(Apply(s, Stopped(e, after)), moves).archive))
       <==> Harmless(s, keep, e, after)
  {
    assert !e.AutoCompact?;
    hide Safe, Harmless, Lingers, Apply, NeverTwice;
    var d := Apply(s, Stopped(e, after));
    if Harmless(s, keep, e, after) {
      MoveSafe(s, keep, Stopped(e, after));
      forall moves | FixedKeep(keep, moves) && NoStops(moves) ensures NeverTwice(Run(d, moves).archive) {
        WholeRunIsHarmless(d, keep, moves);
        RunSafe(d, keep, moves);
        SafeIsNeverTwice(Run(d, moves), Bound(Run(d, moves), keep));
      }
    } else {
      var moves := HarmShows(s, keep, e, after);
    }
  }

  lemma SafeIsNeverTwice(s: Session, bound: nat)
    requires Safe(s, bound)
    ensures NeverTwice(s.archive)
  {}

  lemma {:induction false} WholeRunIsHarmless(s: Session, keep: nat, moves: seq<Move>)
    requires NoStops(moves)
    ensures HarmlessRun(s, keep, moves)
  {
    OtherStopsAreHarmless(s, keep, moves);
  }

  // ------------------------------------------------------------------ an example

  function TwoPosts(): Session { Step(Step(NEW_SESSION, Post("user", "a")), Post("user", "b")) }

  lemma TwoPostsAre()
    ensures TwoPosts()
         == Session([Message(1, "user", "a", 1), Message(2, "user", "b", 2)], [], Meta(0, 0, "", 0, 0), 3)
  {
    var a, b := Insert("user", "a", None), Insert("user", "b", None);
    var s1 := Exec(NEW_SESSION, a);
    assert Step(NEW_SESSION, Post("user", "a")) == ExecAll(s1, Done) == s1;
    assert Step(s1, Post("user", "b")) == ExecAll(Exec(s1, b), Done) == Exec(s1, b);
  }

  /** Two posts, a manual compaction or a /reset stopped after its first statement,
    and two compactions: the second message is archived twice. */
  lemma StoppedWriterArchivesTwice(e: Event)
    requires e.ManualCompact? || e.Reset?
    ensures var r := ExecAll(TwoPosts(), Prefix(Plan(TwoPosts(), e), 1));
      !NeverTwice(Step(Step(r, AutoCompact(1, 0, 0)), ManualCompact("")).archive)
  {
    hide Safe, IsSummary, TwoPosts, Plan, NeverTwice, Exec, ExecAll, Step, ArchiveInto;
    var s := TwoPosts();
    TwoPostsSafe();
    var r := Apply(s, Stopped(e, 1));
    var c := LingersAre(s, 1, e, 1);
    ArchiveSafe(s, c, 1);
    UnsettledIsArchived(s, c, 1, 1);
    ArchivingKeepsRows(s, s.rows[1].id);
    var a :| a in r.archive && a.origin == s.rows[1].origin;
    ArchivedAgain(r, 2, 1, 1, a);
  }

  lemma TwoPostsSafe()
    ensures var s := TwoPosts();
      Safe(s, 1) && |s.rows| == 2 && !IsSummary(s.rows[1].role, s.rows[1].content)
  {
    TwoPostsAre();
    hide TwoPosts;
  }

  lemma ArchivingKeepsRows(s: Session, before: int)
    ensures Exec(s, Archive(before)).rows == s.rows
  {}
}
