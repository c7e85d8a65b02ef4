/** Compaction, archiving and resets refine an append-only log. */
module MessageLog {
  import opened Options
  import opened MessageStore
  import opened Sequences

  datatype Text = Text(role: string, content: string)

  function Texts(rows: seq<Message>): seq<Text> {
    if rows == [] then []
    else
      var front := Texts(rows[..|rows| - 1]);
      var m := rows[|rows| - 1];
      if IsSummary(m.role, m.content) then front else front + [Text(m.role, m.content)]
  }

  function ArchiveTexts(archive: seq<Archived>): seq<Text> {
    if archive == [] then []
    else
      var front := ArchiveTexts(archive[..|archive| - 1]);
      var a := archive[|archive| - 1];
      if IsSummary(a.role, a.content) then front else front + [Text(a.role, a.content)]
  }

  /** What a reader of both tables sees: the archive, then the live rows. */
  function Visible(s: Session): seq<Text> { ArchiveTexts(s.archive) + Texts(s.rows) }

  function Run(events: seq<Event>): Session {
    if events == [] then NEW_SESSION else Step(Run(events[..|events| - 1]), events[|events| - 1])
  }

  /** The non-summary messages an event adds. */
  function Posted(e: Event): seq<Text> {
    match e
    case Post(role, content) => if IsSummary(role, content) then [] else [Text(role, content)]
    case Reset(stamp) => [Text("system", ResetMarker(stamp))]
    case _ => []
  }

  /** Every non-summary message ever added, in order. */
  function Log(events: seq<Event>): seq<Text> {
    if events == [] then [] else Log(events[..|events| - 1]) + Posted(events[|events| - 1])
  }

  function Beyond(s: Session, limit: nat): seq<Text> {
    if |s.rows| <= limit then [] else Texts(s.rows[limit..])
  }

  /** The messages a step neither archives nor keeps. */
  function Lost(s: Session, e: Event): seq<Text> {
    match e
    case AutoCompact(keep, tokens, threshold) =>
      if Compacts(s, keep, tokens, threshold) then Beyond(s, COMPACT_LIMIT) else []
    case ManualCompact(_) => Beyond(s, COMPACT_LIMIT)
    case Reset(_) => Beyond(s, RESET_LIMIT)
    case IdleReset => Texts(s.rows)
    case _ => []
  }

  function LostInRun(events: seq<Event>): nat {
    if events == [] then 0
    else LostInRun(events[..|events| - 1]) + |Lost(Run(events[..|events| - 1]), events[|events| - 1])|
  }

  // -------------------------------------------------------------- invariant

  ghost predicate Increasing(rows: seq<Message>) {
    forall i, j :: 0 <= i < j < |rows| ==> rows[i].id < rows[j].id
  }

  /** Ids grow and are never reused. */
  ghost predicate Ordered(s: Session) {
    && Increasing(s.rows)
    && (forall m :: m in s.rows ==> m.id < s.nextId)
    && (forall a :: a in s.archive ==> a.sourceId < s.nextId)
    && 0 <= s.meta.watermark < s.nextId
  }

  /** Every live row is above the watermark and not yet archived. */
  ghost predicate AllLive(s: Session) {
    forall m :: m in s.rows ==> s.meta.watermark < m.id && !HasSource(s.archive, m.id)
  }

  ghost predicate Valid(s: Session) { Ordered(s) && AllLive(s) }

  // ---------------------------------------------------------- table lemmas

  lemma {:induction false} TextsConcat(a: seq<Message>, b: seq<Message>)
    ensures Texts(a + b) == Texts(a) + Texts(b)
  {
    hide IsSummary;
    if b == [] {
      assert a + b == a;
    } else {
      TextsConcat(a, b[..|b| - 1]);
      assert (a + b)[..|a + b| - 1] == a + b[..|b| - 1];
    }
  }

  /** No row of `done` has the id of a row above everything it was taken from. */
  lemma {:induction false} ArchivedFrom(archive: seq<Archived>, rows: seq<Message>, wm: int, before: int)
    ensures forall a :: a in ArchiveInto(archive, rows, wm, before) ==>
              a in archive || exists m :: m in rows && a == AsArchived(m)
  {
    hide IsSummary;
    hide HasSource;
    if rows != [] {
      var n := |rows| - 1;
      ArchivedFrom(archive, rows[..n], wm, before);
      forall a | a in ArchiveInto(archive, rows, wm, before) && a !in archive
        ensures exists m :: m in rows && a == AsArchived(m)
      {
        if a in ArchiveInto(archive, rows[..n], wm, before) {
          var m :| m in rows[..n] && a == AsArchived(m);
          assert m in rows;
        } else {
          assert a == AsArchived(rows[n]);
        }
      }
    }
  }

  lemma NotYetArchived(archive: seq<Archived>, rows: seq<Message>, m: Message, wm: int, before: int)
    requires forall x :: x in rows ==> x.id < m.id
    requires !HasSource(archive, m.id)
    ensures !HasSource(ArchiveInto(archive, rows, wm, before), m.id)
  {
    hide ArchiveInto;
    ArchivedFrom(archive, rows, wm, before);
  }

  lemma TextsOfMore(rows: seq<Message>, m: Message)
    ensures Texts(rows + [m])
         == if IsSummary(m.role, m.content) then Texts(rows) else Texts(rows) + [Text(m.role, m.content)]
  {
    hide IsSummary;
    assert (rows + [m])[..|rows|] == rows;
  }

  lemma ArchiveIntoMore(archive: seq<Archived>, rows: seq<Message>, m: Message, wm: int, before: int)
    ensures var done := ArchiveInto(archive, rows, wm, before);
      ArchiveInto(archive, rows + [m], wm, before)
      == if Selected(m, wm, before) && !HasSource(done, m.id) then done + [AsArchived(m)] else done
  {
    hide IsSummary, HasSource;
    assert (rows + [m])[..|rows|] == rows;
  }

  lemma AppendArchived(archive: seq<Archived>, done: seq<Archived>, front: seq<Message>, m: Message)
    requires ArchiveTexts(done) == ArchiveTexts(archive) + Texts(front)
    ensures ArchiveTexts(done + [AsArchived(m)]) == ArchiveTexts(archive) + Texts(front + [m])
  {
    hide IsSummary, Texts, ArchiveTexts;
    ArchiveTextsOfMore(done, AsArchived(m));
    TextsOfMore(front, m);
    Assoc(ArchiveTexts(archive), Texts(front), [Text(m.role, m.content)]);
  }

  /** Ids grow, the first `c` rows are those up to the bound, and all are above
    the watermark and not archived. */
  ghost predicate Archivable(archive: seq<Archived>, rows: seq<Message>, c: nat, wm: int, before: int) {
    && Increasing(rows) && c <= |rows|
    && (forall i :: 0 <= i < |rows| ==> (i < c <==> rows[i].id <= before))
    && (forall i :: 0 <= i < |rows| ==> wm < rows[i].id && !HasSource(archive, rows[i].id))
  }

  lemma ArchivableFront(archive: seq<Archived>, rows: seq<Message>, c: nat, wm: int, before: int)
    requires Archivable(archive, rows, c, wm, before) && rows != []
    ensures var n := |rows| - 1; var front, m := rows[..n], rows[n];
      && Archivable(archive, front, if c <= n then c else n, wm, before)
      && c <= n + 1 && (n < c <==> m.id <= before) && wm < m.id
      && !HasSource(ArchiveInto(archive, front, wm, before), m.id)
  {
    hide HasSource, ArchiveInto;
    var n := |rows| - 1;
    NotYetArchived(archive, rows[..n], rows[n], wm, before);
  }

  /** INSERT ... SELECT appends exactly the rows up to the bound. */
  lemma {:induction false} ArchiveIntoAppends(archive: seq<Archived>, rows: seq<Message>, c: nat, wm: int, before: int)
    requires Archivable(archive, rows, c, wm, before)
    ensures c <= |rows|
    ensures ArchiveTexts(ArchiveInto(archive, rows, wm, before)) == ArchiveTexts(archive) + Texts(rows[..c])
  {
    hide IsSummary, HasSource, ArchiveTexts, Texts, ArchiveInto, AsArchived;
    if rows == [] {
      NothingArchived(archive, wm, before);
      assert rows[..c] == [];
    } else {
      ArchivableFront(archive, rows, c, wm, before);
      hide Archivable;
      var n := |rows| - 1;
      var front, m := rows[..n], rows[n];
      FrontAndLast(rows);
      ArchiveIntoAppends(archive, front, if c <= n then c else n, wm, before);
      ArchiveIntoMore(archive, front, m, wm, before);
      if c <= n {
        assert front[..c] == rows[..c];
      } else {
        WholePrefix(rows);
        WholePrefix(front);
        AppendArchived(archive, ArchiveInto(archive, front, wm, before), front, m);
        if IsSummary(m.role, m.content) {
          SummariesAreSkipped(archive, ArchiveInto(archive, front, wm, before), front, m);
        }
      }
    }
  }

  lemma NothingArchived(archive: seq<Archived>, wm: int, before: int)
    ensures ArchiveTexts(ArchiveInto(archive, [], wm, before)) == ArchiveTexts(archive) + Texts([])
  {
    AppendNothing(ArchiveTexts(archive));
  }

  lemma SummariesAreSkipped(archive: seq<Archived>, done: seq<Archived>, front: seq<Message>, m: Message)
    requires ArchiveTexts(done) == ArchiveTexts(archive) + Texts(front) && IsSummary(m.role, m.content)
    ensures ArchiveTexts(done) == ArchiveTexts(archive) + Texts(front + [m])
  {
    TextsOfMore(front, m);
  }

  lemma ArchiveTextsOfMore(archive: seq<Archived>, a: Archived)
    ensures ArchiveTexts(archive + [a])
         == if IsSummary(a.role, a.content) then ArchiveTexts(archive)
            else ArchiveTexts(archive) + [Text(a.role, a.content)]
  {
    hide IsSummary;
    assert (archive + [a])[..|archive|] == archive;
  }

  // ------------------------------------------------------- statement lemmas

  lemma InsertAppends(s: Session, role: string, content: string, origin: Option<nat>)
    requires Valid(s)
    ensures var d := Exec(s, Insert(role, content, origin));
      && Valid(d) && d.meta == s.meta
      && Visible(d) == if IsSummary(role, content) then Visible(s) else Visible(s) + [Text(role, content)]
  {
    hide IsSummary, ArchiveTexts, Texts;
    var d := Exec(s, Insert(role, content, origin));
    TextsOfMore(s.rows, d.rows[|s.rows|]);
    Assoc(ArchiveTexts(s.archive), Texts(s.rows), [Text(role, content)]);
  }

  lemma ArchivePrefix(s: Session, c: nat)
    requires Valid(s) && 0 < c <= |s.rows|
    ensures var d := Exec(s, Archive(s.rows[c - 1].id));
      && 0 <= s.rows[c - 1].id < s.nextId && Ordered(d)
      && ArchiveTexts(d.archive) == ArchiveTexts(s.archive) + Texts(s.rows[..c])
  {
    hide IsSummary;
    hide HasSource;
    var before := s.rows[c - 1].id;
    ArchivedFrom(s.archive, s.rows, s.meta.watermark, before);
    ArchiveIntoAppends(s.archive, s.rows, c, s.meta.watermark, before);
  }

  lemma ClearIsValid(s: Session, row: Meta)
    requires Ordered(s) && 0 <= row.watermark < s.nextId
    ensures var d := s.(rows := [], meta := row); Valid(d) && Visible(d) == ArchiveTexts(s.archive)
  {
    hide IsSummary, ArchiveTexts;
    AppendNothing(ArchiveTexts(s.archive));
  }

  /** Putting rows back re-adds their texts in order. */
  lemma {:induction false} ReInsertKeeps(s: Session, keep: seq<Message>, rest: Program) returns (d: Session)
    requires Valid(s)
    ensures ExecAll(s, ReInsert(keep, rest)) == ExecAll(d, rest)
    ensures Valid(d) && d.meta == s.meta && Visible(d) == Visible(s) + Texts(keep)
    decreases |keep|
  {
    hide IsSummary, Valid, Visible;
    if keep == [] {
      assert Visible(s) + Texts(keep) == Visible(s);
      d := s;
    } else {
      hide Texts;
      var m := keep[0];
      InsertAppends(s, m.role, m.content, Some(m.origin));
      d := ReInsertKeeps(Exec(s, Insert(m.role, m.content, Some(m.origin))), keep[1..], rest);
      assert keep == [m] + keep[1..];
      TextsConcat([m], keep[1..]);
      TextsOfOne(m);
      Assoc(Visible(s), Texts([m]), Texts(keep[1..]));
    }
  }

  lemma TextsOfOne(m: Message)
    ensures Texts([m]) == if IsSummary(m.role, m.content) then [] else [Text(m.role, m.content)]
  {
    hide IsSummary;
    assert [m][..0] == [];
  }

  lemma MarkersAreNotSummaries(stamp: string)
    ensures !IsSummary("system", ResetMarker(stamp))
  {
    assert ResetMarker(stamp)[2] == 'e';
  }

  lemma AddSummaryAddsNothing(s: Session, summary: string, rest: Program) returns (d: Session)
    requires Valid(s)
    ensures ExecAll(s, AddSummary(summary, rest)) == ExecAll(d, rest)
    ensures Valid(d) && d.meta == s.meta && Visible(d) == Visible(s)
    ensures d.nextId >= s.nextId && d.archive == s.archive
    ensures forall m :: m in d.rows ==> m in s.rows || m.id == s.nextId
  {
    hide Visible, IsSummary;
    d := s;
    if summary != "" {
      var content := "[summary]\n" + summary;
      TaggedIsSummary(summary);
      d := Exec(s, Insert("system", content, None));
      InsertAppends(s, "system", content, None);
    }
  }

  // ------------------------------------------------------------- plan lemmas

  /** One step loses a suffix of what was visible (usually nothing), then adds what it posts. */
  ghost predicate Refines(s: Session, d: Session, lost: seq<Text>, posted: seq<Text>) {
    exists kept :: Visible(s) == kept + lost && Visible(d) == kept + posted
  }

  lemma CutRows(s: Session, limit: nat)
    ensures var stored := GetMessages(s, limit);
      Visible(s) == ArchiveTexts(s.archive) + Texts(stored) + Beyond(s, limit)
  {
    hide IsSummary;
    var stored := GetMessages(s, limit);
    if |s.rows| > limit {
      assert s.rows == stored + s.rows[limit..];
      TextsConcat(stored, s.rows[limit..]);
    }
  }

  /** The state of a compaction once the messages table is empty. */
  function Emptied(s: Session, last: nat, row: Meta): Session {
    s.(archive := Exec(s, Archive(last)).archive, rows := [], meta := row)
  }

  lemma EmptiedIsValid(s: Session, gone: seq<Message>, row: Meta)
    requires Valid(s) && gone != [] && gone <= s.rows
    requires row.watermark == gone[|gone| - 1].id || row.watermark == s.meta.watermark
    ensures var d := Emptied(s, gone[|gone| - 1].id, row);
      Valid(d) && Visible(d) == ArchiveTexts(s.archive) + Texts(gone)
  {
    hide Valid, Ordered, ArchiveTexts, Texts, Visible, ArchiveInto;
    assert s.rows[..|gone|] == gone;
    ArchivePrefix(s, |gone|);
    ValidMeta(s);
    ClearIsValid(Exec(s, Archive(gone[|gone| - 1].id)), row);
  }

  lemma CompactUnrolls(s: Session, gone: seq<Message>, keep: seq<Message>) returns (row: Meta)
    requires gone != []
    ensures row == s.meta.(watermark := gone[|gone| - 1].id, compactionCount := s.meta.compactionCount + 1,
                           lastSummary := BuildSummary(gone), flushCount := s.meta.compactionCount + 1)
    ensures ExecAll(s, CompactPlan(s.meta, gone, keep))
         == ExecAll(Emptied(s, row.watermark, row), ReInsert(keep, AddSummary(BuildSummary(gone), Done)))
  {
    hide ArchiveInto, BuildSummary, ReInsert, AddSummary;
    var p1 := CompactPlan(s.meta, gone, keep);
    row := p1.rest.first.row;
    var d1 := Exec(s, p1.first);
    var d2 := Exec(d1, p1.rest.first);
    assert ExecAll(s, p1) == ExecAll(d1, p1.rest) == ExecAll(d2, p1.rest.rest);
  }

  lemma ExecAllDone(s: Session)
    ensures ExecAll(s, Done) == s
  {}

  lemma CompactRefines(s: Session, gone: seq<Message>, keep: seq<Message>)
    requires Valid(s) && gone != [] && gone <= s.rows
    ensures var d := ExecAll(s, CompactPlan(s.meta, gone, keep));
      Valid(d) && Visible(d) == ArchiveTexts(s.archive) + Texts(gone) + Texts(keep)
  {
    hide Valid, ExecAll, CompactPlan, Visible, BuildSummary, ReInsert, AddSummary, Emptied;
    var row := CompactUnrolls(s, gone, keep);
    EmptiedIsValid(s, gone, row);
    var d3 := Emptied(s, row.watermark, row);
    var d4 := ReInsertKeeps(d3, keep, AddSummary(BuildSummary(gone), Done));
    var d := AddSummaryAddsNothing(d4, BuildSummary(gone), Done);
    ExecAllDone(d);
  }

  lemma AutoRefines(s: Session, keep: nat, tokens: int, threshold: int)
    requires Valid(s)
    ensures var e := AutoCompact(keep, tokens, threshold);
      Valid(Step(s, e)) && Refines(s, Step(s, e), Lost(s, e), [])
  {
    hide IsSummary, CompactPlan, Texts, ArchiveTexts;
    var e := AutoCompact(keep, tokens, threshold);
    var d1 := s.(meta := s.meta.(totalTokens := tokens));
    assert Valid(d1) && Visible(d1) == Visible(s);
    if Compacts(s, keep, tokens, threshold) {
      var stored := GetMessages(s, COMPACT_LIMIT);
      var cut := |stored| - keep;
      CompactRefines(d1, stored[..cut], stored[cut..]);
      assert Step(s, e) == ExecAll(d1, CompactPlan(d1.meta, stored[..cut], stored[cut..]));
      CutRows(s, COMPACT_LIMIT);
      assert stored == stored[..cut] + stored[cut..];
      TextsConcat(stored[..cut], stored[cut..]);
      assert Visible(Step(s, e)) == (ArchiveTexts(s.archive) + Texts(stored)) + [];
    } else {
      assert Step(s, e) == ExecAll(d1, Done) == d1;
      assert Visible(s) == Visible(s) + [];
    }
  }

  lemma ManualUnrolls(s: Session, summary: string, stored: seq<Message>) returns (d: Session)
    requires Valid(s) && stored == GetMessages(s, COMPACT_LIMIT) && stored != []
    ensures Valid(d) && d == Step(s, ManualCompact(summary))
    ensures Visible(d) == ArchiveTexts(s.archive) + Texts(stored)
  {
    hide Texts, ArchiveTexts, ArchiveInto, AddSummary;
    var last := stored[|stored| - 1].id;
    EmptiedIsValid(s, stored, s.meta);
    var d2 := Emptied(s, last, s.meta);
    var row := s.meta.(watermark := last, compactionCount := s.meta.compactionCount + 1, lastSummary := summary);
    var tail := Then(PutMeta(row), Done);
    var p := ManualPlan(s, summary);
    assert ExecAll(s, p) == ExecAll(Exec(s, Archive(last)), p.rest) == ExecAll(d2, AddSummary(summary, tail));
    var d3 := AddSummaryAddsNothing(d2, summary, tail);
    d := Exec(d3, PutMeta(row));
    assert ExecAll(d3, tail) == ExecAll(d, Done) == d;
    assert stored[|stored| - 1] in s.rows;
  }

  lemma ManualRefines(s: Session, summary: string)
    requires Valid(s)
    ensures var e := ManualCompact(summary);
      Valid(Step(s, e)) && Refines(s, Step(s, e), Lost(s, e), [])
  {
    hide IsSummary;
    var e := ManualCompact(summary);
    var stored := GetMessages(s, COMPACT_LIMIT);
    CutRows(s, COMPACT_LIMIT);
    var kept := ArchiveTexts(s.archive) + Texts(stored);
    if stored == [] {
      assert Visible(s) == Visible(s) + [];
    } else {
      var d := ManualUnrolls(s, summary, stored);
      assert Visible(d) == kept + [];
    }
  }

  lemma ResetRefines(s: Session, stamp: string)
    requires Valid(s)
    ensures var e := Reset(stamp);
      Valid(Step(s, e)) && Refines(s, Step(s, e), Lost(s, e), Posted(e))
  {
    hide IsSummary, Ordered, AllLive;
    var e := Reset(stamp);
    var stored := GetMessages(s, RESET_LIMIT);
    CutRows(s, RESET_LIMIT);
    var kept := ArchiveTexts(s.archive) + Texts(stored);
    var d1 := s;
    ValidMeta(s);
    if stored != [] {
      assert s.rows[..|stored|] == stored;
      ArchivePrefix(s, |stored|);
      d1 := Exec(s, Archive(stored[|stored| - 1].id));
    }
    hide Exec, ExecAll, Valid, GetMessages, Texts, ArchiveTexts;
    assert Step(s, e) == ExecAll(d1, ResetTail(s, stamp)) by { ResetUnrolls(s, stamp); }
    ResetTailRefines(s, d1, stamp);
  }

  /** What /reset does after archiving. */
  function ResetTail(s: Session, stamp: string): Program {
    Then(Clear, Then(Insert("system", ResetMarker(stamp), None),
      Then(PutMeta(s.meta.(compactionCount := 0, lastSummary := "")), Done)))
  }

  lemma ResetUnrolls(s: Session, stamp: string)
    ensures var stored := GetMessages(s, RESET_LIMIT);
      var d := if stored == [] then s else Exec(s, Archive(stored[|stored| - 1].id));
      Step(s, Reset(stamp)) == ExecAll(d, ResetTail(s, stamp))
  {
    hide Exec;
  }

  lemma ResetTailRefines(s: Session, d1: Session, stamp: string)
    requires Ordered(d1) && d1.meta == s.meta
    ensures var d := ExecAll(d1, ResetTail(s, stamp));
      Valid(d) && Visible(d) == ArchiveTexts(d1.archive) + Posted(Reset(stamp))
  {
    hide Ordered, IsSummary, Visible, ArchiveTexts;
    ValidMetaOf(d1);
    var row := s.meta.(compactionCount := 0, lastSummary := "");
    var d2 := d1.(rows := []);
    ClearIsValid(d1, d1.meta);
    var add := Insert("system", ResetMarker(stamp), None);
    InsertAppends(d2, "system", ResetMarker(stamp), None);
    MarkersAreNotSummaries(stamp);
    var d3 := Exec(d2, add);
    SameWatermarkIsValid(d3, row);
    hide Valid;
    TailUnrolls(d1, d2, d3, add, row);
  }

  lemma TailUnrolls(d1: Session, d2: Session, d3: Session, add: Statement, row: Meta)
    requires d2 == d1.(rows := []) && d3 == Exec(d2, add)
    ensures ExecAll(d1, Then(Clear, Then(add, Then(PutMeta(row), Done)))) == d3.(meta := row)
  {
    var t2 := Then(PutMeta(row), Done);
    var t1 := Then(add, t2);
    var d4 := d3.(meta := row);
    assert Exec(d1, Clear) == d2 && Exec(d3, PutMeta(row)) == d4;
    hide Exec;
    assert ExecAll(d1, Then(Clear, t1)) == ExecAll(d2, t1);
    assert ExecAll(d2, t1) == ExecAll(d3, t2);
    assert ExecAll(d3, t2) == ExecAll(d4, Done) == d4;
  }

  lemma ValidMetaOf(s: Session)
    requires Ordered(s)
    ensures 0 <= s.meta.watermark < s.nextId
  {}

  lemma ValidMeta(s: Session)
    requires Valid(s)
    ensures Ordered(s) && 0 <= s.meta.watermark < s.nextId
  {}

  lemma SameWatermarkIsValid(s: Session, row: Meta)
    requires Valid(s) && row.watermark == s.meta.watermark
    ensures Valid(s.(meta := row)) && Visible(s.(meta := row)) == Visible(s)
  {}

  lemma OtherRefines(s: Session, e: Event)
    requires Valid(s)
    requires e.Post? || e.IdleReset? || e.OtherSessions?
    ensures Valid(Step(s, e)) && Refines(s, Step(s, e), Lost(s, e), Posted(e))
  {
    hide IsSummary;
    var kept := if e.IdleReset? then ArchiveTexts(s.archive) else Visible(s);
    if e.Post? {
      InsertAppends(s, e.role, e.content, None);
      var add := Insert(e.role, e.content, None);
      assert Step(s, e) == ExecAll(Exec(s, add), Done) == Exec(s, add);
    } else if e.IdleReset? {
      var p := IdlePlan(s);
      var d := s.(rows := [], meta := p.rest.first.row);
      assert Step(s, e) == ExecAll(s.(rows := []), p.rest) == ExecAll(d, Done) == d;
    }
    assert Visible(s) == kept + Lost(s, e);
    assert Visible(Step(s, e)) == kept + Posted(e);
  }

  // ------------------------------------------------------------ main theorems

  /** Every writer keeps the invariant and changes what is visible only by
    dropping the rows it read past, then adding what it posts. */
  lemma StepRefines(s: Session, e: Event)
    requires Valid(s)
    ensures Valid(Step(s, e))
    ensures Refines(s, Step(s, e), Lost(s, e), Posted(e))
  {
    hide IsSummary;
    match e
    case AutoCompact(keep, tokens, threshold) => AutoRefines(s, keep, tokens, threshold);
    case ManualCompact(summary) => ManualRefines(s, summary);
    case Reset(stamp) => ResetRefines(s, stamp);
    case _ => OtherRefines(s, e);
  }

  lemma {:induction false} RunConserves(events: seq<Event>)
    ensures Valid(Run(events))
    ensures |Visible(Run(events))| + LostInRun(events) == |Log(events)|
  {
    hide IsSummary;
    if events != [] {
      var n := |events| - 1;
      RunConserves(events[..n]);
      StepRefines(Run(events[..n]), events[n]);
    }
  }

  /** Over every run the archive followed by the live rows is, in order, the log
    of every non-summary message ever added, exactly when no step lost a message. */
  lemma {:induction false} RunIsLog(events: seq<Event>)
    ensures Visible(Run(events)) == Log(events) <==> LostInRun(events) == 0
  {
    hide IsSummary;
    RunConserves(events);
    if events != [] && LostInRun(events) == 0 {
      var n := |events| - 1;
      RunIsLog(events[..n]);
      RunConserves(events[..n]);
      var s, e := Run(events[..n]), events[n];
      StepRefines(s, e);
      assert Lost(s, e) == [];
      var kept :| Visible(s) == kept + Lost(s, e) && Visible(Step(s, e)) == kept + Posted(e);
      assert kept + [] == kept;
    }
  }

  ghost predicate FitsTheLimits(events: seq<Event>) {
    && IdleReset !in events
    && forall i :: 0 <= i <= |events| ==> |Run(events[..i]).rows| <= COMPACT_LIMIT
  }

  /** With at most 500 live rows at each step and no idle reset, nothing is ever lost. */
  lemma {:induction false} WithinLimitsNothingIsLost(events: seq<Event>)
    requires FitsTheLimits(events)
    ensures Visible(Run(events)) == Log(events)
  {
    hide IsSummary, Visible, Log, Run;
    if events != [] {
      var n := |events| - 1;
      assert forall i :: 0 <= i <= n ==> events[..n][..i] == events[..i];
      WithinLimitsNothingIsLost(events[..n]);
      RunIsLog(events[..n]);
      assert events[n] in events;
      assert Lost(Run(events[..n]), events[n]) == [];
    }
    RunIsLog(events);
  }

  // ---------------------------------------------------------- runs that do lose

  function ManyPosts(n: nat): (events: seq<Event>)
    ensures |events| == n
  {
    if n == 0 then [] else ManyPosts(n - 1) + [Post("user", "a")]
  }

  ghost predicate AllAre(rows: seq<Message>) {
    forall i :: 0 <= i < |rows| ==> rows[i].role == "user" && rows[i].content == "a"
  }

  lemma {:induction false} ManyPostsAre(n: nat)
    ensures var s := Run(ManyPosts(n)); |s.rows| == n && AllAre(s.rows) && LostInRun(ManyPosts(n)) == 0
  {
    if n > 0 {
      ManyPostsAre(n - 1);
      assert ManyPosts(n)[..n - 1] == ManyPosts(n - 1);
      var s := Run(ManyPosts(n - 1));
      var d := Exec(s, Insert("user", "a", None));
      assert Step(s, Post("user", "a")) == ExecAll(d, Done) == d;
    }
  }

  lemma {:induction false} TextsOfAll(rows: seq<Message>)
    requires AllAre(rows)
    ensures |Texts(rows)| == |rows|
  {
    if rows != [] {
      TextsOfAll(rows[..|rows| - 1]);
    }
  }

  /** After more than 500 posts a manual compaction loses all but the first 500, and
    the reset of an idle session all there is. */
  lemma LosingRuns(n: nat)
    requires n > 0
    ensures n > COMPACT_LIMIT ==> LostInRun(ManyPosts(n) + [ManualCompact("")]) == n - COMPACT_LIMIT
    ensures n > COMPACT_LIMIT ==>
              Visible(Run(ManyPosts(n) + [ManualCompact("")])) != Log(ManyPosts(n) + [ManualCompact("")])
    ensures Visible(Run(ManyPosts(n) + [IdleReset])) != Log(ManyPosts(n) + [IdleReset])
  {
    hide IsSummary, Step, Visible, Texts, Run;
    ManyPostsAre(n);
    var s := Run(ManyPosts(n));
    TextsOfAll(s.rows);
    var idle, manual := ManyPosts(n) + [IdleReset], ManyPosts(n) + [ManualCompact("")];
    assert idle[..n] == ManyPosts(n) && manual[..n] == ManyPosts(n);
    if n > COMPACT_LIMIT {
      TextsOfAll(s.rows[COMPACT_LIMIT..]);
      assert LostInRun(manual) == n - COMPACT_LIMIT;
    }
    RunIsLog(manual);
    assert LostInRun(idle) == n;
    RunIsLog(idle);
  }

  // ---------------------------------------------------- the tables it leaves

  function Renumbered(rows: seq<Message>, id: nat): seq<Message> {
    if rows == [] then [] else [rows[0].(id := id)] + Renumbered(rows[1..], id + 1)
  }

  lemma {:induction false} ReInsertRenumbers(s: Session, keep: seq<Message>, rest: Program)
    ensures ExecAll(s, ReInsert(keep, rest))
         == ExecAll(s.(rows := s.rows + Renumbered(keep, s.nextId), nextId := s.nextId + |keep|), rest)
    decreases |keep|
  {
    if keep == [] {
      AppendNothing(s.rows);
    } else {
      var m := keep[0];
      var stmt := Insert(m.role, m.content, Some(m.origin));
      var d := Exec(s, stmt);
      assert d == s.(rows := s.rows + [m.(id := s.nextId)], nextId := s.nextId + 1);
      hide Exec;
      assert ExecAll(s, ReInsert(keep, rest)) == ExecAll(d, ReInsert(keep[1..], rest));
      ReInsertRenumbers(d, keep[1..], rest);
      Assoc(s.rows, [m.(id := s.nextId)], Renumbered(keep[1..], s.nextId + 1));
    }
  }

  lemma SummaryIsNotEmpty(rows: seq<Message>)
    requires rows != []
    ensures BuildSummary(rows) != ""
  {
    assert |SummaryLine(rows[0])| >= 2;
  }

  /** A compaction leaves the kept messages, in order and under the next ids, and a
    summary of the others; the meta row points at the last one archived. */
  lemma CompactedTables(s: Session, keep: nat, tokens: int, threshold: int)
    requires Compacts(s, keep, tokens, threshold)
    ensures var stored := GetMessages(s, COMPACT_LIMIT); var cut := |stored| - keep;
      var last := stored[cut - 1].id; var summary := BuildSummary(stored[..cut]); var id := s.nextId + keep;
      Step(s, AutoCompact(keep, tokens, threshold))
      == Session(Renumbered(stored[cut..], s.nextId) + [Message(id, "system", "[summary]\n" + summary, id)],
                 ArchiveInto(s.archive, s.rows, s.meta.watermark, last),
                 Meta(tokens, s.meta.compactionCount + 1, summary, last, s.meta.compactionCount + 1),
                 id + 1)
  {
    var stored := GetMessages(s, COMPACT_LIMIT);
    var cut := |stored| - keep;
    var gone, kept := stored[..cut], stored[cut..];
    var d1 := s.(meta := s.meta.(totalTokens := tokens));
    var tail := AddSummary(BuildSummary(gone), Done);
    assert Step(s, AutoCompact(keep, tokens, threshold)) == ExecAll(d1, CompactPlan(d1.meta, gone, kept));
    var row := CompactUnrolls(d1, gone, kept);
    var d2 := Emptied(d1, gone[cut - 1].id, row);
    SummaryIsNotEmpty(gone);
    ReInsertRenumbers(d2, kept, tail);
    hide BuildSummary, ArchiveInto, Renumbered, CompactPlan, ReInsert;
    var d3 := d2.(rows := d2.rows + Renumbered(kept, d2.nextId), nextId := d2.nextId + keep);
    var add := Insert("system", "[summary]\n" + BuildSummary(gone), None);
    assert tail == Then(add, Done);
    assert ExecAll(d3, tail) == ExecAll(Exec(d3, add), Done) == Exec(d3, add);
    assert [] + Renumbered(kept, d2.nextId) == Renumbered(kept, d2.nextId);
  }
}
