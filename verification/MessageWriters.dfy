/** The exact tables that the other writers leave behind. */
module MessageWriters {
  import opened Options
  import opened Sequences
  import opened MessageStore

  /** What a manual compaction leaves: its summary, if any, as the only live row, and
    a meta row that points at the last row it read. */
  function Compacted(s: Session, summary: string): Session {
    var stored := GetMessages(s, COMPACT_LIMIT);
    if stored == [] then s
    else
      var last := stored[|stored| - 1].id;
      Session(if summary == "" then [] else [Message(s.nextId, "system", "[summary]\n" + summary, s.nextId)],
              ArchiveInto(s.archive, s.rows, s.meta.watermark, last),
              Meta(s.meta.totalTokens, s.meta.compactionCount + 1, summary, last, s.meta.flushCount),
              if summary == "" then s.nextId else s.nextId + 1)
  }

  /** What a /reset leaves: its marker as the only live row; the watermark stays. */
  function WasReset(s: Session, stamp: string): Session {
    var stored := GetMessages(s, RESET_LIMIT);
    Session([Message(s.nextId, "system", "[session reset] " + stamp, s.nextId)],
            if stored == [] then s.archive
            else ArchiveInto(s.archive, s.rows, s.meta.watermark, stored[|stored| - 1].id),
            Meta(s.meta.totalTokens, 0, "", s.meta.watermark, s.meta.flushCount),
            s.nextId + 1)
  }

  lemma OneThen(s: Session, first: Statement, rest: Program)
    ensures ExecAll(s, Then(first, rest)) == ExecAll(Exec(s, first), rest)
    ensures ExecAll(s, Done) == s
  {
    hide Exec;
  }

  lemma AddsSummary(s: Session, summary: string, rest: Program)
    requires s.rows == []
    ensures ExecAll(s, AddSummary(summary, rest))
         == ExecAll(if summary == "" then s
                    else s.(rows := [Message(s.nextId, "system", "[summary]\n" + summary, s.nextId)],
                            nextId := s.nextId + 1), rest)
  {
    hide ExecAll;
    if summary != "" {
      var content := "[summary]\n" + summary;
      var row := Message(s.nextId, "system", content, s.nextId);
      assert s.rows + [row] == [row];
      assert Exec(s, Insert("system", content, None)) == s.(rows := [row], nextId := s.nextId + 1);
      OneThen(s, Insert("system", content, None), rest);
    }
  }

  lemma ManualTables(s: Session, summary: string)
    ensures Step(s, ManualCompact(summary)) == Compacted(s, summary)
  {
    var stored := GetMessages(s, COMPACT_LIMIT);
    var p := ManualPlan(s, summary);
    hide ArchiveInto, AddSummary, ExecAll;
    OneThen(s, Clear, Done);
    if stored != [] {
      var last := stored[|stored| - 1].id;
      var row := s.meta.(watermark := last, compactionCount := s.meta.compactionCount + 1, lastSummary := summary);
      var d1 := Exec(s, Archive(last));
      var d2 := Exec(d1, Clear);
      OneThen(s, Archive(last), p.rest);
      OneThen(d1, Clear, p.rest.rest);
      AddsSummary(d2, summary, Then(PutMeta(row), Done));
      var added := Message(s.nextId, "system", "[summary]\n" + summary, s.nextId);
      var d3 := if summary == "" then d2 else d2.(rows := [added], nextId := s.nextId + 1);
      OneThen(d3, PutMeta(row), Done);
      OneThen(Exec(d3, PutMeta(row)), Clear, Done);
    }
  }

  lemma ResetTables(s: Session, stamp: string)
    ensures Step(s, Reset(stamp)) == WasReset(s, stamp)
  {
    var stored := GetMessages(s, RESET_LIMIT);
    var p := ResetPlan(s, stamp);
    hide ArchiveInto, ExecAll;
    var d1, rest := s, p;
    if stored != [] {
      d1, rest := Exec(s, p.first), p.rest;
      OneThen(s, p.first, p.rest);
    }
    var d2 := Exec(d1, rest.first);
    var d3 := Exec(d2, rest.rest.first);
    var d4 := Exec(d3, rest.rest.rest.first);
    OneThen(d1, rest.first, rest.rest);
    OneThen(d2, rest.rest.first, rest.rest.rest);
    OneThen(d3, rest.rest.rest.first, Done);
    OneThen(d4, Clear, Done);
  }

  /** The reset of an idle session archives nothing and zeroes the watermark. */
  lemma IdleTables(s: Session)
    ensures Step(s, IdleReset) == Session([], s.archive, Meta(0, 0, "", 0, s.meta.flushCount), s.nextId)
  {
    var p := IdlePlan(s);
    hide ExecAll;
    var d1 := Exec(s, p.first);
    OneThen(s, p.first, p.rest);
    OneThen(d1, p.rest.first, Done);
    OneThen(Exec(d1, p.rest.first), Clear, Done);
  }

  /** What archiving adds, row by row: each selected row whose id is not archived yet,
    under its id, behind what was there. */
  lemma {:induction false} ArchivedRows(archive: seq<Archived>, rows: seq<Message>, watermark: int, beforeId: int)
    ensures var r := ArchiveInto(archive, rows, watermark, beforeId);
      && archive <= r
      && (forall i :: 0 <= i < |rows| && watermark < rows[i].id <= beforeId && !IsSummary(rows[i].role, rows[i].content)
            ==> exists a :: a in r && a.sourceId == rows[i].id)
      && (forall a :: a in r && a !in archive ==>
            exists i :: 0 <= i < |rows| && watermark < rows[i].id <= beforeId
                        && !IsSummary(rows[i].role, rows[i].content)
                        && a == Archived(rows[i].id, rows[i].role, rows[i].content, rows[i].origin))
  {
    hide IsSummary;
    if rows != [] {
      var n := |rows| - 1;
      var front := rows[..n];
      ArchivedRows(archive, front, watermark, beforeId);
      var done, r := ArchiveInto(archive, front, watermark, beforeId), ArchiveInto(archive, rows, watermark, beforeId);
      assert done <= r && (r == done || r == done + [AsArchived(rows[n])]);
      assert r != done ==> r[|done|] == AsArchived(rows[n]);
      forall a | a in r && a !in archive
        ensures exists i :: 0 <= i < |rows| && watermark < rows[i].id <= beforeId
                            && !IsSummary(rows[i].role, rows[i].content)
                            && a == Archived(rows[i].id, rows[i].role, rows[i].content, rows[i].origin)
      {
        if a in done {
          var i :| 0 <= i < |front| && watermark < front[i].id <= beforeId
                   && !IsSummary(front[i].role, front[i].content)
                   && a == Archived(front[i].id, front[i].role, front[i].content, front[i].origin);
          assert rows[i] == front[i];
        } else {
          assert a == AsArchived(rows[n]);
        }
      }
      forall i | 0 <= i < |rows| && watermark < rows[i].id <= beforeId && !IsSummary(rows[i].role, rows[i].content)
        ensures exists a :: a in r && a.sourceId == rows[i].id
      {
        if i < n {
          assert front[i] == rows[i];
          var a :| a in done && a.sourceId == rows[i].id;
          assert a in r;
        }
      }
    }
  }
}
