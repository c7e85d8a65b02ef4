/** The mutable tables of a session and the writers that update them statement by
  statement, proved to be the steps whose runs MessageLog and MessageCrash bound. */
module MessageTables {
  import opened Options
  import opened MessageStore
  import opened MessageWriters
  import MessageLog

  class SessionTables {
    var rows: seq<Message>
    var archive: seq<Archived>
    var meta: Meta
    var nextId: nat

    function View(): Session
      reads this
    {
      Session(rows, archive, meta, nextId)
    }

    constructor ()
      ensures View() == NEW_SESSION
    {
      rows, archive, meta, nextId := [], [], NEW_SESSION.meta, 1;
    }

    /** `origin` is Some exactly when a compaction puts an old message back. */
    method AddMessage(role: string, content: string, origin: Option<nat>)
      modifies this
      ensures View() == Exec(old(View()), Insert(role, content, origin))
      ensures rows == old(rows)
                    + [Message(old(nextId), role, content, if origin.Some? then origin.value else old(nextId))]
      ensures nextId == old(nextId) + 1 && archive == old(archive) && meta == old(meta)
    {
      var first := if origin.Some? then origin.value else nextId;
      rows := rows + [Message(nextId, role, content, first)];
      nextId := nextId + 1;
    }

    method ArchiveMessages(beforeId: int)
      modifies this`archive
      ensures View() == Exec(old(View()), Archive(beforeId))
    {
      var i := 0;
      while i < |rows|
        invariant i <= |rows|
        invariant archive == ArchiveInto(old(archive), rows[..i], meta.watermark, beforeId)
      {
        assert rows[..i + 1][..i] == rows[..i];
        var m := rows[i];
        if Selected(m, meta.watermark, beforeId) {
          var known := false;
          for j := 0 to |archive|
            invariant known <==> exists k :: 0 <= k < j && archive[k].sourceId == m.id
          {
            known := known || archive[j].sourceId == m.id;
          }
          if !known {
            archive := archive + [AsArchived(m)];
          }
        }
        i := i + 1;
      }
      assert rows[..i] == rows;
    }

    method ClearMessages()
      modifies this`rows
      ensures View() == Exec(old(View()), Clear)
    {
      rows := [];
    }

    method UpsertSessionMeta(row: Meta)
      modifies this`meta
      ensures View() == Exec(old(View()), PutMeta(row))
    {
      meta := row;
    }

    method SummaryOf(messages: seq<Message>) returns (summary: string)
      ensures summary == BuildSummary(messages)
    {
      summary := "";
      var i := |messages|;
      while i > 0
        invariant 0 <= i <= |messages|
        invariant summary == BuildSummary(messages[i..])
      {
        i := i - 1;
        assert messages[i..][1..] == messages[i + 1..];
        if i + 1 == |messages| {
          summary := SummaryLine(messages[i]);
        } else {
          summary := SummaryLine(messages[i]) + "\n" + summary;
        }
      }
    }

    /** Compacts when the token estimate reached the threshold and more messages are
      stored than are kept; loses nothing unless more than 500 rows were live. */
    method MaybeCompact(keep: nat, tokens: int, threshold: int) returns (compacted: bool)
      modifies this
      ensures View() == Step(old(View()), AutoCompact(keep, tokens, threshold))
      ensures compacted <==> Compacts(old(View()), keep, tokens, threshold)
      ensures MessageLog.Valid(old(View())) ==>
                && MessageLog.Valid(View())
                && MessageLog.Refines(old(View()), View(),
                                      MessageLog.Lost(old(View()), AutoCompact(keep, tokens, threshold)), [])
    {
      hide ArchiveInto, IsSummary, BuildSummary, MessageLog.Valid, MessageLog.Refines, MessageLog.Lost;
      ghost var before := View();
      ghost var done := Step(before, AutoCompact(keep, tokens, threshold));
      if MessageLog.Valid(before) {
        MessageLog.AutoRefines(before, keep, tokens, threshold);
      }
      ghost var plan := AutoPlan(before, keep, tokens, threshold);
      assert done == ExecAll(before, plan);
      var stored := GetMessages(View(), COMPACT_LIMIT);
      UpsertSessionMeta(meta.(totalTokens := tokens));
      assert done == ExecAll(View(), plan.rest);
      if tokens < threshold || |stored| <= keep {
        return false;
      }
      var cut := |stored| - keep;
      var gone, kept := stored[..cut], stored[cut..];
      var summary := SummaryOf(gone);
      plan := CompactPlan(meta, gone, kept);
      var last := gone[|gone| - 1].id;
      ArchiveMessages(last);
      assert done == ExecAll(View(), plan.rest);
      UpsertSessionMeta(meta.(watermark := last, compactionCount := meta.compactionCount + 1,
                              lastSummary := summary, flushCount := meta.compactionCount + 1));
      assert done == ExecAll(View(), plan.rest.rest);
      ClearMessages();
      hide CompactPlan, AutoPlan;
      var i := 0;
      while i < |kept|
        invariant i <= |kept|
        invariant done == ExecAll(View(), ReInsert(kept[i..], AddSummary(summary, Done)))
      {
        assert kept[i..][0] == kept[i] && kept[i..][1..] == kept[i + 1..];
        AddMessage(kept[i].role, kept[i].content, Some(kept[i].origin));
        i := i + 1;
      }
      assert kept[i..] == [];
      if summary != "" {
        AddMessage("system", "[summary]\n" + summary, None);
      }
      assert done == ExecAll(View(), Done);
      return true;
    }

    /** `summary` is the text the language model returned. */
    method RunCompact(summary: string)
      modifies this
      ensures View() == Step(old(View()), ManualCompact(summary)) == Compacted(old(View()), summary)
      ensures MessageLog.Valid(old(View())) ==>
                && MessageLog.Valid(View())
                && MessageLog.Refines(old(View()), View(), MessageLog.Lost(old(View()), ManualCompact(summary)), [])
    {
      hide Compacted, WasReset, ArchiveInto, IsSummary, MessageLog.Valid, MessageLog.Refines, MessageLog.Lost;
      ghost var before := View();
      ghost var done := Step(before, ManualCompact(summary));
      ManualTables(before, summary);
      if MessageLog.Valid(before) {
        MessageLog.ManualRefines(before, summary);
      }
      ghost var plan := ManualPlan(before, summary);
      assert done == ExecAll(before, plan);
      var messages := GetMessages(View(), COMPACT_LIMIT);
      if messages == [] {
        return;
      }
      var row := meta;
      var last := messages[|messages| - 1].id;
      ArchiveMessages(last);
      assert done == ExecAll(View(), plan.rest);
      row := row.(watermark := last);
      ClearMessages();
      assert done == ExecAll(View(), plan.rest.rest);
      row := row.(compactionCount := row.compactionCount + 1, lastSummary := summary);
      assert plan.rest.rest == AddSummary(summary, Then(PutMeta(row), Done));
      if summary != "" {
        AddMessage("system", "[summary]\n" + summary, None);
      }
      assert done == ExecAll(View(), Then(PutMeta(row), Done));
      UpsertSessionMeta(row);
      assert done == ExecAll(View(), Done);
    }

    method RunResetSession(stamp: string)
      modifies this
      ensures View() == Step(old(View()), Reset(stamp)) == WasReset(old(View()), stamp)
      ensures MessageLog.Valid(old(View())) ==>
                && MessageLog.Valid(View())
                && MessageLog.Refines(old(View()), View(), MessageLog.Lost(old(View()), Reset(stamp)),
                                      [MessageLog.Text("system", ResetMarker(stamp))])
    {
      hide Compacted, WasReset, ArchiveInto, IsSummary, MessageLog.Valid, MessageLog.Refines, MessageLog.Lost;
      ghost var before := View();
      ghost var done := Step(before, Reset(stamp));
      ResetTables(before, stamp);
      if MessageLog.Valid(before) {
        MessageLog.ResetRefines(before, stamp);
      }
      ghost var plan := ResetPlan(before, stamp);
      assert done == ExecAll(before, plan);
      var messages := GetMessages(View(), RESET_LIMIT);
      if |messages| > 0 {
        ArchiveMessages(messages[|messages| - 1].id);
        plan := plan.rest;
      }
      assert done == ExecAll(View(), plan);
      ClearMessages();
      assert done == ExecAll(View(), plan.rest);
      AddMessage("system", ResetMarker(stamp), None);
      assert done == ExecAll(View(), plan.rest.rest);
      UpsertSessionMeta(meta.(compactionCount := 0, lastSummary := ""));
      assert done == ExecAll(View(), Done);
    }
  }
}
