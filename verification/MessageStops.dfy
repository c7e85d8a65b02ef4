/** What a reader still sees when a writer stops between two of its statements. */
module MessageStops {
  import opened Options
  import opened Sequences
  import opened MessageStore
  import opened MessageLog
  import opened MessageCrash

  /** The state after the first four statements of a compaction: archived, counted,
    cleared. */
  function ClearedState(s: Session, gone: seq<Message>, tokens: int): Session
    requires gone != []
  {
    Emptied(s.(meta := s.meta.(totalTokens := tokens)), gone[|gone| - 1].id, ClearedMeta(s, gone, tokens))
  }

  function ClearedMeta(s: Session, gone: seq<Message>, tokens: int): Meta
    requires gone != []
  {
    s.meta.(totalTokens := tokens, watermark := gone[|gone| - 1].id, lastSummary := BuildSummary(gone),
            compactionCount := s.meta.compactionCount + 1, flushCount := s.meta.compactionCount + 1)
  }

  lemma PrefixUnrolls(s: Session, p: Program, k: nat)
    requires k > 0 && p.Then?
    ensures ExecAll(s, Prefix(p, k)) == ExecAll(Exec(s, p.first), Prefix(p.rest, k - 1))
  {
    hide Exec;
  }

  lemma AutoPrefix(s: Session, keep: nat, tokens: int, threshold: int, k: nat)
    requires Compacts(s, keep, tokens, threshold) && k >= 4
    ensures var stored := GetMessages(s, COMPACT_LIMIT); var cut := |stored| - keep;
      var gone, kept := stored[..cut], stored[cut..];
      ExecAll(s, Prefix(AutoPlan(s, keep, tokens, threshold), k))
      == ExecAll(ClearedState(s, gone, tokens), Prefix(ReInsert(kept, AddSummary(BuildSummary(gone), Done)), k - 4))
  {
    hide ArchiveInto, BuildSummary, ReInsert, AddSummary, Prefix, ExecAll;
    var p := AutoPlan(s, keep, tokens, threshold);
    var d1 := Exec(s, p.first);
    var d2 := Exec(d1, p.rest.first);
    var d3 := Exec(d2, p.rest.rest.first);
    PrefixUnrolls(s, p, k);
    PrefixUnrolls(d1, p.rest, k - 1);
    PrefixUnrolls(d2, p.rest.rest, k - 2);
    PrefixUnrolls(d3, p.rest.rest.rest, k - 3);
  }

  lemma {:induction false} PrefixOfReInsert(keep: seq<Message>, rest: Program, j: nat)
    requires j <= |keep|
    ensures Prefix(ReInsert(keep, rest), j) == ReInsert(keep[..j], Done)
    decreases j
  {
    if j > 0 {
      PrefixOfReInsert(keep[1..], rest, j - 1);
      assert keep[..j][1..] == keep[1..][..j - 1] && keep[..j][0] == keep[0];
    }
  }

  /** A compaction that stops after the clearing and j of the messages it puts back:
    the other kept messages are gone from both tables. */
  lemma StoppedCompaction(s: Session, keep: nat, tokens: int, threshold: int, j: nat)
    requires Valid(s) && Compacts(s, keep, tokens, threshold) && j <= keep
    ensures var stored := GetMessages(s, COMPACT_LIMIT); var cut := |stored| - keep;
      Visible(ExecAll(s, Prefix(AutoPlan(s, keep, tokens, threshold), 4 + j)))
      == ArchiveTexts(s.archive) + Texts(stored[..cut]) + Texts(stored[cut..][..j])
  {
    hide Visible, ArchiveTexts, Texts, Prefix, AutoPlan, ExecAll, ReInsert, AddSummary, BuildSummary, Emptied;
    var stored := GetMessages(s, COMPACT_LIMIT);
    var cut := |stored| - keep;
    var gone, kept := stored[..cut], stored[cut..];
    AutoPrefix(s, keep, tokens, threshold, 4 + j);
    PrefixOfReInsert(kept, AddSummary(BuildSummary(gone), Done), j);
    var d1 := s.(meta := s.meta.(totalTokens := tokens));
    assert Valid(d1);
    hide Valid;
    EmptiedIsValid(d1, gone, ClearedMeta(s, gone, tokens));
    var d := ReInsertKeeps(ClearedState(s, gone, tokens), kept[..j], Done);
    ExecAllDone(d);
  }

  lemma {:induction false} TextsAreNoneIff(rows: seq<Message>)
    ensures Texts(rows) == [] <==> forall i :: 0 <= i < |rows| ==> IsSummary(rows[i].role, rows[i].content)
  {
    hide IsSummary;
    if rows != [] {
      TextsAreNoneIff(rows[..|rows| - 1]);
    }
  }

  lemma PrefixTextsIff(before: seq<Text>, stored: seq<Message>, n: nat)
    requires n <= |stored|
    ensures before + Texts(stored[..n]) == before + Texts(stored)
       <==> forall i :: n <= i < |stored| ==> IsSummary(stored[i].role, stored[i].content)
  {
    hide Texts, IsSummary;
    var back, rest := stored[..n], stored[n..];
    assert stored == back + rest;
    TextsConcat(back, rest);
    TextsAreNoneIff(rest);
    assert forall i :: 0 <= i < |rest| ==> rest[i] == stored[n + i];
    assert (forall i :: 0 <= i < |rest| ==> IsSummary(rest[i].role, rest[i].content))
      <==> forall i :: n <= i < |stored| ==> IsSummary(stored[i].role, stored[i].content) by {
      assert forall i :: n <= i < |stored| ==> stored[i] == rest[i - n];
    }
    Assoc(before, Texts(back), Texts(rest));
    AppendNothing(before + Texts(back));
  }

  lemma TextsOfPrefix(before: seq<Text>, stored: seq<Message>, cut: nat, j: nat)
    requires cut + j <= |stored|
    ensures before + Texts(stored[..cut]) + Texts(stored[cut..][..j]) == before + Texts(stored[..cut + j])
  {
    hide Texts;
    assert stored[..cut + j] == stored[..cut] + stored[cut..][..j];
    TextsConcat(stored[..cut], stored[cut..][..j]);
    Assoc(before, Texts(stored[..cut]), Texts(stored[cut..][..j]));
  }

  lemma MoreThanKept(s: Session, keep: nat, tokens: int, threshold: int)
    requires Compacts(s, keep, tokens, threshold)
    ensures |GetMessages(s, COMPACT_LIMIT)| > keep
  {}

  /** Nothing is lost by such a stop if and only if the messages that are not back yet
    are all summaries; in particular if all kept ones are back. */
  lemma StopLosesNothingIff(s: Session, keep: nat, tokens: int, threshold: int, j: nat)
    requires Valid(s) && Compacts(s, keep, tokens, threshold) && j <= keep
    ensures var stored := GetMessages(s, COMPACT_LIMIT); var cut := |stored| - keep;
      Visible(ExecAll(s, Prefix(AutoPlan(s, keep, tokens, threshold), 4 + j)))
      == ArchiveTexts(s.archive) + Texts(stored)
      <==> forall i :: cut + j <= i < |stored| ==> IsSummary(stored[i].role, stored[i].content)
  {
    hide *;
    MoreThanKept(s, keep, tokens, threshold);
    var stored := GetMessages(s, COMPACT_LIMIT);
    var cut := |stored| - keep;
    StoppedCompaction(s, keep, tokens, threshold, j);
    TextsOfPrefix(ArchiveTexts(s.archive), stored, cut, j);
    PrefixTextsIff(ArchiveTexts(s.archive), stored, cut + j);
  }

  /** Before the clearing nothing is lost: once archived, the first messages are seen
    in both tables. */
  lemma StopBeforeClearing(s: Session, keep: nat, tokens: int, threshold: int, k: nat)
    requires Valid(s) && Compacts(s, keep, tokens, threshold) && k <= 3
    ensures var stored := GetMessages(s, COMPACT_LIMIT);
      Visible(ExecAll(s, Prefix(AutoPlan(s, keep, tokens, threshold), k)))
      == ArchiveTexts(s.archive) + (if k < 2 then [] else Texts(stored[..|stored| - keep])) + Texts(s.rows)
  {
    hide ArchiveInto, ArchiveTexts, Texts, BuildSummary, ReInsert, AddSummary, Prefix, ExecAll;
    var stored := GetMessages(s, COMPACT_LIMIT);
    var gone := stored[..|stored| - keep];
    var p := AutoPlan(s, keep, tokens, threshold);
    var d1 := Exec(s, p.first);
    var d2 := Exec(d1, p.rest.first);
    var d3 := Exec(d2, p.rest.rest.first);
    assert Valid(d1) && gone == d1.rows[..|gone|];
    hide Valid;
    ArchivePrefix(d1, |gone|);
    AppendNothing(ArchiveTexts(s.archive));
    PrefixOfNone(s, p);
    PrefixOfNone(d1, p.rest);
    PrefixOfNone(d2, p.rest.rest);
    PrefixOfNone(d3, p.rest.rest.rest);
    if k > 0 { PrefixUnrolls(s, p, k); }
    if k > 1 { PrefixUnrolls(d1, p.rest, k - 1); }
    if k > 2 { PrefixUnrolls(d2, p.rest.rest, k - 2); }
  }

  lemma PrefixOfNone(s: Session, p: Program)
    ensures ExecAll(s, Prefix(p, 0)) == s
  {}

  /** What is inserted behind the clearing, and the meta row. */
  lemma TailVisible(d: Session, p: Program, k: nat)
    requires Valid(d) && IsTail(p, d.nextId)
    ensures Visible(ExecAll(d, Prefix(p, k)))
         == Visible(d) + if k > 0 && p.first.Insert? && !IsSummary(p.first.role, p.first.content)
                         then [Text(p.first.role, p.first.content)] else []
  {
    hide IsSummary, ArchiveTexts, Texts;
    AppendNothing(Visible(d));
    if k > 0 {
      PrefixUnrolls(d, p, k);
      var d1 := Exec(d, p.first);
      if p.first.Insert? {
        InsertAppends(d, p.first.role, p.first.content, None);
        if k > 1 {
          PrefixUnrolls(d1, p.rest, k - 1);
        }
      }
    }
  }

  /** A manual compaction or a /reset that stops after the clearing loses no more than
    a whole one: all it read is archived. */
  lemma OtherStopsLoseNothing(s: Session, e: Event, k: nat)
    requires Valid(s) && (e.ManualCompact? || e.Reset?) && s.rows != [] && k >= 2
    ensures var stored := GetMessages(s, if e.Reset? then RESET_LIMIT else COMPACT_LIMIT);
      Visible(ExecAll(s, Prefix(Plan(s, e), k)))
      == ArchiveTexts(s.archive) + Texts(stored) + if k > 2 then Posted(e) else []
  {
    hide ArchiveTexts, Texts, ArchiveInto, IsSummary;
    var stored := GetMessages(s, if e.Reset? then RESET_LIMIT else COMPACT_LIMIT);
    var p := Plan(s, e);
    var last := stored[|stored| - 1].id;
    var d2 := Emptied(s, last, s.meta);
    assert p.first == Archive(last) && p.rest.first == Clear;
    assert s.rows[..|stored|] == stored;
    EmptiedIsValid(s, stored, s.meta);
    PrefixUnrolls(s, p, k);
    PrefixUnrolls(Exec(s, p.first), p.rest, k - 1);
    assert Exec(Exec(s, p.first), Clear) == d2;
    assert IsTail(p.rest.rest, d2.nextId) by { assert stored[|stored| - 1] in s.rows; }
    TailVisible(d2, p.rest.rest, k - 2);
    MarkersAre(e);
  }

  lemma MarkersAre(e: Event)
    ensures e.Reset? ==> !IsSummary("system", ResetMarker(e.stamp))
    ensures e.ManualCompact? ==> IsSummary("system", "[summary]\n" + e.summary)
  {
    if e.Reset? {
      MarkersAreNotSummaries(e.stamp);
    } else if e.ManualCompact? {
      TaggedIsSummary(e.summary);
    }
  }
}
