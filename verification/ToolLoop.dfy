/** The tool-loop detector and the discipline of its caller: check once, then
  record and execute the whole batch. */
module ToolLoop {

  datatype Config = Config(maxCalls: int, timeWindow: int, sameToolLimit: int)

  const DEFAULT := Config(20, 300, 10)

  datatype Call = Call(tool: string, time: int, args: string)

  datatype Detector = Detector(calls: seq<Call>, lastTool: string, consecutive: nat)

  const NEW := Detector([], "", 0)

  /** The calls after a cutoff. */
  function Since(calls: seq<Call>, cutoff: int): seq<Call> {
    if calls == [] then []
    else
      var front := Since(calls[..|calls| - 1], cutoff);
      var last := calls[|calls| - 1];
      if last.time > cutoff then front + [last] else front
  }

  function Clean(c: Config, d: Detector, now: int): Detector {
    d.(calls := Since(d.calls, now - c.timeWindow))
  }

  function Record(c: Config, d: Detector, call: Call): Detector {
    Detector(Clean(c, d, call.time).calls + [call], call.tool,
             if call.tool == d.lastTool then d.consecutive + 1 else 1)
  }

  /** The same tool three times in a row, with the outer two's arguments equal. */
  predicate Repeats(calls: seq<Call>) {
    |calls| >= 3
    && var last3 := calls[|calls| - 3..];
       last3[0].tool == last3[2].tool && last3[0].args == last3[2].args && last3[1].tool == last3[0].tool
  }

  /** `CheckLoop` on a detector that has just been cleaned. */
  predicate Loops(c: Config, d: Detector) {
    |d.calls| >= c.maxCalls || d.consecutive >= c.sameToolLimit || Repeats(d.calls)
  }

  class ToolLoopDetector {
    const config: Config
    var calls: seq<Call>
    var lastTool: string
    var consecutiveCount: nat

    function View(): Detector
      reads this
    {
      Detector(calls, lastTool, consecutiveCount)
    }

    constructor (cfg: Config)
      ensures View() == NEW && config == if cfg.maxCalls == 0 then DEFAULT else cfg
    {
      config := if cfg.maxCalls == 0 then DEFAULT else cfg;
      calls, lastTool, consecutiveCount := [], "", 0;
    }

    method CleanupOldCalls(now: int)
      modifies this`calls
      ensures View() == Clean(config, old(View()), now)
    {
      var cutoff := now - config.timeWindow;
      var result := [];
      for i := 0 to |calls|
        invariant result == Since(calls[..i], cutoff)
      {
        assert calls[..i + 1][..i] == calls[..i];
        if calls[i].time > cutoff {
          result := result + [calls[i]];
        }
      }
      assert calls[..|calls|] == calls;
      calls := result;
    }

    method RecordCall(call: Call)
      modifies this
      ensures View() == Record(config, old(View()), call)
      ensures calls == Since(old(calls), call.time - config.timeWindow) + [call] && lastTool == call.tool
      ensures consecutiveCount == 1 + if call.tool == old(lastTool) then old(consecutiveCount) else 0
    {
      CleanupOldCalls(call.time);
      calls := calls + [call];
      if call.tool == lastTool {
        consecutiveCount := consecutiveCount + 1;
      } else {
        consecutiveCount := 1;
      }
      lastTool := call.tool;
    }

    method CheckLoop(now: int) returns (loops: bool)
      modifies this`calls
      ensures View() == Clean(config, old(View()), now)
      ensures loops == Loops(config, View())
      ensures calls == Since(old(calls), now - config.timeWindow)
      ensures loops <==>
              || |calls| >= config.maxCalls || consecutiveCount >= config.sameToolLimit
              || (|calls| >= 3
                  && calls[|calls| - 3].tool == calls[|calls| - 2].tool == calls[|calls| - 1].tool
                  && calls[|calls| - 3].args == calls[|calls| - 1].args)
    {
      CleanupOldCalls(now);
      if |calls| >= config.maxCalls {
        return true;
      }
      if consecutiveCount >= config.sameToolLimit {
        return true;
      }
      if |calls| >= 3 {
        var last3 := calls[|calls| - 3..];
        if last3[0].tool == last3[2].tool && last3[0].args == last3[2].args && last3[1].tool == last3[0].tool {
          return true;
        }
      }
      return false;
    }

    /** The part of `executeToolCalls` that talks to the detector; `executed` is
      what is then run. */
    method ExecuteToolCalls(now: int, batch: seq<Call>) returns (executed: seq<Call>)
      modifies this
      ensures (View(), executed) == Execute(config, old(View()), Batch(now, batch))
    {
      var loops := CheckLoop(now);
      if loops {
        return [];
      }
      ghost var d := View();
      for i := 0 to |batch|
        invariant View() == RecordAll(config, d, batch[..i])
      {
        assert batch[..i + 1][..i] == batch[..i];
        RecordCall(batch[i]);
      }
      assert batch[..|batch|] == batch;
      return batch;
    }
  }

  // ---------------------------------------------------------------------- runs

  /** Calls asked for together, and the time at which the detector is asked. */
  datatype Batch = Batch(asked: int, calls: seq<Call>)

  function RecordAll(c: Config, d: Detector, calls: seq<Call>): Detector {
    if calls == [] then d else Record(c, RecordAll(c, d, calls[..|calls| - 1]), calls[|calls| - 1])
  }

  function Execute(c: Config, d: Detector, b: Batch): (Detector, seq<Call>) {
    var clean := Clean(c, d, b.asked);
    if Loops(c, clean) then (clean, []) else (RecordAll(c, clean, b.calls), b.calls)
  }

  function Run(c: Config, batches: seq<Batch>): (Detector, seq<Call>) {
    if batches == [] then (NEW, [])
    else
      var (d, history) := Run(c, batches[..|batches| - 1]);
      var (next, executed) := Execute(c, d, batches[|batches| - 1]);
      (next, history + executed)
  }

  /** The clock readings of a run, in the order they are taken. */
  function Readings(batches: seq<Batch>): seq<int> {
    if batches == [] then []
    else
      var b := batches[|batches| - 1];
      Readings(batches[..|batches| - 1]) + ([b.asked] + Times(b.calls))
  }

  function Times(calls: seq<Call>): (ts: seq<int>)
    ensures |ts| == |calls| && forall i :: 0 <= i < |calls| ==> ts[i] == calls[i].time
  {
    seq(|calls|, i requires 0 <= i < |calls| => calls[i].time)
  }

  ghost predicate Ascending(ts: seq<int>) {
    forall i, j :: 0 <= i < j < |ts| ==> ts[i] <= ts[j]
  }

  // ------------------------------------------------------------- the invariant

  /** The length of the final run of one tool in a history. */
  function FinalRun(calls: seq<Call>): nat {
    if calls == [] then 0
    else if |calls| > 1 && calls[|calls| - 2].tool == calls[|calls| - 1].tool
    then FinalRun(calls[..|calls| - 1]) + 1 else 1
  }

  ghost predicate Tracks(c: Config, d: Detector, history: seq<Call>, now: int) {
    && d.calls == Since(history, now - c.timeWindow)
    && d.consecutive == FinalRun(history)
    && (history != [] ==> d.lastTool == history[|history| - 1].tool)
    && (history == [] ==> d.lastTool == "" && d.consecutive == 0)
  }

  lemma {:induction false} SinceSince(calls: seq<Call>, a: int, b: int)
    requires a <= b
    ensures Since(Since(calls, a), b) == Since(calls, b)
  {
    if calls != [] {
      var n := |calls| - 1;
      SinceSince(calls[..n], a, b);
      var front := Since(calls[..n], a);
      assert (front + [calls[n]])[..|front|] == front;
    }
  }

  /** The calls after the cutoff, each as often as it was made. */
  lemma {:induction false} SinceIs(calls: seq<Call>, cutoff: int, call: Call)
    ensures multiset(Since(calls, cutoff))[call] == if call.time > cutoff then multiset(calls)[call] else 0
  {
    if calls != [] {
      var n := |calls| - 1;
      SinceIs(calls[..n], cutoff, call);
      assert calls == calls[..n] + [calls[n]];
    }
  }

  /** On a clock that does not go back they are the end of the history. */
  lemma {:induction false} SinceIsTheEnd(calls: seq<Call>, cutoff: int)
    requires forall i, j :: 0 <= i < j < |calls| ==> calls[i].time <= calls[j].time
    ensures |Since(calls, cutoff)| <= |calls| && Since(calls, cutoff) == calls[|calls| - |Since(calls, cutoff)|..]
  {
    if calls != [] {
      var n := |calls| - 1;
      SinceIsTheEnd(calls[..n], cutoff);
      if calls[n].time <= cutoff {
        SinceNone(calls, cutoff);
      }
    }
  }

  lemma SinceMore(calls: seq<Call>, call: Call, cutoff: int)
    ensures Since(calls + [call], cutoff)
         == if call.time > cutoff then Since(calls, cutoff) + [call] else Since(calls, cutoff)
  {
    assert (calls + [call])[..|calls|] == calls;
  }

  lemma CleanTracks(c: Config, d: Detector, history: seq<Call>, now: int, later: int)
    requires Tracks(c, d, history, now) && now <= later
    ensures Tracks(c, Clean(c, d, later), history, later)
  {
    SinceSince(history, now - c.timeWindow, later - c.timeWindow);
  }

  lemma RecordTracks(c: Config, d: Detector, history: seq<Call>, now: int, call: Call)
    requires Tracks(c, d, history, now) && now <= call.time && c.timeWindow > 0
    ensures Tracks(c, Record(c, d, call), history + [call], call.time)
  {
    CleanTracks(c, d, history, now, call.time);
    SinceMore(history, call, call.time - c.timeWindow);
    assert (history + [call])[..|history|] == history;
  }

  lemma {:induction false} RecordAllTracks(c: Config, d: Detector, history: seq<Call>, now: int, calls: seq<Call>)
    requires Tracks(c, d, history, now) && c.timeWindow > 0
    requires Ascending([now] + Times(calls))
    ensures Tracks(c, RecordAll(c, d, calls), history + calls,
                   if calls == [] then now else calls[|calls| - 1].time)
  {
    hide Tracks;
    if calls == [] {
      assert history + calls == history;
    } else {
      var n := |calls| - 1;
      var ts, front := [now] + Times(calls), [now] + Times(calls[..n]);
      assert forall i :: 0 <= i < |front| ==> front[i] == ts[i];
      RecordAllTracks(c, d, history, now, calls[..n]);
      assert ts[n] <= ts[n + 1];
      RecordTracks(c, RecordAll(c, d, calls[..n]), history + calls[..n], ts[n], calls[n]);
      assert history + calls == history + calls[..n] + [calls[n]];
    }
  }

  /** The last clock reading of a batch. */
  function Clock(b: Batch): int {
    if b.calls == [] then b.asked else b.calls[|b.calls| - 1].time
  }

  /** The last clock reading that a run really took: calls that are not executed are
    not recorded. */
  function LastReading(c: Config, batches: seq<Batch>, start: int): int {
    if batches == [] then start
    else
      var b := batches[|batches| - 1];
      var executed := Execute(c, Run(c, batches[..|batches| - 1]).0, b).1;
      if executed == [] then b.asked else executed[|executed| - 1].time
  }

  /** The stored calls are those of the whole history inside the window that ends at
    the last reading, and the counter is the length of the history's final run of one tool. */
  lemma {:induction false} RunTracks(c: Config, batches: seq<Batch>, start: int)
    requires c.timeWindow > 0 && Ascending(Readings(batches))
    ensures var (d, history) := Run(c, batches); Tracks(c, d, history, LastReading(c, batches, start))
    ensures batches != [] ==> LastReading(c, batches, start) <= Clock(batches[|batches| - 1])
  {
    hide Tracks, Execute, Readings, Ascending;
    if batches == [] {
      NothingTracked(c, start);
    } else {
      var n := |batches| - 1;
      var b := batches[n];
      ReadingsSplit(batches);
      RunTracks(c, batches[..n], b.asked);
      var (d, history) := Run(c, batches[..n]);
      BatchTracks(c, d, history, LastReading(c, batches[..n], b.asked), b);
      ExecutedTimes(c, d, b);
    }
  }

  lemma NothingTracked(c: Config, now: int)
    ensures Tracks(c, NEW, [], now)
  {}

  lemma ExecutedTimes(c: Config, d: Detector, b: Batch)
    requires Ascending([b.asked] + Times(b.calls))
    ensures var executed := Execute(c, d, b).1;
      b.asked <= Clock(b) && (executed == [] || executed == b.calls)
  {
    if b.calls != [] {
      var ts := [b.asked] + Times(b.calls);
      assert ts[0] <= ts[|b.calls|];
    }
  }

  lemma AscendingParts(a: seq<int>, b: seq<int>)
    requires Ascending(a + b)
    ensures Ascending(a) && Ascending(b)
    ensures a != [] && b != [] ==> a[|a| - 1] <= b[0]
  {
    assert forall i :: 0 <= i < |a| ==> a[i] == (a + b)[i];
    assert forall i :: 0 <= i < |b| ==> b[i] == (a + b)[|a| + i];
  }

  lemma ReadingsSplit(batches: seq<Batch>)
    requires batches != [] && Ascending(Readings(batches))
    ensures var n := |batches| - 1; var b := batches[n];
      && Ascending(Readings(batches[..n])) && Ascending([b.asked] + Times(b.calls))
      && (n > 0 ==> Clock(batches[n - 1]) <= b.asked)
  {
    hide Ascending;
    var n := |batches| - 1;
    var b := batches[n];
    var front, back := Readings(batches[..n]), [b.asked] + Times(b.calls);
    assert Readings(batches) == front + back;
    AscendingParts(front, back);
    if n > 0 {
      LastOfReadings(batches[..n]);
      assert batches[..n][n - 1] == batches[n - 1];
    }
  }

  lemma LastOfReadings(batches: seq<Batch>)
    requires batches != []
    ensures var ts := Readings(batches); ts != [] && ts[|ts| - 1] == Clock(batches[|batches| - 1])
  {}

  lemma BatchTracks(c: Config, d: Detector, history: seq<Call>, now: int, b: Batch)
    requires Tracks(c, d, history, now) && now <= b.asked && c.timeWindow > 0
    requires Ascending([b.asked] + Times(b.calls))
    ensures var (next, executed) := Execute(c, d, b);
      Tracks(c, next, history + executed,
             if executed == [] then b.asked else executed[|executed| - 1].time)
  {
    CleanTracks(c, d, history, now, b.asked);
    hide Tracks, Loops;
    var clean := Clean(c, d, b.asked);
    assert history + [] == history;
    if !Loops(c, clean) {
      RecordAllTracks(c, clean, history, b.asked, b.calls);
    }
  }

  // -------------------------------------------------------------- main theorems

  /** Whether the next batch is run, from what was run before alone: not with maxCalls
    calls inside the window, not after sameToolLimit calls of one tool in a row, and not
    when the window ends with three calls of one tool, the outer two with equal arguments. */
  lemma NextRunsIff(c: Config, batches: seq<Batch>, b: Batch)
    requires c.timeWindow > 0 && Ascending(Readings(batches)) && b.calls != []
    requires batches != [] ==> Clock(batches[|batches| - 1]) <= b.asked
    ensures var history := Run(c, batches).1;
      var recent := Since(history, b.asked - c.timeWindow);
      var n := |recent|;
      Run(c, batches + [b]).1 ==
      if || n >= c.maxCalls || FinalRun(history) >= c.sameToolLimit
         || (n >= 3 && recent[n - 3].tool == recent[n - 2].tool == recent[n - 1].tool
             && recent[n - 3].args == recent[n - 1].args)
      then history else history + b.calls
  {
    hide Run, Readings, Ascending, Clock, LastReading, Since, FinalRun, RecordAll, Tracks;
    RunTracks(c, batches, b.asked);
    var (d, history) := Run(c, batches);
    var last := LastReading(c, batches, b.asked);
    assert last <= b.asked by {
      if batches == [] { NothingRead(c, b.asked); }
    }
    CleanTracks(c, d, history, last, b.asked);
    RunOneMore(c, batches, b);
    CleanIs(c, d, history, last, b.asked);
  }

  lemma NothingRead(c: Config, start: int)
    ensures LastReading(c, [], start) == start
  {}

  lemma CleanIs(c: Config, d: Detector, history: seq<Call>, last: int, now: int)
    requires Tracks(c, d, history, last) && Tracks(c, Clean(c, d, now), history, now)
    ensures Clean(c, d, now).calls == Since(history, now - c.timeWindow)
    ensures Clean(c, d, now).consecutive == FinalRun(history)
  {}

  lemma RunOneMore(c: Config, batches: seq<Batch>, b: Batch)
    ensures Run(c, batches + [b]).1 == Run(c, batches).1 + Execute(c, Run(c, batches).0, b).1
  {
    hide Execute;
    assert (batches + [b])[..|batches|] == batches;
  }

  /** The executed calls at times from lo up to but not including hi. */
  function CountIn(calls: seq<Call>, lo: int, hi: int): nat {
    if calls == [] then 0
    else CountIn(calls[..|calls| - 1], lo, hi) + if lo <= calls[|calls| - 1].time < hi then 1 else 0
  }

  lemma {:induction false} CountConcat(a: seq<Call>, b: seq<Call>, lo: int, hi: int)
    ensures CountIn(a + b, lo, hi) == CountIn(a, lo, hi) + CountIn(b, lo, hi)
  {
    if b == [] {
      assert a + b == a;
    } else {
      CountConcat(a, b[..|b| - 1], lo, hi);
      assert (a + b)[..|a + b| - 1] == a + b[..|b| - 1];
    }
  }

  lemma {:induction false} CountAtMost(calls: seq<Call>, lo: int, hi: int)
    ensures CountIn(calls, lo, hi) <= |calls|
    ensures (forall i :: 0 <= i < |calls| ==> calls[i].time >= hi) ==> CountIn(calls, lo, hi) == 0
  {
    if calls != [] {
      CountAtMost(calls[..|calls| - 1], lo, hi);
    }
  }

  lemma {:induction false} CountSince(calls: seq<Call>, cutoff: int, lo: int, hi: int)
    requires cutoff < lo
    ensures CountIn(calls, lo, hi) <= |Since(calls, cutoff)|
  {
    if calls != [] {
      CountSince(calls[..|calls| - 1], cutoff, lo, hi);
    }
  }

  ghost predicate BatchesUpTo(batches: seq<Batch>, size: nat) {
    forall i :: 0 <= i < |batches| ==> |batches[i].calls| <= size
  }

  /** Every half-open interval as long as the window holds at most maxCalls - 1 plus
    one batch of executed calls. */
  lemma {:induction false} WindowBound(c: Config, batches: seq<Batch>, size: nat, lo: int)
    requires c.timeWindow > 0 && c.maxCalls > 0 && Ascending(Readings(batches)) && BatchesUpTo(batches, size)
    ensures CountIn(Run(c, batches).1, lo, lo + c.timeWindow) <= c.maxCalls - 1 + size
  {
    if batches != [] {
      var n := |batches| - 1;
      var b := batches[n];
      var (d, history) := Run(c, batches[..n]);
      assert Run(c, batches).1 == history + Execute(c, d, b).1;
      hide Readings, Run, Execute, Ascending, Tracks, CountIn;
      ReadingsSplit(batches);
      WindowBound(c, batches[..n], size, lo);
      RunTracks(c, batches[..n], b.asked);
      var now := LastReading(c, batches[..n], b.asked);
      assert now <= b.asked && |b.calls| <= size;
      hide BatchesUpTo;
      BatchBound(c, d, history, now, b, lo);
      CountConcat(history, Execute(c, d, b).1, lo, lo + c.timeWindow);
    }
  }

  /** Either the batch adds nothing to the interval, or what came before is what the
    detector counted when it was asked. */
  lemma BatchBound(c: Config, d: Detector, history: seq<Call>, now: int, b: Batch, lo: int)
    requires c.timeWindow > 0 && c.maxCalls > 0
    requires Tracks(c, d, history, now) && now <= b.asked && Ascending([b.asked] + Times(b.calls))
    ensures var added := CountIn(Execute(c, d, b).1, lo, lo + c.timeWindow);
      added == 0 || (added <= |b.calls| && CountIn(history, lo, lo + c.timeWindow) < c.maxCalls)
  {
    var hi := lo + c.timeWindow;
    var executed := Execute(c, d, b).1;
    CountAtMost(executed, lo, hi);
    hide Repeats;
    if CountIn(executed, lo, hi) > 0 {
      CleanTracks(c, d, history, now, b.asked);
      AskedBefore(b, hi);
      CountSince(history, b.asked - c.timeWindow, lo, hi);
    }
  }

  lemma AskedBefore(b: Batch, hi: int)
    requires Ascending([b.asked] + Times(b.calls))
    requires exists i :: 0 <= i < |b.calls| && b.calls[i].time < hi
    ensures b.asked < hi
  {
    var i :| 0 <= i < |b.calls| && b.calls[i].time < hi;
    var ts := [b.asked] + Times(b.calls);
    assert ts[0] <= ts[i + 1];
  }

  /** A limit of zero or less executes nothing. */
  lemma {:induction false} NoLimitNoCalls(c: Config, batches: seq<Batch>)
    requires c.maxCalls <= 0
    ensures Run(c, batches).1 == []
  {
    if batches != [] {
      NoLimitNoCalls(c, batches[..|batches| - 1]);
    }
  }

  /** The counter is not tied to the window: once one tool has been called
    sameToolLimit times in a row, nothing is ever executed again. */
  lemma {:induction false} StuckForEver(c: Config, batches: seq<Batch>, more: seq<Batch>)
    requires Run(c, batches).0.consecutive >= c.sameToolLimit
    ensures Run(c, batches + more).1 == Run(c, batches).1
    ensures Run(c, batches + more).0.consecutive >= c.sameToolLimit
  {
    if more == [] {
      assert batches + more == batches;
    } else {
      StuckForEver(c, batches, more[..|more| - 1]);
      assert (batches + more)[..|batches + more| - 1] == batches + more[..|more| - 1];
    }
  }

  lemma {:induction false} LaterThan(ts: seq<int>) returns (t: int)
    ensures forall i :: 0 <= i < |ts| ==> ts[i] < t
  {
    t := 0;
    if ts != [] {
      t := LaterThan(ts[..|ts| - 1]);
      if t <= ts[|ts| - 1] {
        t := ts[|ts| - 1] + 1;
      }
    }
  }

  lemma {:induction false} SinceNone(calls: seq<Call>, cutoff: int)
    requires forall i :: 0 <= i < |calls| ==> calls[i].time <= cutoff
    ensures Since(calls, cutoff) == []
  {
    if calls != [] {
      SinceNone(calls[..|calls| - 1], cutoff);
    }
  }

  function OneCall(t: int): Batch { Batch(t, [Call("tool", t, "")]) }

  /** A single call is executed once the stored ones have expired, if the counter
    is below its limit. */
  lemma OneCallRuns(c: Config, d: Detector, t: int)
    requires c.timeWindow > 0 && c.maxCalls > 0 && d.consecutive < c.sameToolLimit
    requires forall i :: 0 <= i < |d.calls| ==> d.calls[i].time <= t - c.timeWindow
    ensures Execute(c, d, OneCall(t))
         == (Detector([Call("tool", t, "")], "tool", if d.lastTool == "tool" then d.consecutive + 1 else 1),
             [Call("tool", t, "")])
  {
    SinceNone(d.calls, t - c.timeWindow);
    var clean := Clean(c, d, t);
    assert clean.calls == [] && Clean(c, clean, t) == clean;
    var calls := [Call("tool", t, "")];
    assert calls[..0] == [];
    assert RecordAll(c, clean, calls) == Record(c, RecordAll(c, clean, []), calls[0]) == Record(c, clean, calls[0]);
    assert [] + calls == calls;
  }

  lemma AscendingMore(ts: seq<int>, t: int)
    requires Ascending(ts) && forall i :: 0 <= i < |ts| ==> ts[i] <= t
    ensures Ascending(ts + [t, t]) && forall i :: 0 <= i < |ts + [t, t]| ==> (ts + [t, t])[i] <= t
  {}

  lemma AppendBatch(c: Config, batches: seq<Batch>, t: int)
    ensures Run(c, batches + [OneCall(t)]).0 == Execute(c, Run(c, batches).0, OneCall(t)).0
    ensures Run(c, batches + [OneCall(t)]).1 == Run(c, batches).1 + Execute(c, Run(c, batches).0, OneCall(t)).1
    ensures Readings(batches + [OneCall(t)]) == Readings(batches) + [t, t]
  {
    hide Execute;
    assert (batches + [OneCall(t)])[..|batches|] == batches;
    assert [t] + Times([Call("tool", t, "")]) == [t, t];
  }

  /** A call asked for once everything stored has expired. */
  lemma StillRuns(c: Config, batches: seq<Batch>) returns (more: seq<Batch>)
    requires c.timeWindow > 0 && c.maxCalls > 0 && Ascending(Readings(batches))
    requires Run(c, batches).0.consecutive < c.sameToolLimit
    ensures Ascending(Readings(batches + more))
    ensures |Run(c, batches + more).1| == |Run(c, batches).1| + 1
  {
    hide Execute, Run, Readings;
    var d := Run(c, batches).0;
    var ts := Times(d.calls) + Readings(batches);
    var t := LaterThan(ts);
    assert forall i :: 0 <= i < |d.calls| ==> d.calls[i].time == ts[i];
    assert forall i :: 0 <= i < |Readings(batches)| ==> Readings(batches)[i] == ts[|d.calls| + i];
    var later := t + c.timeWindow;
    OneCallRuns(c, d, later);
    AscendingMore(Readings(batches), later);
    hide Ascending, Times;
    AppendBatch(c, batches, later);
    more := [OneCall(later)];
  }

  /** Some later call is still executed, on a clock that does not go back, if and only
    if the counter is below its limit. */
  lemma StuckIff(c: Config, batches: seq<Batch>)
    requires c.timeWindow > 0 && c.maxCalls > 0 && Ascending(Readings(batches))
    ensures (forall more :: Ascending(Readings(batches + more)) ==> Run(c, batches + more).1 == Run(c, batches).1)
       <==> Run(c, batches).0.consecutive >= c.sameToolLimit
  {
    hide Run, Readings, Ascending;
    if Run(c, batches).0.consecutive >= c.sameToolLimit {
      forall more | Ascending(Readings(batches + more)) ensures Run(c, batches + more).1 == Run(c, batches).1 {
        StuckForEver(c, batches, more);
      }
    } else {
      var more := StillRuns(c, batches);
    }
  }

  function Due(c: Config, n: nat): int {
    if n == 0 then 0 else Due(c, n - 1) + c.timeWindow + 1
  }

  /** Calls of one tool, each when the one before has expired. */
  function Spaced(c: Config, n: nat): (batches: seq<Batch>)
    ensures |batches| == n
  {
    if n == 0 then [] else Spaced(c, n - 1) + [OneCall(Due(c, n))]
  }

  /** The limit is reached for every configuration, however far apart the calls are. */
  lemma {:induction false} SpacedReaches(c: Config, n: nat)
    requires c.timeWindow > 0 && c.maxCalls > 0 && n <= c.sameToolLimit
    ensures var (d, history) := Run(c, Spaced(c, n)); var t := Due(c, n);
      && |history| == n && d.consecutive == n && (n > 0 ==> d.lastTool == "tool")
      && d.calls == (if n == 0 then [] else [Call("tool", t, "")])
    ensures Ascending(Readings(Spaced(c, n)))
    ensures forall i :: 0 <= i < |Readings(Spaced(c, n))| ==> Readings(Spaced(c, n))[i] <= Due(c, n)
  {
    hide *;
    if n == 0 {
      SpacedNone(c);
    } else {
      SpacedReaches(c, n - 1);
      SpacedMore(c, n);
      var t := Due(c, n);
      var front := Spaced(c, n - 1);
      OneCallRuns(c, Run(c, front).0, t);
      AscendingMore(Readings(front), t);
      AppendBatch(c, front, t);
    }
  }

  lemma SpacedNone(c: Config)
    ensures Run(c, Spaced(c, 0)) == (NEW, []) && NEW == Detector([], "", 0)
    ensures Readings(Spaced(c, 0)) == [] && Ascending([])
  {}

  lemma SpacedMore(c: Config, n: nat)
    requires n > 0
    ensures Spaced(c, n) == Spaced(c, n - 1) + [OneCall(Due(c, n))]
    ensures Due(c, n) == Due(c, n - 1) + c.timeWindow + 1
  {}

  /** The final run of one tool never exceeds sameToolLimit - 1 plus one batch. */
  lemma {:induction false} RunBound(c: Config, batches: seq<Batch>, size: nat)
    requires c.sameToolLimit > 0 && BatchesUpTo(batches, size)
    ensures Run(c, batches).0.consecutive <= c.sameToolLimit - 1 + size
  {
    if batches != [] {
      var n := |batches| - 1;
      RunBound(c, batches[..n], size);
      hide Since, Repeats;
      RecordsAtMost(c, Clean(c, Run(c, batches[..n]).0, batches[n].asked), batches[n].calls);
    }
  }

  lemma {:induction false} RecordsAtMost(c: Config, d: Detector, calls: seq<Call>)
    ensures RecordAll(c, d, calls).consecutive <= d.consecutive + |calls|
  {
    if calls != [] {
      RecordsAtMost(c, d, calls[..|calls| - 1]);
    }
  }
}
