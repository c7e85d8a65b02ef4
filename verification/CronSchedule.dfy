/** Job schedules: one-off, anchored interval and cron. */
module CronSchedule {
  import opened Options
  import Strings
  import opened CronParse
  import opened CronRun

  // ------------------------------------------------------------------ schedules

  function Wrap64(x: int): (w: int)
    ensures -Strings.MAX_INT64 - 1 <= w <= Strings.MAX_INT64
  {
    (x + Strings.MAX_INT64 + 1) % 0x1_0000_0000_0000_0000 - Strings.MAX_INT64 - 1
  }

  function Hash(id: string): (h: int)
    ensures -Strings.MAX_INT64 - 1 <= h <= Strings.MAX_INT64
  {
    if id == "" then 0 else Wrap64(Hash(id[..|id| - 1]) * 31 + id[|id| - 1] as int)
  }

  /** The host language's %, which takes the sign of the dividend. */
  function Rem(a: int, b: int): (r: int)
    requires b > 0
    ensures -b < r < b
  {
    if a >= 0 then a % b else -((-a) % b)
  }

  method StaggerOf(id: string, staggerMs: int) returns (stagger: int)
    requires staggerMs > 0
    ensures stagger == Rem(Hash(id), staggerMs) && -staggerMs < stagger < staggerMs
  {
    var hash, i := 0, 0;
    while i < |id|
      invariant i <= |id|
      invariant hash == Hash(id[..i])
    {
      hash := Wrap64(hash * 31 + id[i] as int);
      i := i + 1;
      assert id[..i][..i - 1] == id[..i - 1];
    }
    assert id[..i] == id;
    stagger := Rem(hash, staggerMs);
  }

  datatype Schedule =
    | Once(time: Option<int>)
    | Every(everyMs: int, anchorMs: int)
    | Cron(expr: string)

  /** The unstaggered next run of an interval job. */
  function Base(everyMs: int, anchorMs: int, nowMs: int): int
    requires everyMs > 0
  {
    if anchorMs <= 0 then nowMs + everyMs
    else if nowMs < anchorMs then anchorMs
    else anchorMs + ((nowMs - anchorMs) / everyMs + 1) * everyMs
  }

  predicate OnLattice(p: int, anchor: int, everyMs: int)
    requires everyMs > 0
  {
    (p - anchor) % everyMs == 0
  }

  function Stagger(id: string, staggerMs: int): int {
    if staggerMs > 0 then Rem(Hash(id), staggerMs) else 0
  }

  /** `CalculateNextRun`: 0 means that the job will not run. */
  method CalculateNextRun(id: string, schedule: Schedule, staggerMs: int, nowMs: nat) returns (next: Reply)
    ensures schedule.Cron? ==> next == NextCron(schedule.expr, nowMs)
    ensures schedule.Once? ==>
              next == (if schedule.time.Some? && schedule.time.value + Stagger(id, staggerMs) > nowMs
                       then At(schedule.time.value + Stagger(id, staggerMs)) else At(0))
    ensures schedule.Every? && schedule.everyMs <= 0 ==> next == At(0)
    ensures schedule.Every? && schedule.everyMs > 0 ==>
              var start := Base(schedule.everyMs, schedule.anchorMs, nowMs) + Stagger(id, staggerMs);
              && next.At? && next.ms > nowMs
              && OnLattice(next.ms, start, schedule.everyMs)
              && next.ms >= start && (next.ms == start || next.ms - schedule.everyMs <= nowMs)
  {
    var baseNext;
    match schedule {
      case Once(time) =>
        if time.None? { return At(0); }
        baseNext := time.value;
      case Every(everyMs, anchorMs) =>
        if everyMs <= 0 { return At(0); }
        if anchorMs > 0 {
          if nowMs < anchorMs {
            baseNext := anchorMs;
          } else {
            var elapsed := nowMs - anchorMs;
            var intervals := elapsed / everyMs;
            baseNext := anchorMs + (intervals + 1) * everyMs;
          }
        } else {
          baseNext := nowMs + everyMs;
        }
      case Cron(expr) =>
        var p := ParseExpression(expr);
        if p.None? { return At(nowMs + HOUR_MS); }
        ParsedIsWellParsed(expr);
        var r := SearchLoop(p.value, nowMs / 1000);
        match r {
          case Found(t) => return At(t * 1000);
          case Jumped(t) => return At(t * 1000);
          case Exhausted => return At(nowMs + HOUR_MS);
          case Hangs => return NoReply;
        }
    }
    if staggerMs > 0 {
      var stagger := StaggerOf(id, staggerMs);
      baseNext := baseNext + stagger;
    }
    ghost var start := baseNext;
    hide Base, Stagger;
    assert schedule.Every? ==> (start - start) % schedule.everyMs == 0;
    while baseNext <= nowMs
      invariant baseNext >= start
      invariant schedule.Every? ==> OnLattice(baseNext, start, schedule.everyMs)
      invariant baseNext == start || (schedule.Every? && baseNext - schedule.everyMs <= nowMs)
      decreases nowMs - baseNext
    {
      if schedule.Once? { return At(0); }
      NextOnLattice(baseNext, start, schedule.everyMs);
      baseNext := baseNext + schedule.everyMs;
    }
    return At(baseNext);
  }

  lemma NextOnLattice(p: int, anchor: int, everyMs: int)
    requires everyMs > 0 && OnLattice(p, anchor, everyMs)
    ensures OnLattice(p + everyMs, anchor, everyMs)
  {
    var q := (p - anchor) / everyMs;
    assert p - anchor == everyMs * q;
    Spread(q, 1, everyMs);
    Multiple(q + 1, everyMs);
  }

  lemma Multiple(k: int, m: int)
    requires m > 0
    ensures k * m % m == 0
  {
    Remainder(k * m, m, k, 0);
  }

  /** An anchored interval job: from the contract of CalculateNextRun its next run
    is on the lattice of the anchor, at most an interval and the stagger late, and
    without stagger the least lattice point after now and not before the anchor. */
  lemma AnchoredRuns(everyMs: int, anchorMs: int, stagger: int, nowMs: nat, next: int)
    requires everyMs > 0 && anchorMs > 0
    requires var start := Base(everyMs, anchorMs, nowMs) + stagger;
      next > nowMs && OnLattice(next, start, everyMs) && next >= start && (next == start || next - everyMs <= nowMs)
    ensures OnLattice(next, anchorMs + stagger, everyMs)
    ensures var late := if stagger >= 0 then stagger else -stagger;
      next <= (if nowMs < anchorMs then anchorMs else nowMs) + everyMs + late
    ensures stagger == 0 ==>
      forall p :: OnLattice(p, anchorMs, everyMs) && p > nowMs && p >= anchorMs ==> next <= p
  {
    var start := Base(everyMs, anchorMs, nowMs) + stagger;
    var k := if nowMs < anchorMs then 0 else (nowMs - anchorMs) / everyMs + 1;
    assert start == anchorMs + k * everyMs + stagger;
    var j := (next - start) / everyMs;
    assert next - start == everyMs * j;
    assert next - (anchorMs + stagger) == (k + j) * everyMs by {
      Spread(k, j, everyMs);
    }
    Multiple(k + j, everyMs);
    BaseIsNear(everyMs, anchorMs, nowMs);
    if stagger == 0 {
      assert next == start by {
        if next != start { assert start > nowMs; Positive(everyMs, j); }
      }
      forall p | OnLattice(p, anchorMs, everyMs) && p > nowMs && p >= anchorMs ensures next <= p {
        LeastPoint(everyMs, anchorMs, nowMs, p);
      }
    }
  }

  /** A job without an anchor: an interval and the stagger from now, or, if a negative
    stagger puts that in the past, the next time on its lattice. */
  lemma UnanchoredRuns(everyMs: int, anchorMs: int, stagger: int, nowMs: nat, next: int)
    requires everyMs > 0 && anchorMs <= 0
    requires var start := Base(everyMs, anchorMs, nowMs) + stagger;
      next > nowMs && OnLattice(next, start, everyMs) && next >= start && (next == start || next - everyMs <= nowMs)
    ensures everyMs + stagger > 0 ==> next == nowMs + everyMs + stagger
    ensures everyMs + stagger <= 0 ==> next <= nowMs + everyMs && OnLattice(next, nowMs + stagger, everyMs)
  {
    var start := nowMs + everyMs + stagger;
    var j := (next - start) / everyMs;
    assert next - start == everyMs * j;
    if next != start && start > nowMs {
      Positive(everyMs, j);
    }
    assert next - (nowMs + stagger) == (1 + j) * everyMs by {
      Spread(1, j, everyMs);
    }
    Multiple(1 + j, everyMs);
  }

  // -------------------------------------------------------------------- stagger

  /** What is left has the sign of the dividend. */
  lemma RemIs(a: int, b: int) returns (q: int)
    requires b > 0
    ensures a == q * b + Rem(a, b) && (a >= 0 ==> Rem(a, b) >= 0) && (a <= 0 ==> Rem(a, b) <= 0)
  {
    if a >= 0 {
      q := a / b;
      assert a == b * q + a % b;
    } else {
      q := -((-a) / b);
      assert -a == b * ((-a) / b) + (-a) % b;
    }
  }

  const TWO_64 := 0x1_0000_0000_0000_0000

  /** Wrapping takes off a multiple of 2^64. */
  lemma WrapIs(x: int) returns (q: int)
    ensures x == Wrap64(x) + q * TWO_64
  {
    var y := x + Strings.MAX_INT64 + 1;
    q := y / TWO_64;
  }

  lemma WrapSame(x: int, y: int, q: int)
    requires x == y + q * TWO_64
    ensures Wrap64(x) == Wrap64(y)
  {
    var u := WrapIs(x);
    var v := WrapIs(y);
    assert Wrap64(x) - Wrap64(y) == (q + v - u) * TWO_64;
  }

  function Power31(n: nat): nat { if n == 0 then 1 else 31 * Power31(n - 1) }

  /** The sum of the characters' codes, each times 31 to the number of those behind it. */
  function CodeSum(id: string): nat {
    if id == "" then 0 else id[0] as int * Power31(|id| - 1) + CodeSum(id[1..])
  }

  lemma {:induction false} CodeSumMore(id: string, c: char)
    ensures CodeSum(id + [c]) == CodeSum(id) * 31 + c as int
  {
    if id == "" {
      assert [c][1..] == "" && "" + [c] == [c];
    } else {
      CodeSumMore(id[1..], c);
      assert (id + [c])[0] == id[0] && (id + [c])[1..] == id[1..] + [c];
      TimesPower(id[0] as int, |id|);
    }
  }

  lemma TimesPower(c: nat, n: nat)
    requires n > 0
    ensures c * Power31(n) == c * Power31(n - 1) * 31
  {}

  /** The hash of an id is its code sum in 64-bit arithmetic. */
  lemma {:induction false} HashIsCodeSum(id: string)
    ensures Hash(id) == Wrap64(CodeSum(id))
  {
    if id != "" {
      var front, c := id[..|id| - 1], id[|id| - 1];
      HashIsCodeSum(front);
      assert id == front + [c];
      CodeSumMore(front, c);
      hide CodeSum;
      var q := WrapIs(CodeSum(front));
      WrapSame(Hash(front) * 31 + c as int, CodeSum(front) * 31 + c as int, -31 * q);
    }
  }

  lemma Spread(a: int, b: int, m: int)
    ensures (a + b) * m == a * m + m * b
  {}

  lemma Positive(m: int, j: int)
    requires m > 0 && m * j > 0
    ensures m * j >= m
  {}

  lemma BaseIsNear(everyMs: int, anchorMs: int, nowMs: int)
    requires everyMs > 0 && anchorMs > 0
    ensures var b := Base(everyMs, anchorMs, nowMs);
      nowMs < b && (if nowMs < anchorMs then b == anchorMs else b <= nowMs + everyMs)
  {
    if nowMs >= anchorMs {
      var e := nowMs - anchorMs;
      var q := e / everyMs;
      assert e == q * everyMs + e % everyMs;
      Spread(q, 1, everyMs);
    }
  }

  lemma LeastPoint(everyMs: int, anchorMs: int, nowMs: int, p: int)
    requires everyMs > 0 && anchorMs > 0
    requires p > nowMs && p >= anchorMs && (p - anchorMs) % everyMs == 0
    ensures Base(everyMs, anchorMs, nowMs) <= p
  {
    if nowMs >= anchorMs {
      var e := nowMs - anchorMs;
      var q := e / everyMs;
      var i := (p - anchorMs) / everyMs;
      assert e == everyMs * q + e % everyMs;
      assert p - anchorMs == everyMs * i;
      Distribute(everyMs, i, q);
      assert everyMs * i > everyMs * q;
      InOrder(everyMs, q, i);
      AtLeast(everyMs, i - q);
      Spread(q, 1, everyMs);
    }
  }

  lemma InOrder(m: int, a: int, b: int)
    requires m > 0 && m * a < m * b
    ensures a < b
  {}
}
