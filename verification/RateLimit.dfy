/** The fixed-window rate limiter of the store, with clocks in seconds. */
module RateLimit {

  const HOUR := 3600

  /** The row of one endpoint and key. */
  datatype Row = Row(requests: nat, windowStart: int, max: int)

  predicate Expired(r: Row, now: int) { now - r.windowStart > HOUR }

  /** The row after a check, and whether the request is allowed.  A request that
    resets the window is allowed without being counted. */
  function Check(r: Row, now: int): (Row, bool) {
    if r.max == 0 then (r, true)
    else if Expired(r, now) then (r.(requests := 0, windowStart := now), true)
    else if r.requests < r.max then (r.(requests := r.requests + 1), true)
    else (r, false)
  }

  /** The table's answer for an endpoint and key; no row means no limit. */
  datatype Entry = NoRow | Found(row: Row)

  class Limiter {
    var entry: Entry

    method SetRateLimit(max: int, now: int)
      modifies this
      ensures old(entry).NoRow? ==> entry == Found(Row(0, now, max))
      ensures old(entry).Found? ==> entry == Found(old(entry.row).(max := max))
    {
      if entry.NoRow? {
        entry := Found(Row(0, now, max));
      } else {
        entry := Found(entry.row.(max := max));
      }
    }

    method CheckRateLimit(now: int) returns (allowed: bool)
      modifies this
      ensures old(entry).NoRow? || old(entry).row.max == 0 ==> allowed && entry == old(entry)
      ensures old(entry).Found? && old(entry).row.max != 0 && now - old(entry).row.windowStart > 3600 ==>
                allowed && entry == Found(Row(0, now, old(entry).row.max))
      ensures old(entry).Found? && old(entry).row.max != 0 && now - old(entry).row.windowStart <= 3600 ==>
                var r := old(entry).row;
                && (allowed <==> r.requests < r.max)
                && entry == Found(Row(r.requests + if allowed then 1 else 0, r.windowStart, r.max))
      ensures old(entry).Found? ==> var (row, ok) := Check(old(entry).row, now); entry == Found(row) && allowed == ok
    {
      if entry.NoRow? || entry.row.max == 0 {
        return true;
      }
      var limit := entry.row;
      if now - limit.windowStart > HOUR {
        entry := Found(limit.(requests := 0, windowStart := now));
        return true;
      }
      if limit.requests < limit.max {
        entry := Found(limit.(requests := limit.requests + 1));
        return true;
      }
      return false;
    }
  }

  // ---------------------------------------------------------- sequential traces

  ghost predicate Monotone(times: seq<int>) {
    forall i, j :: 0 <= i < j < |times| ==> times[i] <= times[j]
  }

  function RunAll(r: Row, times: seq<int>): Row
    decreases |times|
  {
    if times == [] then r else RunAll(Check(r, times[0]).0, times[1..])
  }

  /** How many of the requests at times from lo to hi are allowed. */
  function Allowed(r: Row, times: seq<int>, lo: int, hi: int): nat
    decreases |times|
  {
    if times == [] then 0
    else
      var (next, ok) := Check(r, times[0]);
      (if ok && lo <= times[0] <= hi then 1 else 0) + Allowed(next, times[1..], lo, hi)
  }

  /** What the window still allows: nothing if the maximum was lowered below the count. */
  function Free(r: Row): nat { if r.requests < r.max then r.max - r.requests else 0 }

  /** A maximum of zero never refuses and never counts. */
  lemma {:induction false} ZeroIsUnlimited(r: Row, times: seq<int>, lo: int, hi: int)
    requires r.max == 0 && forall i :: 0 <= i < |times| ==> lo <= times[i] <= hi
    ensures Allowed(r, times, lo, hi) == |times| && RunAll(r, times) == r
    decreases |times|
  {
    if times != [] {
      ZeroIsUnlimited(r, times[1..], lo, hi);
    }
  }

  /** Inside one window exactly the first max - requests calls are allowed. */
  lemma {:induction false} WindowIsExact(r: Row, times: seq<int>, lo: int, hi: int)
    requires r.max > 0
    requires forall i :: 0 <= i < |times| ==> !Expired(r, times[i]) && lo <= times[i] <= hi
    ensures Allowed(r, times, lo, hi) == if |times| <= Free(r) then |times| else Free(r)
    decreases |times|
  {
    if times != [] {
      WindowIsExact(Check(r, times[0]).0, times[1..], lo, hi);
    }
  }

  /** From a reset to the next one: the resetting request and at most max more. */
  lemma ResetWindow(r: Row, now: int, times: seq<int>, hi: int)
    requires r.max > 0 && Expired(r, now)
    requires forall i :: 0 <= i < |times| ==> now <= times[i] <= now + HOUR && times[i] <= hi
    requires now <= hi
    ensures Allowed(r, [now] + times, now, hi) == 1 + if |times| <= r.max then |times| else r.max
  {
    var next := Check(r, now).0;
    WindowIsExact(next, times, now, hi);
    assert ([now] + times)[1..] == times;
  }

  /** Once the window starts inside the hour, it cannot expire within it. */
  lemma {:induction false} NoSecondReset(r: Row, times: seq<int>, lo: int)
    requires r.max > 0 && r.windowStart >= lo && Monotone(times)
    ensures Allowed(r, times, lo, lo + HOUR) <= Free(r)
    decreases |times|
  {
    if times != [] {
      if times[0] <= lo + HOUR {
        NoSecondReset(Check(r, times[0]).0, times[1..], lo);
      } else {
        NothingAfter(r, times, lo, lo + HOUR);
      }
    }
  }

  lemma {:induction false} NothingAfter(r: Row, times: seq<int>, lo: int, hi: int)
    requires Monotone(times) && (times != [] ==> times[0] > hi)
    ensures Allowed(r, times, lo, hi) == 0
    decreases |times|
  {
    if times != [] {
      NothingAfter(Check(r, times[0]).0, times[1..], lo, hi);
    }
  }

  lemma {:induction false} FromWithin(r: Row, times: seq<int>, lo: int)
    requires r.max > 0 && Monotone(times)
    requires times != [] ==> times[0] >= lo
    ensures Allowed(r, times, lo, lo + HOUR) <= Free(r) + 1 + r.max
    decreases |times|
  {
    if times != [] {
      if times[0] > lo + HOUR {
        NothingAfter(r, times, lo, lo + HOUR);
      } else if Expired(r, times[0]) {
        NoSecondReset(Check(r, times[0]).0, times[1..], lo);
      } else {
        FromWithin(Check(r, times[0]).0, times[1..], lo);
      }
    }
  }

  /** Over any trace with a fixed limit, no closed hour allows more than 2 max + 1. */
  lemma {:induction false} AnyHour(r: Row, times: seq<int>, lo: int)
    requires r.max > 0 && Monotone(times)
    ensures Allowed(r, times, lo, lo + HOUR) <= 2 * r.max + 1
    decreases |times|
  {
    if times != [] {
      if times[0] < lo {
        AnyHour(Check(r, times[0]).0, times[1..], lo);
      } else {
        FromWithin(r, times, lo);
      }
    }
  }

  function Repeat(t: int, n: nat): (times: seq<int>)
    ensures |times| == n && forall i :: 0 <= i < n ==> times[i] == t
  {
    seq(n, i => t)
  }

  lemma {:induction false} AllowedConcat(r: Row, a: seq<int>, b: seq<int>, lo: int, hi: int)
    ensures Allowed(r, a + b, lo, hi) == Allowed(r, a, lo, hi) + Allowed(RunAll(r, a), b, lo, hi)
    decreases |a|
  {
    if a == [] {
      assert a + b == b;
    } else {
      AllowedConcat(Check(r, a[0]).0, a[1..], b, lo, hi);
      assert (a + b)[1..] == a[1..] + b;
    }
  }

  lemma {:induction false} FillsUp(r: Row, times: seq<int>)
    requires r.max > 0 && r.requests + |times| <= r.max
    requires forall i :: 0 <= i < |times| ==> !Expired(r, times[i])
    ensures RunAll(r, times) == r.(requests := r.requests + |times|)
    decreases |times|
  {
    if times != [] {
      FillsUp(Check(r, times[0]).0, times[1..]);
    }
  }

  /** The bound is attained: max requests as the window ends, one that resets it a
    second later, and max more. */
  lemma TheBoundIsAttained(max: int)
    requires max > 0
    ensures var times := Repeat(HOUR, max) + ([HOUR + 1] + Repeat(HOUR + 1, max));
      Monotone(times) && Allowed(Row(0, 0, max), times, HOUR, HOUR + HOUR) == 2 * max + 1
  {
    var r := Row(0, 0, max);
    var first, second := Repeat(HOUR, max), Repeat(HOUR + 1, max);
    AllowedConcat(r, first, [HOUR + 1] + second, HOUR, HOUR + HOUR);
    WindowIsExact(r, first, HOUR, HOUR + HOUR);
    FillsUp(r, first);
    var full := Row(max, 0, max);
    var reset := Check(full, HOUR + 1).0;
    WindowIsExact(reset, second, HOUR, HOUR + HOUR);
    assert ([HOUR + 1] + second)[1..] == second;
  }
}
