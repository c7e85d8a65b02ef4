/** The search for the next run of a cron expression, over UTC seconds from 1970.

  The source's loop advances one minute (five fields) or one second (six fields)
  at a time and jumps over whole months when a single day is listed. */
module CronSearch {
  import opened Options
  import opened Calendar

  const DAY := 86400
  const WEEK := 604800

  /** The parsed lists; `dayWild` and `weekdayWild` record a literal `*`. */
  datatype Fields = Fields(seconds: seq<int>, minutes: seq<int>, hours: seq<int>, days: seq<int>,
                           months: seq<int>, weekdays: seq<int>, dayWild: bool, weekdayWild: bool, step: nat)

  predicate InRange(xs: seq<int>, lo: int, hi: int) {
    xs != [] && forall i :: 0 <= i < |xs| ==> lo <= xs[i] <= hi
  }

  /** What the parser guarantees of the lists it returns. */
  ghost predicate WellParsed(f: Fields) {
    && InRange(f.seconds, 0, 59) && InRange(f.minutes, 0, 59) && InRange(f.hours, 0, 23)
    && InRange(f.days, 1, 31) && InRange(f.months, 1, 12) && InRange(f.weekdays, 0, 6)
    && (f.dayWild ==> |f.days| == 31 && forall d :: 1 <= d <= 31 ==> d in f.days)
    && (f.weekdayWild ==> forall w :: 0 <= w <= 6 ==> w in f.weekdays)
    && (f.step == 1 || (f.step == 60 && f.seconds == [0]))
  }

  // ---------------------------------------------------------------- the rule

  function DayOf(t: nat): nat { t / DAY }

  function MonthAt(t: nat): (m: nat)
    ensures 1 <= m <= 12
  {
    MonthNumber(MonthOf(DayOf(t)))
  }

  function HourAt(t: nat): nat { t % DAY / 3600 }
  function MinuteAt(t: nat): nat { t % 3600 / 60 }
  function SecondAt(t: nat): nat { t % 60 }

  /** If both day fields are restricted, either may match; otherwise each
    restricted one must. */
  predicate DayRule(f: Fields, day: nat) {
    if !f.dayWild && !f.weekdayWild then
      DayOfMonth(day) in f.days || Weekday(day) in f.weekdays
    else
      && (f.dayWild || DayOfMonth(day) in f.days)
      && (f.weekdayWild || Weekday(day) in f.weekdays)
  }

  predicate Matches(f: Fields, t: nat) {
    && MonthAt(t) in f.months
    && DayRule(f, DayOf(t))
    && HourAt(t) in f.hours && MinuteAt(t) in f.minutes && SecondAt(t) in f.seconds
  }

  // -------------------------------------------------------------- the search

  /** time.Date: a day past the end of the month runs into the next one. */
  function DateAt(month: nat, day: nat, second: nat): nat
    requires 1 <= day
  {
    (MonthStart(month) + day - 1) * DAY + second
  }

  function FirstSecond(f: Fields): nat
    requires WellParsed(f)
  {
    f.hours[0] * 3600 + f.minutes[0] * 60 + f.seconds[0]
  }

  function NextMonth(f: Fields, t: nat): nat
    requires WellParsed(f)
  {
    DateAt(MonthOf(DayOf(t)) + 1, f.days[0], FirstSecond(f))
  }

  /** The month jump, given at most `rounds` rounds. */
  function Jump(f: Fields, t: nat, rounds: nat): Option<nat>
    requires WellParsed(f)
    decreases rounds, f
  {
    if MonthAt(t) in f.months then Some(t)
    else if rounds == 0 then None
    else Jump(f, NextMonth(f, t), rounds - 1)
  }

  const JUMP_ROUNDS: nat := 96

  datatype Outcome =
    | Found(time: nat)
    | Jumped(time: nat)
    | Exhausted
    | Hangs

  function JumpOutcome(f: Fields, t: nat): Outcome
    requires WellParsed(f)
  {
    var r := Jump(f, t, JUMP_ROUNDS);
    if r.Some? then Jumped(r.value) else Hangs
  }

  function SearchFrom(f: Fields, t: nat, n: nat): Outcome
    requires WellParsed(f)
    decreases n, f
  {
    if n == 0 then Exhausted
    else
      var u := t + f.step;
      if MonthAt(u) !in f.months && |f.days| == 1 then JumpOutcome(f, u)
      else if Matches(f, u) then Found(u)
      else SearchFrom(f, u, n - 1)
  }

  predicate IsSpecific(f: Fields) {
    |f.months| == 1 || |f.days| == 1 || |f.hours| == 1
  }

  function MaxIterations(f: Fields): nat {
    if IsSpecific(f) then (if f.step == 1 then 31 * DAY else 44640)
    else (if f.step == 1 then WEEK else 10080)
  }

  /** `now` truncated to the step. */
  function Truncated(f: Fields, now: nat): nat
    requires WellParsed(f)
  {
    now - now % f.step
  }

  function Search(f: Fields, now: nat): Outcome
    requires WellParsed(f)
  {
    SearchFrom(f, Truncated(f, now), MaxIterations(f))
  }

  // ------------------------------------------------------- the search is right

  function After(f: Fields, t: nat, i: nat): nat {
    if f.step == 60 then t + 60 * i else t + i
  }

  /** A step the search goes past. */
  ghost predicate Passed(f: Fields, u: nat) {
    !Matches(f, u) && (|f.days| == 1 ==> MonthAt(u) in f.months)
  }

  ghost predicate PassedUpTo(f: Fields, t: nat, k: nat) {
    forall i :: 1 <= i <= k ==> Passed(f, After(f, t, i))
  }

  /** The outcome of a search that takes step u after passing the earlier ones. */
  ghost predicate StopsAt(f: Fields, u: nat, r: Outcome)
    requires WellParsed(f)
  {
    if MonthAt(u) !in f.months && |f.days| == 1 then r == JumpOutcome(f, u)
    else r == Found(u) && Matches(f, u)
  }

  /** Where the search stops, and that it passed every step on the way. */
  lemma {:induction false} SearchStops(f: Fields, t: nat, n: nat) returns (k: nat)
    requires WellParsed(f)
    ensures k <= n && PassedUpTo(f, t, k)
    ensures k == n ==> SearchFrom(f, t, n) == Exhausted
    ensures k < n ==> StopsAt(f, After(f, t, k + 1), SearchFrom(f, t, n))
    decreases n
  {
    hide Matches, JumpOutcome, MonthAt;
    k := 0;
    if n != 0 {
      var u := t + f.step;
      assert u == After(f, t, 1);
      if !(MonthAt(u) !in f.months && |f.days| == 1) && !Matches(f, u) {
        var j := SearchStops(f, u, n - 1);
        k := j + 1;
        forall i | 1 <= i <= k ensures Passed(f, After(f, t, i)) {
          if i > 1 {
            assert After(f, t, i) == After(f, u, i - 1);
          }
        }
      }
    }
  }
}
