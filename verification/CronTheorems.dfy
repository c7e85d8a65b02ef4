/** What the cron search returns: the earliest match, within the iteration limits. */
module CronTheorems {
  import opened Options
  import opened Calendar
  import opened CronSearch

  // --------------------------------------------------------- clock arithmetic

  lemma ClockOf(day: nat, h: nat, m: nat, s: nat)
    requires h <= 23 && m <= 59 && s <= 59
    ensures var t := day * DAY + h * 3600 + m * 60 + s;
      DayOf(t) == day && HourAt(t) == h && MinuteAt(t) == m && SecondAt(t) == s && t % 60 == s
  {
    var t := day * DAY + h * 3600 + m * 60 + s;
    var w := h * 3600 + m * 60 + s;
    assert w < DAY;
    assert t / DAY == day && t % DAY == w;
    assert t % 3600 == m * 60 + s by {
      assert t == (day * 24 + h) * 3600 + (m * 60 + s);
    }
    assert t % 60 == s by {
      assert t == (day * 1440 + h * 60 + m) * 60 + s;
    }
  }

  lemma TruncatedBounds(f: Fields, now: nat)
    requires WellParsed(f)
    ensures var t := Truncated(f, now);
      t <= now < t + f.step && (f.step == 60 ==> t % 60 == 0)
  {
    if f.step == 60 {
      assert (now - now % 60) % 60 == 0;
    }
  }

  lemma StepTo(f: Fields, t: nat, u: nat) returns (i: nat)
    requires WellParsed(f)
    requires t < u && (f.step == 60 ==> t % 60 == 0 && u % 60 == 0)
    ensures 1 <= i && After(f, t, i) == u && i <= u - t
    ensures f.step == 60 ==> i * 60 == u - t
  {
    hide InRange;
    i := if f.step == 60 then (u - t) / 60 else u - t;
    if f.step == 60 {
      WholeMinutes(t, u);
    }
  }

  lemma WholeMinutes(t: nat, u: nat)
    requires t < u && t % 60 == 0 && u % 60 == 0
    ensures (u - t) / 60 * 60 == u - t && (u - t) / 60 >= 1
  {}

  // -------------------------------------------------------- no fallback, twice

  /** Some time in the week after t has the given weekday and clock time. */
  lemma WeekWitness(t: nat, wd: nat, w: nat) returns (day: nat)
    requires wd <= 6 && w < DAY
    ensures t < day * DAY + w <= t + WEEK && Weekday(day) == wd
  {
    var a := (wd + 3) % 7;
    var c := a * DAY + w;
    var q := if t < c then 0 else (t - c) / WEEK + 1;
    day := 7 * q + a;
    assert (day + 4) % 7 == (a + 4) % 7 == wd;
    assert day * DAY + w == q * WEEK + c;
  }

  lemma MatchWithin(f: Fields, t: nat, k: nat, day: nat)
    requires WellParsed(f) && PassedUpTo(f, t, k)
    requires f.step == 60 ==> t % 60 == 0
    requires var u := day * DAY + FirstSecond(f);
      t < u && (if f.step == 60 then u - t <= 60 * k else u - t <= k)
    ensures !(MonthOf(day) % 12 + 1 in f.months && DayRule(f, day))
    ensures |f.days| == 1 ==> MonthOf(day) % 12 + 1 in f.months
  {
    hide DayRule;
    var u := day * DAY + FirstSecond(f);
    ClockOf(day, f.hours[0], f.minutes[0], f.seconds[0]);
    assert u == day * DAY + f.hours[0] * 3600 + f.minutes[0] * 60 + f.seconds[0];
    var i := StepTo(f, t, u);
    assert Passed(f, After(f, t, i));
  }

  /** The search falls back only after passing every step. */
  lemma FallsBackOnly(f: Fields, now: nat)
    requires WellParsed(f)
    ensures var r := Search(f, now); var n := MaxIterations(f);
      && (r.Exhausted? ==> PassedUpTo(f, Truncated(f, now), n))
      && (|f.days| > 1 ==> r.Exhausted? || r.Found?)
  {
    hide Matches, PassedUpTo;
    var k := SearchStops(f, Truncated(f, now), MaxIterations(f));
  }

  /** With wildcard day and month a match always comes within a week, which is
    within either limit: the search never falls back. */
  lemma WildcardNeverFallsBack(f: Fields, now: nat)
    requires WellParsed(f) && f.dayWild && forall m :: 1 <= m <= 12 ==> m in f.months
    ensures Search(f, now).Found?
  {
    hide Search, PassedUpTo;
    var t := Truncated(f, now);
    TruncatedBounds(f, now);
    FallsBackOnly(f, now);
    if Search(f, now).Exhausted? {
      var day := WeekWitness(t, f.weekdays[0], FirstSecond(f));
      assert DayRule(f, day) && MonthOf(day) % 12 + 1 in f.months;
      MatchWithin(f, t, MaxIterations(f), day);
    }
  }

  /** A single day up to the 28th occurs within 31 days, unless a month outside
    the list comes first, and then the jump takes over. */
  lemma SingleDayNeverFallsBack(f: Fields, now: nat)
    requires WellParsed(f) && |f.days| == 1 && f.days[0] <= 28
    ensures !Search(f, now).Exhausted?
  {
    hide Search, PassedUpTo;
    var t := Truncated(f, now);
    TruncatedBounds(f, now);
    FallsBackOnly(f, now);
    if Search(f, now).Exhausted? {
      var day := DayWitness(t, f.days[0], FirstSecond(f));
      assert DayOfMonth(day) in f.days && DayRule(f, day);
      MatchWithin(f, t, MaxIterations(f), day);
    }
  }

  /** Some time in the 31 days after t has the given day and clock time. */
  lemma DayWitness(t: nat, d: nat, w: nat) returns (day: nat)
    requires 1 <= d <= 28 && w < DAY
    ensures t < day * DAY + w <= t + 31 * DAY && DayOfMonth(day) == d
  {
    var q := if t < w then 0 else (t - w) / DAY + 1;
    assert t < q * DAY + w <= t + DAY;
    var j := DayOccurs(q, d);
    day := q + j;
  }

  // ------------------------------------------------------------ the month jump

  /** The longest a month with this number can be. */
  function LongestMonth(m: int): int {
    if m == 2 then 29 else if m == 4 || m == 6 || m == 9 || m == 11 then 30 else 31
  }

  /** Some listed month has the day in some year. */
  ghost predicate DayFits(f: Fields)
    requires WellParsed(f)
  {
    exists m :: m in f.months && f.days[0] <= LongestMonth(m)
  }

  lemma DateAtDay(f: Fields, k: nat)
    requires WellParsed(f)
    ensures var day := MonthStart(k) + f.days[0] - 1;
      DayOf(DateAt(k, f.days[0], FirstSecond(f))) == day && DateAt(k, f.days[0], FirstSecond(f)) >= day * DAY
  {
    var day := MonthStart(k) + f.days[0] - 1;
    ClockOf(day, f.hours[0], f.minutes[0], f.seconds[0]);
    assert DateAt(k, f.days[0], FirstSecond(f)) == day * DAY + f.hours[0] * 3600 + f.minutes[0] * 60 + f.seconds[0];
  }

  lemma DayListed(f: Fields)
    requires WellParsed(f)
    ensures 1 <= f.days[0] <= 31
  {}

  lemma ShortMonthsBeforeLong(k: nat)
    requires MonthLength(k) < 31
    ensures MonthLength(k + 1) == 31 && MonthStart(k + 2) == MonthStart(k + 1) + 31
  {}

  /** One round lands in the next month, or in the one after when the next is too
    short for the day. */
  lemma NextMonthLands(f: Fields, t: nat)
    requires WellParsed(f)
    ensures var k := MonthOf(DayOf(t)) + 1;
      var landing := if f.days[0] <= MonthLength(k) then k else k + 1;
      && MonthOf(DayOf(NextMonth(f, t))) == landing
      && f.days[0] <= MonthLength(landing)
      && NextMonth(f, t) > t
  {
    hide MonthOf;
    var k := MonthOf(DayOf(t)) + 1;
    var day := MonthStart(k) + f.days[0] - 1;
    assert DayOf(NextMonth(f, t)) == day && NextMonth(f, t) >= day * DAY by { DateAtDay(f, k); }
    assert t < (DayOf(t) + 1) * DAY;
    assert 1 <= f.days[0] <= 31 by { DayListed(f); }
    hide WellParsed, NextMonth, DayOf, MonthLength;
    if f.days[0] <= MonthLength(k) {
      MonthOfIs(day, k);
    } else {
      ShortMonthsBeforeLong(k);
      MonthOfIs(day, k + 1);
    }
  }

  /** The first month after `from` that is listed and long enough. */
  lemma GoodMonthComes(f: Fields, from: nat) returns (k: nat)
    requires WellParsed(f) && DayFits(f)
    ensures from < k <= from + JUMP_ROUNDS
    ensures MonthNumber(k) in f.months && f.days[0] <= MonthLength(k)
    ensures f.days[0] <= 28 ==> k <= from + 12
  {
    var m :| m in f.months && f.days[0] <= LongestMonth(m);
    if m == 2 && f.days[0] == 29 {
      var year := LeapYearComes(Year(from) - 1);
      k := (year - 1970) * 12 + 1;
      if k <= from {
        year := LeapYearComes(Year(from));
        k := (year - 1970) * 12 + 1;
      }
      assert MonthNumber(k) == 2 && Year(k) == year;
    } else {
      k := from + 1 + (m - 1 + 12 - (from + 1) % 12) % 12;
      assert MonthNumber(k) == m;
    }
  }

  /** Enough rounds reach a listed month. */
  lemma {:induction false} JumpArrives(f: Fields, t: nat, k: nat, rounds: nat)
    requires WellParsed(f)
    requires MonthNumber(k) in f.months && f.days[0] <= MonthLength(k)
    requires MonthOf(DayOf(t)) <= k <= MonthOf(DayOf(t)) + rounds
    ensures Jump(f, t, rounds).Some?
    decreases rounds
  {
    hide WellParsed, NextMonth, DayOf, MonthOf, MonthLength, MonthNumber;
    if MonthAt(t) !in f.months {
      NextMonthLands(f, t);
      JumpArrives(f, NextMonth(f, t), k, rounds - 1);
    }
  }

  /** If no listed month ever has the day, no number of rounds is enough. */
  lemma {:induction false} JumpNeverArrives(f: Fields, t: nat, rounds: nat)
    requires WellParsed(f) && !DayFits(f)
    requires MonthAt(t) !in f.months
    ensures Jump(f, t, rounds) == None
    decreases rounds
  {
    hide WellParsed, NextMonth, DayOf, MonthOf;
    if rounds != 0 {
      NextMonthLands(f, t);
      JumpNeverArrives(f, NextMonth(f, t), rounds - 1);
    }
  }

  lemma {:induction false} MoreRounds(f: Fields, t: nat, a: nat, b: nat)
    requires WellParsed(f) && a <= b && Jump(f, t, a).Some?
    ensures Jump(f, t, b) == Jump(f, t, a)
    decreases a
  {
    hide WellParsed, NextMonth, DayOf, MonthOf, MonthLength, MonthNumber;
    if MonthAt(t) !in f.months {
      MoreRounds(f, NextMonth(f, t), a - 1, b - 1);
    }
  }

  /** The month loop ends exactly when some listed month has the day in some year:
    then within 96 rounds, or 12 for a day up to the 28th, and with any more rounds
    the answer is the same. */
  lemma JumpEndsIff(f: Fields, t: nat)
    requires WellParsed(f) && MonthAt(t) !in f.months
    ensures DayFits(f) ==> Jump(f, t, JUMP_ROUNDS).Some? && (f.days[0] <= 28 ==> Jump(f, t, 12).Some?)
    ensures DayFits(f) ==> forall rounds :: rounds >= JUMP_ROUNDS ==> Jump(f, t, rounds) == Jump(f, t, JUMP_ROUNDS)
    ensures !DayFits(f) ==> forall rounds :: Jump(f, t, rounds) == None
    ensures JumpOutcome(f, t).Hangs? <==> forall rounds :: Jump(f, t, rounds) == None
  {
    if DayFits(f) {
      var k := GoodMonthComes(f, MonthOf(DayOf(t)));
      JumpArrives(f, t, k, JUMP_ROUNDS);
      if f.days[0] <= 28 {
        JumpArrives(f, t, k, 12);
      }
      forall rounds: nat | rounds >= JUMP_ROUNDS ensures Jump(f, t, rounds) == Jump(f, t, JUMP_ROUNDS) {
        MoreRounds(f, t, JUMP_ROUNDS, rounds);
      }
    } else {
      forall rounds: nat ensures Jump(f, t, rounds) == None {
        JumpNeverArrives(f, t, rounds);
      }
    }
  }

  /** Where a jump arrives: in a listed month, with no listed month between, at the
    listed day and first clock time when the day is at most 28. */
  lemma {:induction false} JumpLands(f: Fields, t: nat, rounds: nat)
    requires WellParsed(f) && f.days[0] <= 28 && MonthAt(t) !in f.months
    requires Jump(f, t, rounds).Some?
    ensures var u := Jump(f, t, rounds).value; var k := MonthOf(DayOf(u));
      && u > t && k > MonthOf(DayOf(t))
      && MonthNumber(k) in f.months
      && u == DateAt(k, f.days[0], FirstSecond(f))
      && forall j :: MonthOf(DayOf(t)) <= j < k ==> MonthNumber(j) !in f.months
    decreases rounds
  {
    hide WellParsed, DateAt, FirstSecond, DayOf, MonthOf, MonthLength, MonthNumber;
    NextMonthLands(f, t);
    var v := NextMonth(f, t);
    if MonthAt(v) !in f.months {
      JumpLands(f, v, rounds - 1);
    }
  }

  // ---------------------------------------------------------- the right answer

  lemma LandingMatchesDay(f: Fields, k: nat)
    requires WellParsed(f) && |f.days| == 1 && f.days[0] <= MonthLength(k) && MonthNumber(k) in f.months
    ensures Matches(f, DateAt(k, f.days[0], FirstSecond(f)))
  {
    var day := MonthStart(k) + f.days[0] - 1;
    MonthOfIs(day, k);
    ClockOf(day, f.hours[0], f.minutes[0], f.seconds[0]);
    assert DateAt(k, f.days[0], FirstSecond(f)) == day * DAY + f.hours[0] * 3600 + f.minutes[0] * 60 + f.seconds[0];
    assert f.days[0] in f.days && f.hours[0] in f.hours && f.minutes[0] in f.minutes && f.seconds[0] in f.seconds;
  }

  /** A returned match is a real one, strictly later than now. */
  lemma ResultIsAMatch(f: Fields, now: nat)
    requires WellParsed(f)
    ensures var r := Search(f, now);
      && (r.Found? ==> r.time > now && Matches(f, r.time))
      && (r.Jumped? ==> r.time > now && MonthAt(r.time) in f.months)
      && (r.Jumped? && f.days[0] <= 28 ==> Matches(f, r.time))
  {
    var t := Truncated(f, now);
    TruncatedBounds(f, now);
    var n := MaxIterations(f);
    var k := SearchStops(f, t, n);
    if k < n {
      var u := After(f, t, k + 1);
      assert u > now;
      if MonthAt(u) !in f.months && |f.days| == 1 && Jump(f, u, JUMP_ROUNDS).Some? {
        JumpMoves(f, u, JUMP_ROUNDS);
        if f.days[0] <= 28 {
          JumpLands(f, u, JUMP_ROUNDS);
          LandingMatchesDay(f, MonthOf(DayOf(Jump(f, u, JUMP_ROUNDS).value)));
        }
      }
    }
  }

  lemma {:induction false} JumpMoves(f: Fields, t: nat, rounds: nat)
    requires WellParsed(f) && Jump(f, t, rounds).Some?
    ensures Jump(f, t, rounds).value >= t && MonthAt(Jump(f, t, rounds).value) in f.months
    decreases rounds
  {
    hide WellParsed, NextMonth, DayOf, MonthOf, MonthLength, MonthNumber;
    if MonthAt(t) !in f.months {
      NextMonthLands(f, t);
      JumpMoves(f, NextMonth(f, t), rounds - 1);
    }
  }

  /** Nothing that was passed matches, whether or not it is on a step. */
  lemma NoMatchBefore(f: Fields, now: nat, k: nat, u: nat)
    requires WellParsed(f) && PassedUpTo(f, Truncated(f, now), k)
    requires now < u <= After(f, Truncated(f, now), k)
    ensures !Matches(f, u)
  {
    hide DayRule;
    var t := Truncated(f, now);
    TruncatedBounds(f, now);
    if f.step == 1 || u % 60 == 0 {
      var i := StepTo(f, t, u);
      assert Passed(f, After(f, t, i));
    }
  }

  /** A match found step by step is the earliest one after now. */
  lemma FoundIsEarliest(f: Fields, now: nat, u: nat)
    requires WellParsed(f)
    ensures var r := Search(f, now); r.Found? && now < u < r.time ==> !Matches(f, u)
  {
    var t := Truncated(f, now);
    TruncatedBounds(f, now);
    var r := Search(f, now);
    if r.Found? && now < u < r.time {
      var k := SearchStops(f, t, MaxIterations(f));
      if u <= After(f, t, k) {
        NoMatchBefore(f, now, k, u);
      } else {
        BetweenSteps(f, t, k, u);
      }
    }
  }

  /** No match lies strictly between two steps: five-field searches list second 0. */
  lemma BetweenSteps(f: Fields, t: nat, k: nat, u: nat)
    requires WellParsed(f) && (f.step == 60 ==> t % 60 == 0)
    requires After(f, t, k) < u < After(f, t, k + 1)
    ensures !Matches(f, u)
  {
    hide DayRule;
    if f.step == 60 {
      assert After(f, t, k) % 60 == 0;
      assert u % 60 != 0;
    }
  }

  ghost predicate FirstIsLeast(xs: seq<int>) {
    forall i :: 0 <= i < |xs| ==> xs[0] <= xs[i]
  }

  /** A jump to a day up to the 28th is the earliest match too, when the weekday is
    `*` and the clock lists begin with their least entries. */
  lemma JumpedIsEarliest(f: Fields, now: nat, u: nat)
    requires WellParsed(f) && f.days[0] <= 28 && f.weekdayWild
    requires FirstIsLeast(f.hours) && FirstIsLeast(f.minutes) && FirstIsLeast(f.seconds)
    requires var r := Search(f, now); r.Jumped? && now < u < r.time
    ensures !Matches(f, u)
  {
    var t := Truncated(f, now);
    TruncatedBounds(f, now);
    var k := SearchStops(f, t, MaxIterations(f));
    var v := After(f, t, k + 1);
    if u <= After(f, t, k) {
      NoMatchBefore(f, now, k, u);
    } else if u < v {
      BetweenSteps(f, t, k, u);
    } else {
      JumpLands(f, v, JUMP_ROUNDS);
      SkippedByJump(f, v, u);
    }
  }

  lemma SkippedByJump(f: Fields, v: nat, u: nat)
    requires WellParsed(f) && |f.days| == 1 && f.days[0] <= 28 && f.weekdayWild
    requires FirstIsLeast(f.hours) && FirstIsLeast(f.minutes) && FirstIsLeast(f.seconds)
    requires MonthAt(v) !in f.months && Jump(f, v, JUMP_ROUNDS).Some?
    requires v <= u < Jump(f, v, JUMP_ROUNDS).value
    ensures !Matches(f, u)
  {
    hide WellParsed, Jump, MonthStart;
    JumpLands(f, v, JUMP_ROUNDS);
    var r := Jump(f, v, JUMP_ROUNDS).value;
    var k := MonthOf(DayOf(r));
    assert DayOf(v) <= DayOf(u) <= DayOf(r);
    MonthOfGrows(DayOf(v), DayOf(u));
    MonthOfGrows(DayOf(u), DayOf(r));
    if Matches(f, u) {
      assert MonthOf(DayOf(u)) == k;
      SameDayLater(f, u, k);
    }
  }

  lemma SameDayLater(f: Fields, u: nat, k: nat)
    requires WellParsed(f) && |f.days| == 1 && f.weekdayWild
    requires FirstIsLeast(f.hours) && FirstIsLeast(f.minutes) && FirstIsLeast(f.seconds)
    ensures Matches(f, u) && MonthOf(DayOf(u)) == k ==> u >= DateAt(k, f.days[0], FirstSecond(f))
  {
    hide MonthStart, MonthOf;
    if Matches(f, u) && MonthOf(DayOf(u)) == k {
      assert DayOfMonth(DayOf(u)) == f.days[0];
      assert DayOf(u) == MonthStart(k) + f.days[0] - 1;
      assert f.hours[0] <= HourAt(u) && f.minutes[0] <= MinuteAt(u) && f.seconds[0] <= SecondAt(u);
      ClockParts(u);
    }
  }

  lemma ClockParts(t: nat)
    ensures t == DayOf(t) * DAY + HourAt(t) * 3600 + MinuteAt(t) * 60 + SecondAt(t)
  {
    var h := t / 3600;
    assert t % DAY / 3600 == h % 24 && t / DAY == h / 24;
    var m := t / 60;
    assert t % 3600 / 60 == m % 60 && t / 3600 == m / 60;
  }

  // ------------------------------------------------------- limits of the search

  /** The steps of a search through some days. */
  function StepsIn(days: nat, step: nat): nat {
    if step == 1 then days * DAY else days * 1440
  }

  /** `0 0,0 * * 4`, or the same with a second field: the hour is listed twice so that
    the shorter limit applies. */
  function ThursdayMidnight(step: nat): Fields {
    Fields([0], [0], [0, 0], seq(31, i => i + 1), seq(12, i => i + 1), [4], true, false, step)
  }

  lemma ThursdayMidnightParsed(step: nat)
    requires step == 1 || step == 60
    ensures var f := ThursdayMidnight(step);
      && WellParsed(f) && f.dayWild && MaxIterations(f) == StepsIn(7, step) && f.step == step && |f.days| == 31
      && forall m :: 1 <= m <= 12 ==> m in f.months
  {
    var f := ThursdayMidnight(step);
    forall d | 1 <= d <= 31 ensures d in f.days { assert f.days[d - 1] == d; }
    forall m | 1 <= m <= 12 ensures m in f.months { assert f.months[m - 1] == m; }
  }

  lemma OnlyThursdays(u: nat, step: nat)
    requires 0 < u < WEEK
    ensures !Matches(ThursdayMidnight(step), u)
  {
    hide MonthOf;
    ClockParts(u);
    assert DayOf(u) <= 6;
    assert Weekday(DayOf(u)) == 4 <==> DayOf(u) == 0;
  }

  lemma WeekLessOneStep(step: nat)
    requires step == 1 || step == 60
    ensures var f := ThursdayMidnight(step); WellParsed(f) && SearchFrom(f, 0, StepsIn(7, step) - 1) == Exhausted
  {
    ThursdayMidnightParsed(step);
    hide ThursdayMidnight, Matches, WellParsed;
    var f := ThursdayMidnight(step);
    var j := SearchStops(f, 0, StepsIn(7, step) - 1);
    if j < StepsIn(7, step) - 1 {
      OnlyThursdays(After(f, 0, j + 1), step);
    }
  }

  /** Asked at a Thursday midnight for the next one, the match is the very last step:
    10080 iterations, or 604800 with seconds, are just enough and one less is not. */
  lemma WeekLimitIsTight(step: nat)
    requires step == 1 || step == 60
    ensures var f := ThursdayMidnight(step);
      && WellParsed(f) && Search(f, 0) == Found(WEEK)
      && MaxIterations(f) == (if step == 1 then 604800 else 10080)
      && SearchFrom(f, 0, MaxIterations(f) - 1) == Exhausted
  {
    ThursdayMidnightParsed(step);
    hide ThursdayMidnight, Matches, WellParsed, MaxIterations;
    var f := ThursdayMidnight(step);
    WildcardNeverFallsBack(f, 0);
    var k := SearchStops(f, 0, StepsIn(7, step));
    if k + 1 < StepsIn(7, step) {
      OnlyThursdays(After(f, 0, k + 1), step);
    }
    WeekLessOneStep(step);
  }

  /** `0 0 1 * *`, or the same with a second field. */
  function FirstOfMonth(step: nat): Fields {
    Fields([0], [0], [0], [1], seq(12, i => i + 1), seq(7, i => i), false, true, step)
  }

  lemma FirstOfMonthParsed(step: nat)
    requires step == 1 || step == 60
    ensures var f := FirstOfMonth(step);
      && WellParsed(f) && MaxIterations(f) == StepsIn(31, step) && f.step == step
      && |f.days| == 1 && f.days[0] == 1 && forall m :: 1 <= m <= 12 ==> m in f.months
  {
    var f := FirstOfMonth(step);
    forall m | 1 <= m <= 12 ensures m in f.months { assert f.months[m - 1] == m; }
    forall w | 0 <= w <= 6 ensures w in f.weekdays { assert f.weekdays[w] == w; }
  }

  lemma NotInJanuary(u: nat, step: nat)
    requires 0 < u < 31 * DAY
    ensures !Matches(FirstOfMonth(step), u)
  {
    ClockParts(u);
    MonthOfIs(DayOf(u), 0);
    assert FirstOfMonth(step).days == [1];
  }

  lemma MonthLessOneStep(step: nat)
    requires step == 1 || step == 60
    ensures var f := FirstOfMonth(step); WellParsed(f) && SearchFrom(f, 0, StepsIn(31, step) - 1) == Exhausted
  {
    FirstOfMonthParsed(step);
    hide FirstOfMonth, Matches, WellParsed;
    var f := FirstOfMonth(step);
    var j := SearchStops(f, 0, StepsIn(31, step) - 1);
    if j < StepsIn(31, step) - 1 {
      NotInJanuary(After(f, 0, j + 1), step);
    }
  }

  /** Asked at the very beginning for the first of a month, the match is the last of the
    31 days: 44640 iterations, or 2678400 with seconds, are just enough. */
  lemma MonthLimitIsTight(step: nat)
    requires step == 1 || step == 60
    ensures var f := FirstOfMonth(step);
      && WellParsed(f) && Search(f, 0) == Found(31 * DAY)
      && MaxIterations(f) == (if step == 1 then 2678400 else 44640)
      && SearchFrom(f, 0, MaxIterations(f) - 1) == Exhausted
  {
    hide *;
    FirstOfMonthParsed(step);
    MonthFound(step);
    MonthLessOneStep(step);
    StepsInMonth(step);
  }

  lemma StepsInMonth(step: nat)
    ensures StepsIn(31, step) == if step == 1 then 2678400 else 44640
  {}

  lemma SearchFromZero(f: Fields)
    requires WellParsed(f)
    ensures Search(f, 0) == SearchFrom(f, 0, MaxIterations(f))
  {}

  lemma MonthFound(step: nat)
    requires step == 1 || step == 60
    ensures var f := FirstOfMonth(step); WellParsed(f) && Search(f, 0) == Found(31 * DAY)
  {
    FirstOfMonthParsed(step);
    hide FirstOfMonth, Matches, WellParsed, MaxIterations, Search, MonthAt, SearchFrom, JumpOutcome;
    var f := FirstOfMonth(step);
    SingleDayNeverFallsBack(f, 0);
    SearchFromZero(f);
    var k := SearchStops(f, 0, StepsIn(31, step));
    var u := After(f, 0, k + 1);
    assert MonthAt(u) in f.months;
    if k + 1 < StepsIn(31, step) {
      NotInJanuary(u, step);
    }
  }
}
