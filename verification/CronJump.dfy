/** Where the month jump of the cron search lands, and when it never ends. */
module CronJump {
  import opened Options
  import opened Calendar
  import opened CronSearch
  import opened CronTheorems

  /** The day of an answer is the listed one when its month has it, counted from
    the month the last round aimed at. */
  lemma AimedAt(f: Fields, t: nat)
    requires WellParsed(f) && |f.days| == 1 && MonthAt(NextMonth(f, t)) in f.months
    ensures var k := MonthOf(DayOf(t)) + 1; var u := NextMonth(f, t);
      && DayOfMonth(DayOf(u)) == f.days[0] - (if f.days[0] <= MonthLength(k) then 0 else MonthLength(k))
      && (Matches(f, u) <==> f.days[0] <= MonthLength(k) || (!f.weekdayWild && Weekday(DayOf(u)) in f.weekdays))
  {
    hide MonthOf, MonthStart, MonthLength, DateAt, NextMonth;
    var k := MonthOf(DayOf(t)) + 1;
    NextMonthLands(f, t);
    NextMonthIs(f, t);
    DateAtDay(f, k);
    ClockAtLanding(f, k);
    var day := MonthStart(k) + f.days[0] - 1;
    if f.days[0] <= MonthLength(k) {
      MonthOfIs(day, k);
    } else {
      NextMonthStart(k);
      MonthOfIs(day, k + 1);
    }
  }

  /** Where the jump lands it matches exactly when it aimed at that month: it was
    the next one, or the month before has the day too; otherwise only a restricted
    weekday can save it. */
  lemma {:induction false} JumpMatchesIff(f: Fields, t: nat, rounds: nat)
    requires WellParsed(f) && |f.days| == 1 && MonthAt(t) !in f.months && Jump(f, t, rounds).Some?
    ensures var u := Jump(f, t, rounds).value; var k := MonthOf(DayOf(u)); var start := MonthOf(DayOf(t));
      && k > start && u > t
      && (k - 1 == start || f.days[0] <= MonthLength(k - 1) ==> DayOfMonth(DayOf(u)) == f.days[0])
      && (k - 1 > start && f.days[0] > MonthLength(k - 1) ==> DayOfMonth(DayOf(u)) == f.days[0] - MonthLength(k - 1))
      && (Matches(f, u) <==> k - 1 == start || f.days[0] <= MonthLength(k - 1)
                             || (!f.weekdayWild && Weekday(DayOf(u)) in f.weekdays))
    decreases rounds
  {
    hide WellParsed, NextMonth, DayOf, DayOfMonth, MonthOf, MonthLength, MonthNumber, Matches;
    NextMonthLands(f, t);
    var v := NextMonth(f, t);
    if MonthAt(v) in f.months {
      AimedAt(f, t);
    } else {
      JumpMatchesIff(f, v, rounds - 1);
    }
  }

  lemma NextMonthIs(f: Fields, t: nat)
    requires WellParsed(f)
    ensures NextMonth(f, t) == DateAt(MonthOf(DayOf(t)) + 1, f.days[0], FirstSecond(f))
  {}

  lemma NextMonthStart(k: nat)
    requires MonthLength(k) < 31
    ensures MonthStart(k + 1) == MonthStart(k) + MonthLength(k) && MonthLength(k + 1) == 31
  {
    ShortMonthsBeforeLong(k);
  }

  lemma ClockAtLanding(f: Fields, k: nat)
    requires WellParsed(f)
    ensures var u := DateAt(k, f.days[0], FirstSecond(f));
      HourAt(u) in f.hours && MinuteAt(u) in f.minutes && SecondAt(u) in f.seconds
  {
    var day := MonthStart(k) + f.days[0] - 1;
    ClockOf(day, f.hours[0], f.minutes[0], f.seconds[0]);
    assert DateAt(k, f.days[0], FirstSecond(f)) == day * DAY + f.hours[0] * 3600 + f.minutes[0] * 60 + f.seconds[0];
  }

  // ----------------------------------------------- the answer, from the question

  /** A month that is listed and has the day. */
  predicate GoodMonth(f: Fields, k: nat)
    requires WellParsed(f)
  {
    MonthNumber(k) in f.months && f.days[0] <= MonthLength(k)
  }

  ghost predicate FirstGood(f: Fields, start: nat, k: nat)
    requires WellParsed(f)
  {
    start < k && GoodMonth(f, k) && forall j :: start < j < k ==> !GoodMonth(f, j)
  }

  lemma {:induction false} LeastGood(f: Fields, start: nat, bound: nat) returns (k: nat)
    requires WellParsed(f) && start < bound && GoodMonth(f, bound)
    ensures FirstGood(f, start, k) && k <= bound
    decreases bound - start
  {
    hide WellParsed, GoodMonth;
    if GoodMonth(f, start + 1) {
      k := start + 1;
    } else {
      k := LeastGood(f, start + 1, bound);
    }
  }

  /** If some listed month has the day in some year, there is a first good month
    within eight years. */
  lemma FirstGoodComes(f: Fields, start: nat) returns (k: nat)
    requires WellParsed(f) && DayFits(f)
    ensures FirstGood(f, start, k) && k <= start + JUMP_ROUNDS
  {
    hide WellParsed, DayFits, MonthNumber, MonthLength;
    var bound := GoodMonthComes(f, start);
    k := LeastGood(f, start, bound);
  }

  /** The month whose day the last round asks for: the landing month, unless the one
    before it was asked and is too short. */
  function Aim(f: Fields, start: nat, k: nat): nat
    requires WellParsed(f) && k > 0
  {
    if k - 1 == start || f.days[0] <= MonthLength(k - 1) then k else k - 1
  }

  /** The jump lands in the first good month, whatever the day. */
  lemma {:induction false} JumpLandsFirst(f: Fields, t: nat, rounds: nat)
    requires WellParsed(f) && MonthAt(t) !in f.months && Jump(f, t, rounds).Some?
    ensures var u := Jump(f, t, rounds).value; var k := MonthOf(DayOf(u)); var start := MonthOf(DayOf(t));
      FirstGood(f, start, k) && u == DateAt(Aim(f, start, k), f.days[0], FirstSecond(f))
    decreases rounds
  {
    hide WellParsed, NextMonth, DayOf, MonthOf, MonthLength, MonthNumber, DateAt, FirstSecond;
    NextMonthLands(f, t);
    NextMonthIs(f, t);
    var v := NextMonth(f, t);
    if MonthAt(v) !in f.months {
      JumpLandsFirst(f, v, rounds - 1);
    }
  }

  /** From the month asked in and the first good month after it: the exact time of the
    answer, and whether it matches. */
  lemma JumpAnswers(f: Fields, t: nat, k: nat)
    requires WellParsed(f) && |f.days| == 1 && MonthAt(t) !in f.months
    requires FirstGood(f, MonthOf(DayOf(t)), k)
    ensures var start := MonthOf(DayOf(t)); var u := DateAt(Aim(f, start, k), f.days[0], FirstSecond(f));
      && JumpOutcome(f, t) == Jumped(u) && MonthOf(DayOf(u)) == k
      && (Matches(f, u) <==> k - 1 == start || f.days[0] <= MonthLength(k - 1)
                             || (!f.weekdayWild && Weekday(DayOf(u)) in f.weekdays))
  {
    assert DayFits(f) by { GoodFits(f, k); }
    hide WellParsed, DayOf, MonthOf, MonthLength, MonthNumber, DateAt, FirstSecond, Matches, GoodMonth, DayFits;
    hide Weekday;
    JumpEndsIff(f, t);
    JumpLandsFirst(f, t, JUMP_ROUNDS);
    JumpMatchesIff(f, t, JUMP_ROUNDS);
    OnlyOneIsFirst(f, MonthOf(DayOf(t)), k, MonthOf(DayOf(Jump(f, t, JUMP_ROUNDS).value)));
    hide FirstGood, Jump;
  }

  lemma OnlyOneIsFirst(f: Fields, start: nat, a: nat, b: nat)
    requires WellParsed(f) && FirstGood(f, start, a) && FirstGood(f, start, b)
    ensures a == b
  {
    hide WellParsed, GoodMonth;
  }

  lemma GoodFits(f: Fields, k: nat)
    requires WellParsed(f) && GoodMonth(f, k)
    ensures DayFits(f)
  {
    assert f.days[0] <= LongestMonth(MonthNumber(k));
  }

  // --------------------------------------------------------- when it never ends

  lemma LongMonthsHaveTheDay(f: Fields, k: nat)
    requires WellParsed(f) && !DayFits(f) && MonthNumber(k) in f.months
    ensures MonthLength(k) < 31 && MonthLength(k) < f.days[0]
  {
    assert !(f.days[0] <= LongestMonth(MonthNumber(k)));
  }

  /** The month after that of `v` begins within the length of that month. */
  lemma MonthBegins(v: nat)
    ensures var k := MonthOf(DayOf(v)); var u := MonthStart(k + 1) * DAY;
      MonthAt(u) == MonthNumber(k + 1) && u % 60 == 0 && v < u <= v + MonthLength(k) * DAY
  {
    hide MonthOf, MonthLength, MonthNumber;
    var k := MonthOf(DayOf(v));
    var day := MonthStart(k + 1);
    assert DayOf(v) < day == MonthStart(k) + MonthLength(k) <= DayOf(v) + MonthLength(k);
    MonthOfIs(day, k + 1);
    DayBegins(v, day, MonthLength(k));
  }

  lemma DayBegins(v: nat, day: nat, n: nat)
    requires DayOf(v) < day <= DayOf(v) + n
    ensures var u := day * DAY; DayOf(u) == day && u % 60 == 0 && v < u <= v + n * DAY
  {}

  /** If no listed month has the day, a month outside the list begins, or goes on,
    within 31 days. */
  lemma UnlistedComes(f: Fields, t: nat) returns (u: nat)
    requires WellParsed(f) && !DayFits(f) && (f.step == 60 ==> t % 60 == 0)
    ensures t < u <= t + 31 * DAY && MonthAt(u) !in f.months && (f.step == 60 ==> u % 60 == 0)
  {
    hide DayFits, MonthOf, MonthStart, MonthLength, InRange, DayOf, MonthNumber;
    u := t + f.step;
    if MonthAt(u) in f.months {
      var k := MonthOf(DayOf(u));
      LongMonthsHaveTheDay(f, k);
      ShortMonthsBeforeLong(k);
      MonthBegins(u);
      u := MonthStart(k + 1) * DAY;
      if MonthNumber(k + 1) in f.months {
        LongMonthsHaveTheDay(f, k + 1);
      }
    }
  }

  /** A single day that no listed month ever has: the search does not fall back,
    and unless a restricted weekday matches first it never returns. */
  lemma NoSuchDay(f: Fields, now: nat)
    requires WellParsed(f) && |f.days| == 1 && !DayFits(f)
    ensures Search(f, now).Hangs? || (Search(f, now).Found? && !f.weekdayWild)
  {
    var t := Truncated(f, now);
    TruncatedBounds(f, now);
    FallsBackOnly(f, now);
    var k := SearchStops(f, t, MaxIterations(f));
    if Search(f, now).Exhausted? {
      var u := UnlistedComes(f, t);
      StepsStayListed(f, t, MaxIterations(f), u);
    } else if Search(f, now).Found? {
      MatchNeedsTheDay(f, Search(f, now).time);
    } else {
      JumpEndsIff(f, After(f, t, k + 1));
    }
  }

  lemma StepsStayListed(f: Fields, t: nat, k: nat, u: nat)
    requires WellParsed(f) && |f.days| == 1 && PassedUpTo(f, t, k)
    requires t < u && (f.step == 60 ==> t % 60 == 0 && u % 60 == 0)
    requires if f.step == 60 then u - t <= 60 * k else u - t <= k
    ensures MonthAt(u) in f.months
  {
    hide Matches, MonthAt;
    var i := StepTo(f, t, u);
    assert Passed(f, After(f, t, i));
  }

  lemma MatchNeedsTheDay(f: Fields, u: nat)
    requires WellParsed(f) && |f.days| == 1 && !DayFits(f) && Matches(f, u)
    ensures !f.weekdayWild
  {
    hide MonthOf;
    LongMonthsHaveTheDay(f, MonthOf(DayOf(u)));
  }

  lemma HangsOnlyThen(f: Fields, now: nat)
    requires WellParsed(f)
    ensures Search(f, now).Hangs? ==> |f.days| == 1 && !DayFits(f)
  {
    hide Matches;
    var k := SearchStops(f, Truncated(f, now), MaxIterations(f));
    if Search(f, now).Hangs? {
      JumpEndsIff(f, After(f, Truncated(f, now), k + 1));
    }
  }

  /** Some step matches before any step in a month outside the list. */
  ghost predicate MatchComesFirst(f: Fields, t: nat) {
    exists i :: i >= 1 && Matches(f, After(f, t, i)) && forall j :: 1 <= j <= i ==> MonthAt(After(f, t, j)) in f.months
  }

  /** The search never returns if and only if a single day is listed that no listed
    month ever has, and no restricted weekday matches before the listed month ends. */
  lemma HangsIff(f: Fields, now: nat)
    requires WellParsed(f)
    ensures Search(f, now).Hangs? <==>
              |f.days| == 1 && !DayFits(f) && !MatchComesFirst(f, Truncated(f, now))
  {
    hide WellParsed, Matches, DayFits, MonthAt;
    HangsOnlyThen(f, now);
    if |f.days| == 1 && !DayFits(f) {
      NoSuchDay(f, now);
      var t := Truncated(f, now);
      var k := SearchStops(f, t, MaxIterations(f));
      if Search(f, now).Found? {
        FoundComesFirst(f, t, k);
      } else {
        HangsComesFirst(f, t, k);
      }
    }
  }

  lemma FoundComesFirst(f: Fields, t: nat, k: nat)
    requires |f.days| == 1 && PassedUpTo(f, t, k) && Matches(f, After(f, t, k + 1))
    ensures MatchComesFirst(f, t)
  {
    hide MonthAt;
    assert forall j :: 1 <= j <= k ==> Passed(f, After(f, t, j));
  }

  lemma HangsComesFirst(f: Fields, t: nat, k: nat)
    requires PassedUpTo(f, t, k) && MonthAt(After(f, t, k + 1)) !in f.months
    ensures !MatchComesFirst(f, t)
  {
    hide MonthAt, Matches;
    assert forall j :: 1 <= j <= k ==> Passed(f, After(f, t, j));
  }

  /** With `*` for the weekday nothing matches first. */
  lemma HangsIffAnyWeekday(f: Fields, now: nat)
    requires WellParsed(f) && f.weekdayWild
    ensures Search(f, now).Hangs? <==> |f.days| == 1 && !DayFits(f)
  {
    hide Search, WellParsed, Matches, DayFits;
    HangsIff(f, now);
    if |f.days| == 1 && !DayFits(f) && MatchComesFirst(f, Truncated(f, now)) {
      var i :| i >= 1 && Matches(f, After(f, Truncated(f, now), i));
      MatchNeedsTheDay(f, After(f, Truncated(f, now), i));
    }
  }
}
