/** Expressions that are never answered, and one that is answered wrongly. */
module CronReplies {
  import opened Options
  import opened Strings
  import opened CronParse
  import opened CronSearch
  import opened CronRun
  import Calendar
  import CronTheorems
  import CronJump

  /** For every accepted text there is no reply if and only if the single listed day is
    one that none of the listed months ever has, and no restricted weekday matches
    before a month outside the list begins. */
  lemma NoReplyIff(expr: string, nowMs: nat)
    ensures var p := ParseExpression(expr); p.Some? ==>
      WellParsed(p.value)
      && (NextCron(expr, nowMs).NoReply? <==>
            |p.value.days| == 1 && !CronTheorems.DayFits(p.value)
            && !CronJump.MatchComesFirst(p.value, Truncated(p.value, nowMs / 1000)))
  {
    hide ParseExpression, Search, WellParsed, CronTheorems.DayFits, CronJump.MatchComesFirst;
    ParsedIsWellParsed(expr);
    var p := ParseExpression(expr);
    if p.Some? {
      CronJump.HangsIff(p.value, nowMs / 1000);
    }
  }

  lemma NoReplyIffAnyWeekday(expr: string, nowMs: nat)
    ensures var p := ParseExpression(expr); p.Some? && p.value.weekdayWild ==>
      WellParsed(p.value)
      && (NextCron(expr, nowMs).NoReply? <==> |p.value.days| == 1 && !CronTheorems.DayFits(p.value))
  {
    hide ParseExpression, Search, WellParsed, CronTheorems.DayFits;
    ParsedIsWellParsed(expr);
    var p := ParseExpression(expr);
    if p.Some? && p.value.weekdayWild {
      CronJump.HangsIffAnyWeekday(p.value, nowMs / 1000);
    }
  }

  function MidnightOn(day: nat, month: nat): Fields
    requires 1 <= day <= 31 && 1 <= month <= 12
  {
    Fields([0], [0], [0], [day], [month], Span(0, 6), false, true, 60)
  }

  lemma MidnightOnParsed(day: nat, month: nat)
    requires 1 <= day <= 31 && 1 <= month <= 12
    ensures WellParsed(MidnightOn(day, month)) && Accepted(MidnightOn(day, month))
  {
    SpanIs(0, 6);
  }

  /** `0 0 <day> <month> *`. */
  function MidnightText(day: nat, month: nat): string {
    Join(["0", "0", Itoa(day), Itoa(month), "*"], ' ')
  }

  lemma MidnightOnIs(day: nat, month: nat)
    requires 1 <= day <= 31 && 1 <= month <= 12
    ensures ParseExpression(MidnightText(day, month)) == Some(MidnightOn(day, month))
  {
    var zero, d, m := Values([0]), Values([day]), Values([month]);
    PrintOne(0);
    PrintOne(day);
    PrintOne(month);
    ItoaZero();
    MidnightMeant(day, month);
    MidnightOnParsed(day, month);
    assert Print(Every) == "*";
    hide Print, Join, Itoa, ParseExpression, FieldsMeant, MidnightOn, Accepted;
    ExpressionRoundTrip(zero, zero, d, m, Every);
  }

  lemma MidnightMeant(day: nat, month: nat)
    requires 1 <= day <= 31 && 1 <= month <= 12
    ensures FieldsMeant(Values([0]), Values([0]), Values([day]), Values([month]), Every) == MidnightOn(day, month)
  {
    KeepOne(0, 0, 59);
    KeepOne(0, 0, 23);
    KeepOne(day, 1, 31);
    KeepOne(month, 1, 12);
    hide KeepWithin, Span;
  }

  lemma KeepOne(n: nat, min: int, max: int)
    requires min <= n <= max
    ensures KeepWithin([n], min, max) == [n]
  {
    assert [n][1..] == [];
  }

  lemma ItoaZero()
    ensures Itoa(0) == "0"
  {}

  lemma PrintOne(n: nat)
    requires n <= MAX_INT64
    ensures Print(Values([n])) == Itoa(n)
  {
    JoinOne(Printed([n]), ',');
  }

  lemma ItoaTwo(tens: nat, ones: nat)
    requires 1 <= tens <= 9 && ones <= 9
    ensures Itoa(tens * 10 + ones) == [(tens + '0' as int) as char, (ones + '0' as int) as char]
    ensures Itoa(tens) == [(tens + '0' as int) as char]
  {}

  lemma JoinFive(a: string, b: string, c: string, d: string, e: string)
    ensures Join([a, b, c, d, e], ' ') == a + [' '] + (b + [' '] + (c + [' '] + (d + [' '] + e)))
  {
    assert [d, e][1..] == [e] && [c, d, e][1..] == [d, e];
    assert [b, c, d, e][1..] == [c, d, e] && [a, b, c, d, e][1..] == [b, c, d, e];
    assert Join([d, e], ' ') == d + [' '] + e;
    assert Join([c, d, e], ' ') == c + [' '] + Join([d, e], ' ');
    assert Join([b, c, d, e], ' ') == b + [' '] + Join([c, d, e], ' ');
  }

  lemma FebruaryText()
    ensures Join(["0", "0", "30", "2", "*"], ' ') == "0 0 30 2 *"
    ensures Itoa(30) == "30" && Itoa(2) == "2"
  {
    ItoaTwo(3, 0);
    ItoaTwo(2, 0);
    JoinFive("0", "0", "30", "2", "*");
    hide *;
    assert "2" + [' '] + "*" == "2 *";
    assert "30" + [' '] + "2 *" == "30 2 *";
    assert "0" + [' '] + "30 2 *" == "0 30 2 *";
  }

  lemma DecemberText()
    ensures Join(["0", "0", "31", "12", "*"], ' ') == "0 0 31 12 *"
    ensures Itoa(31) == "31" && Itoa(12) == "12"
  {
    ItoaTwo(3, 1);
    ItoaTwo(1, 2);
    JoinFive("0", "0", "31", "12", "*");
    hide *;
    assert "12" + [' '] + "*" == "12 *";
    assert "31" + [' '] + "12 *" == "31 12 *";
    assert "0" + [' '] + "31 12 *" == "0 31 12 *";
  }

  lemma FebruaryIs()
    ensures ParseExpression("0 0 30 2 *") == Some(MidnightOn(30, 2))
  {
    FebruaryText();
    hide ParseExpression, Join, Itoa, MidnightOn;
    MidnightOnIs(30, 2);
  }

  lemma DecemberIs()
    ensures ParseExpression("0 0 31 12 *") == Some(MidnightOn(31, 12))
  {
    DecemberText();
    hide ParseExpression, Join, Itoa, MidnightOn;
    MidnightOnIs(31, 12);
  }

  /** The 30th of February is never answered. */
  lemma ThirtiethOfFebruary(nowMs: nat)
    ensures NextCron("0 0 30 2 *", nowMs).NoReply?
  {
    hide ParseExpression;
    FebruaryIs();
    MidnightOnParsed(30, 2);
    var f := MidnightOn(30, 2);
    assert !CronTheorems.DayFits(f) && f.weekdayWild && |f.days| == 1;
    hide MidnightOn, NextCron, WellParsed, CronTheorems.DayFits;
    NoReplyIffAnyWeekday("0 0 30 2 *", nowMs);
  }

  /** `0 0 30 2 1`. */
  function ThirtiethOrMonday(): Fields {
    Fields([0], [0], [0], [30], [2], [1], false, false, 60)
  }

  lemma ThirtiethOrMondayIs()
    ensures ParseExpression("0 0 30 2 1") == Some(ThirtiethOrMonday())
  {
    FebruaryText();
    ItoaZero();
    ItoaTwo(1, 0);
    PrintOne(0);
    PrintOne(1);
    PrintOne(2);
    PrintOne(30);
    MondayText();
    KeepOne(0, 0, 59);
    KeepOne(0, 0, 23);
    KeepOne(30, 1, 31);
    KeepOne(2, 1, 12);
    KeepOne(1, 0, 6);
    var zero, d, m, w := Values([0]), Values([30]), Values([2]), Values([1]);
    hide Print, Join, Itoa, ParseExpression, KeepWithin;
    assert FieldsMeant(zero, zero, d, m, w) == ThirtiethOrMonday();
    assert Accepted(ThirtiethOrMonday());
    ExpressionRoundTrip(zero, zero, d, m, w);
  }

  lemma MondayText()
    ensures Join(["0", "0", "30", "2", "1"], ' ') == "0 0 30 2 1"
  {
    JoinFive("0", "0", "30", "2", "1");
    hide *;
    assert "2" + [' '] + "1" == "2 1";
    assert "30" + [' '] + "2 1" == "30 2 1";
    assert "0" + [' '] + "30 2 1" == "0 30 2 1";
  }

  /** A Monday in February would do, but asked outside February the search does not
    get there. */
  lemma MondaysOfFebruary(nowMs: nat)
    requires MonthAt(nowMs / 1000 - nowMs / 1000 % 60 + 60) != 2
    ensures NextCron("0 0 30 2 1", nowMs).NoReply?
  {
    hide ParseExpression;
    ThirtiethOrMondayIs();
    var f := ThirtiethOrMonday();
    var t := nowMs / 1000 - nowMs / 1000 % 60;
    assert WellParsed(f) && f.months == [2] && |f.days| == 1 && !CronTheorems.DayFits(f);
    assert Truncated(f, nowMs / 1000) == t && After(f, t, 1) == t + 60;
    hide ThirtiethOrMonday, NextCron, WellParsed, CronTheorems.DayFits, Matches, MonthAt;
    NoReplyIff("0 0 30 2 1", nowMs);
  }

  /** Asked before November, the 31st of December is answered with the first. */
  lemma LastOfDecember(nowMs: nat)
    requires 1 <= MonthAt(nowMs / 1000 - nowMs / 1000 % 60 + 60) <= 10
    ensures var r := NextCron("0 0 31 12 *", nowMs);
      && r.At? && r.ms > nowMs && MonthAt(r.ms / 1000) == 12 && Calendar.DayOfMonth(DayOf(r.ms / 1000)) == 1
      && !Matches(MidnightOn(31, 12), r.ms / 1000)
  {
    hide ParseExpression, MidnightOn, Matches, WellParsed, Search, MonthAt, DayOf, Calendar.DayOfMonth;
    var now := nowMs / 1000;
    DecemberIs();
    SearchesDecember(now);
    ParsedIsWellParsed("0 0 31 12 *");
    LaterMs(nowMs, Search(MidnightOn(31, 12), now).time);
  }

  lemma SearchesDecember(now: nat)
    requires 1 <= MonthAt(now - now % 60 + 60) <= 10
    ensures var f := MidnightOn(31, 12); WellParsed(f) && var r := Search(f, now);
      && r.Jumped? && r.time > now && MonthAt(r.time) == 12 && Calendar.DayOfMonth(DayOf(r.time)) == 1
      && !Matches(f, r.time)
  {
    var u := now - now % 60 + 60;
    var f := MidnightOn(31, 12);
    MidnightOnParsed(31, 12);
    assert Truncated(f, now) + f.step == u && |f.days| == 1 && f.months == [12];
    hide MidnightOn, Matches, WellParsed, Search, JumpOutcome, MonthAt, DayOf, Calendar.DayOfMonth;
    JumpsAtOnce(f, now);
    FirstOfDecember(u);
  }

  lemma JumpsAtOnce(f: Fields, now: nat)
    requires WellParsed(f) && |f.days| == 1 && MonthAt(Truncated(f, now) + f.step) !in f.months
    ensures Search(f, now) == JumpOutcome(f, Truncated(f, now) + f.step)
  {
    hide JumpOutcome, MonthAt, Matches;
  }

  lemma DecemberFits()
    ensures var f := MidnightOn(31, 12);
      WellParsed(f) && CronTheorems.DayFits(f) && f.days == [31] && f.months == [12] && f.weekdayWild
  {
    MidnightOnParsed(31, 12);
    assert 12 in MidnightOn(31, 12).months && CronTheorems.LongestMonth(12) == 31;
  }

  lemma FirstOfDecember(u: nat)
    requires 1 <= MonthAt(u) <= 10
    ensures var f := MidnightOn(31, 12); WellParsed(f) && var r := JumpOutcome(f, u);
      && r.Jumped? && r.time > u && MonthAt(r.time) == 12 && Calendar.DayOfMonth(DayOf(r.time)) == 1
      && !Matches(f, r.time)
  {
    DecemberFits();
    hide *;
    var f := MidnightOn(31, 12);
    CronTheorems.JumpEndsIff(f, u);
    CronJump.JumpMatchesIff(f, u, JUMP_ROUNDS);
    CronTheorems.JumpMoves(f, u, JUMP_ROUNDS);
    var v := Jump(f, u, JUMP_ROUNDS).value;
    OutcomeIs(f, u);
    MonthAtIs(u);
    MonthAtIs(v);
    BeforeDecember(Calendar.MonthOf(DayOf(v)));
  }

  lemma OutcomeIs(f: Fields, u: nat)
    requires WellParsed(f)
    ensures Jump(f, u, JUMP_ROUNDS).Some? ==> JumpOutcome(f, u) == Jumped(Jump(f, u, JUMP_ROUNDS).value)
  {}

  lemma MonthAtIs(u: nat)
    ensures MonthAt(u) == Calendar.MonthNumber(Calendar.MonthOf(DayOf(u)))
  {}

  lemma BeforeDecember(k: nat)
    requires Calendar.MonthNumber(k) == 12
    ensures k > 0 && Calendar.MonthNumber(k - 1) == 11 && Calendar.MonthLength(k - 1) == 30
  {}

  // -------------------------------------------------------------- earliest replies

  lemma LeastFirst(text: string, min: int, max: int)
    requires ',' !in text
    ensures CronTheorems.FirstIsLeast(ParseField(text, min, max))
  {
    hide ParseField, TrimSpace;
    ParseFieldIsSound(text, min, max);
    var a, b := TrimSpaceIs(text);
  }

  /** Without a comma every clock list begins with its least value. */
  lemma ClocksBeginLeast(expr: string)
    requires ',' !in expr
    ensures var p := ParseExpression(expr); p.Some? ==>
      && CronTheorems.FirstIsLeast(p.value.hours) && CronTheorems.FirstIsLeast(p.value.minutes)
      && CronTheorems.FirstIsLeast(p.value.seconds)
  {
    var parts := Words(expr);
    WordsAreSlices(expr);
    if |parts| >= 5 {
      var k := if |parts| >= 6 then 1 else 0;
      hide ParseField, CronTheorems.FirstIsLeast, Words;
      assert forall i :: 0 <= i < |parts| ==> ',' !in parts[i];
      LeastFirst(if k == 1 then parts[0] else "0", 0, 59);
      LeastFirst(parts[k], 0, 59);
      LeastFirst(parts[k + 1], 0, 23);
    }
  }

  /** What is earliest about a reply: one found step by step, or a jump to a day up to
    the 28th if the weekday is `*` and the lists begin with their least values. */
  ghost predicate NothingBefore(f: Fields, nowMs: nat, reply: Reply, leastFirst: bool, u: nat)
    requires WellParsed(f)
  {
    var r := Search(f, nowMs / 1000);
    && (r.Found? ==> reply == At(r.time * 1000) && (nowMs / 1000 < u < r.time ==> !Matches(f, u)))
    && (r.Jumped? ==>
          && reply == At(r.time * 1000)
          && (f.days[0] <= 28 && f.weekdayWild && leastFirst && nowMs / 1000 < u < r.time ==> !Matches(f, u)))
  }

  /** For every accepted text no match is passed over, at the resolution of a second;
    with a jump, if the day is at most 28, the weekday `*`, and the text has no comma. */
  lemma NextCronIsEarliest(expr: string, nowMs: nat, u: nat)
    ensures var p := ParseExpression(expr);
      p.Some? ==> WellParsed(p.value) && NothingBefore(p.value, nowMs, NextCron(expr, nowMs), ',' !in expr, u)
  {
    hide ParseExpression, Search, Matches, CronTheorems.FirstIsLeast;
    ParsedIsWellParsed(expr);
    var p := ParseExpression(expr);
    if p.Some? {
      CronTheorems.FoundIsEarliest(p.value, nowMs / 1000, u);
      if ',' !in expr {
        ClocksBeginLeast(expr);
        JumpIsEarliest(p.value, nowMs / 1000, u);
      }
    }
  }

  lemma JumpIsEarliest(f: Fields, now: nat, u: nat)
    requires WellParsed(f) && f.days != []
    requires CronTheorems.FirstIsLeast(f.hours) && CronTheorems.FirstIsLeast(f.minutes)
    requires CronTheorems.FirstIsLeast(f.seconds)
    ensures var r := Search(f, now);
      r.Jumped? && f.days[0] <= 28 && f.weekdayWild && now < u < r.time ==> !Matches(f, u)
  {
    hide Search, Matches, CronTheorems.FirstIsLeast, WellParsed;
    var r := Search(f, now);
    if r.Jumped? && f.days[0] <= 28 && f.weekdayWild && now < u < r.time {
      CronTheorems.JumpedIsEarliest(f, now, u);
    }
  }
}
