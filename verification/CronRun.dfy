/** Cron expressions and job schedules, from text to the next run. */
module CronRun {
  import opened Options
  import opened Strings
  import opened CronParse
  import opened CronSearch
  import CronTheorems

  // -------------------------------------------------------------- expressions

  /** The parsed lists of five fields, or of six with seconds first. */
  function FieldsOf(parts: seq<string>): Fields
    requires |parts| >= 5
  {
    var k := if |parts| >= 6 then 1 else 0;
    Fields(ParseField(if k == 1 then parts[0] else "0", 0, 59),
           ParseField(parts[k], 0, 59), ParseField(parts[k + 1], 0, 23),
           ParseField(parts[k + 2], 1, 31), ParseField(parts[k + 3], 1, 12),
           ParseField(parts[k + 4], 0, 6),
           TrimSpace(parts[k + 2]) == "*", TrimSpace(parts[k + 4]) == "*",
           if k == 1 then 1 else 60)
  }

  predicate Accepted(f: Fields) {
    f.seconds != [] && f.minutes != [] && f.hours != [] && f.days != [] && f.months != [] && f.weekdays != []
  }

  /** Words past the sixth are ignored. */
  function ParseExpression(expr: string): Option<Fields> {
    var parts := Words(expr);
    if |parts| < 5 then None
    else
      var f := FieldsOf(parts);
      if Accepted(f) then Some(f) else None
  }

  lemma ZeroSecond()
    ensures ParseField("0", 0, 59) == [0]
  {
    FieldRoundTrip(Values([0]), 0, 59);
    assert Print(Values([0])) == "0" by {
      assert Itoa(0) == "0";
      JoinOne(Printed([0]), ',');
    }
    assert [0][1..] == [];
    assert KeepWithin([0], 0, 59) == [0] + KeepWithin([], 0, 59);
  }

  lemma FieldIsInRange(text: string, min: int, max: int)
    ensures var xs := ParseField(text, min, max);
      && (xs != [] ==> InRange(xs, min, max))
      && (TrimSpace(text) == "*" ==> |xs| == (if min <= max then max - min + 1 else 0)
                                     && forall x :: min <= x <= max ==> x in xs)
  {
    hide TrimSpace, ParseField;
    ParseFieldIsSound(text, min, max);
  }

  lemma FieldsAreWellParsed(parts: seq<string>)
    requires |parts| >= 5
    ensures Accepted(FieldsOf(parts)) ==> WellParsed(FieldsOf(parts))
  {
    var k := if |parts| >= 6 then 1 else 0;
    ZeroSecond();
    hide TrimSpace, ParseField;
    FieldIsInRange(if k == 1 then parts[0] else "0", 0, 59);
    FieldIsInRange(parts[k], 0, 59);
    FieldIsInRange(parts[k + 1], 0, 23);
    FieldIsInRange(parts[k + 2], 1, 31);
    FieldIsInRange(parts[k + 3], 1, 12);
    FieldIsInRange(parts[k + 4], 0, 6);
    hide InRange;
  }

  /** Whatever the text, lists that were accepted are what the search relies on. */
  lemma ParsedIsWellParsed(expr: string)
    ensures var r := ParseExpression(expr); r.Some? ==> WellParsed(r.value)
  {
    hide FieldsOf, Accepted, WellParsed, Words;
    var parts := Words(expr);
    if |parts| >= 5 {
      FieldsAreWellParsed(parts);
    }
  }

  datatype Reply = At(ms: int) | NoReply

  const HOUR_MS := 3600000

  /** `parseCronExpression`; NoReply stands for the month loop running forever. */
  function NextCron(expr: string, nowMs: nat): Reply {
    var r := ParseExpression(expr);
    if r.None? then At(nowMs + HOUR_MS)
    else
      ParsedIsWellParsed(expr);
      match Search(r.value, nowMs / 1000)
      case Found(t) => At(t * 1000)
      case Jumped(t) => At(t * 1000)
      case Exhausted => At(nowMs + HOUR_MS)
      case Hangs => NoReply
  }

  /** What the search of an accepted expression answers. */
  lemma SearchAnswers(f: Fields, now: nat)
    requires WellParsed(f)
    ensures var r := Search(f, now);
      && (r.Found? ==> r.time > now && Matches(f, r.time))
      && (r.Jumped? ==> r.time > now && |f.days| == 1 && MonthAt(r.time) in f.months
                        && (f.days[0] <= 28 ==> Matches(f, r.time)))
      && (r.Hangs? ==> |f.days| == 1 && !CronTheorems.DayFits(f))
  {
    hide Matches, MonthAt;
    CronTheorems.ResultIsAMatch(f, now);
    var t := Truncated(f, now);
    var k := SearchStops(f, t, MaxIterations(f));
    if Search(f, now).Hangs? {
      CronTheorems.JumpEndsIff(f, After(f, t, k + 1));
    }
  }

  /** A reply that is not the fallback's hour is later than now and in a listed
    month, and it matches every field unless a day past the 28th was jumped to. */
  ghost predicate GoodReply(f: Fields, nowMs: nat, ms: int)
    requires WellParsed(f)
  {
    && ms > nowMs && ms % 1000 == 0
    && MonthAt(ms / 1000) in f.months
    && (|f.days| > 1 || f.days[0] <= 28 ==> Matches(f, ms / 1000))
  }

  /** Every reply is good or exactly an hour away; there is no reply only when the
    single listed day is one that none of the listed months ever has. */
  lemma NextCronIsLater(expr: string, nowMs: nat)
    ensures var p := ParseExpression(expr); var r := NextCron(expr, nowMs);
      match r
      case At(ms) =>
        && ms > nowMs
        && (ms == nowMs + HOUR_MS || (p.Some? && WellParsed(p.value) && GoodReply(p.value, nowMs, ms)))
      case NoReply => p.Some? && WellParsed(p.value) && |p.value.days| == 1 && !CronTheorems.DayFits(p.value)
  {
    var p := ParseExpression(expr);
    if p.Some? {
      ParsedIsWellParsed(expr);
      hide ParseExpression, Search, Matches, WellParsed, CronTheorems.DayFits;
      SearchAnswers(p.value, nowMs / 1000);
      var r := Search(p.value, nowMs / 1000);
      if r.Found? {
        assert MonthAt(r.time) in p.value.months by { MatchMonth(p.value, r.time); }
        LaterMs(nowMs, r.time);
      } else if r.Jumped? {
        LaterMs(nowMs, r.time);
      }
    }
  }

  lemma MatchMonth(f: Fields, t: nat)
    requires Matches(f, t)
    ensures MonthAt(t) in f.months
  {}

  lemma LaterMs(nowMs: nat, t: nat)
    requires t > nowMs / 1000
    ensures t * 1000 > nowMs && t * 1000 % 1000 == 0 && t * 1000 / 1000 == t
  {}

  function FieldsMeant(minute: Spec, hour: Spec, day: Spec, month: Spec, weekday: Spec): Fields
    requires Printable(minute) && Printable(hour) && Printable(day) && Printable(month) && Printable(weekday)
  {
    Fields([0], Meaning(minute, 0, 59), Meaning(hour, 0, 23), Meaning(day, 1, 31), Meaning(month, 1, 12),
           Meaning(weekday, 0, 6), day.Every?, weekday.Every?, 60)
  }

  lemma FieldsOfPrinted(minute: Spec, hour: Spec, day: Spec, month: Spec, weekday: Spec)
    requires Printable(minute) && Printable(hour) && Printable(day) && Printable(month) && Printable(weekday)
    ensures FieldsOf([Print(minute), Print(hour), Print(day), Print(month), Print(weekday)])
         == FieldsMeant(minute, hour, day, month, weekday)
  {
    hide Print, ParseField, TrimSpace, Meaning, Printable, IsWord;
    PrintIsWord(day); PrintIsWord(weekday);
    FieldRoundTrip(minute, 0, 59);
    FieldRoundTrip(hour, 0, 23);
    FieldRoundTrip(day, 1, 31);
    FieldRoundTrip(month, 1, 12);
    FieldRoundTrip(weekday, 0, 6);
    ZeroSecond();
  }

  /** A printed expression is read back as the meanings of its fields. */
  lemma ExpressionRoundTrip(minute: Spec, hour: Spec, day: Spec, month: Spec, weekday: Spec)
    requires Printable(minute) && Printable(hour) && Printable(day) && Printable(month) && Printable(weekday)
    ensures var f := FieldsMeant(minute, hour, day, month, weekday);
      ParseExpression(Join([Print(minute), Print(hour), Print(day), Print(month), Print(weekday)], ' '))
      == if Accepted(f) then Some(f) else None
  {
    hide Print, Join, Words, Printable, IsWord, Accepted, FieldsOf, FieldsMeant;
    PrintIsWord(minute); PrintIsWord(hour); PrintIsWord(day); PrintIsWord(month); PrintIsWord(weekday);
    WordsOfJoin([Print(minute), Print(hour), Print(day), Print(month), Print(weekday)]);
    FieldsOfPrinted(minute, hour, day, month, weekday);
  }

  function SixFieldsMeant(second: Spec, minute: Spec, hour: Spec, day: Spec, month: Spec, weekday: Spec): Fields
    requires Printable(second) && Printable(minute) && Printable(hour)
    requires Printable(day) && Printable(month) && Printable(weekday)
  {
    Fields(Meaning(second, 0, 59), Meaning(minute, 0, 59), Meaning(hour, 0, 23), Meaning(day, 1, 31),
           Meaning(month, 1, 12), Meaning(weekday, 0, 6), day.Every?, weekday.Every?, 1)
  }

  /** Six printed fields are read back with the second first, and the search goes
    second by second. */
  lemma SixFieldsRoundTrip(second: Spec, minute: Spec, hour: Spec, day: Spec, month: Spec, weekday: Spec)
    requires Printable(second) && Printable(minute) && Printable(hour)
    requires Printable(day) && Printable(month) && Printable(weekday)
    ensures var f := SixFieldsMeant(second, minute, hour, day, month, weekday);
      ParseExpression(Join([Print(second), Print(minute), Print(hour), Print(day), Print(month), Print(weekday)], ' '))
      == if Accepted(f) then Some(f) else None
  {
    hide Print, Join, Words, Printable, IsWord, Accepted, FieldsOf, SixFieldsMeant;
    PrintIsWord(second); PrintIsWord(minute); PrintIsWord(hour);
    PrintIsWord(day); PrintIsWord(month); PrintIsWord(weekday);
    WordsOfJoin([Print(second), Print(minute), Print(hour), Print(day), Print(month), Print(weekday)]);
    SixFieldsOfPrinted(second, minute, hour, day, month, weekday);
  }

  lemma SixFieldsOfPrinted(second: Spec, minute: Spec, hour: Spec, day: Spec, month: Spec, weekday: Spec)
    requires Printable(second) && Printable(minute) && Printable(hour)
    requires Printable(day) && Printable(month) && Printable(weekday)
    ensures FieldsOf([Print(second), Print(minute), Print(hour), Print(day), Print(month), Print(weekday)])
         == SixFieldsMeant(second, minute, hour, day, month, weekday)
  {
    hide Print, ParseField, TrimSpace, Meaning, Printable, IsWord;
    PrintIsWord(day); PrintIsWord(weekday);
    FieldRoundTrip(second, 0, 59);
    FieldRoundTrip(minute, 0, 59);
    FieldRoundTrip(hour, 0, 23);
    FieldRoundTrip(day, 1, 31);
    FieldRoundTrip(month, 1, 12);
    FieldRoundTrip(weekday, 0, 6);
  }

  /** Fewer than five words are rejected, and words past the sixth change nothing. */
  lemma OnlySixWords(a: string, b: string)
    ensures |Words(a)| < 5 ==> ParseExpression(a) == None
    ensures |Words(a)| >= 6 && |Words(b)| >= 6 && Words(a)[..6] == Words(b)[..6] ==>
              ParseExpression(a) == ParseExpression(b)
  {
    hide Words, ParseField, TrimSpace, Accepted;
    var x, y := Words(a), Words(b);
    if |x| >= 6 && |y| >= 6 && x[..6] == y[..6] {
      assert forall i :: 0 <= i < 6 ==> x[i] == x[..6][i] == y[i];
    }
  }

  lemma PrintIsWord(s: Spec)
    requires Printable(s)
    ensures IsWord(Print(s)) && TrimSpace(Print(s)) == Print(s) && (Print(s) == "*" <==> s.Every?)
  {
    hide TrimSpace, Itoa, Join;
    match s
    case Every => TrimmedStays("*");
    case EachNth(step) =>
      var f := "*/" + Itoa(step);
      assert f[|f| - 1] in Itoa(step);
      TrimmedStays(f);
    case Range(first, last) =>
      var parts := [Itoa(first), Itoa(last)];
      JoinChars(parts, '-');
      DigitsTrimmed(Join(parts, '-'));
    case Values(ns) =>
      JoinChars(Printed(ns), ',');
      DigitsTrimmed(Join(Printed(ns), ','));
  }

  // ------------------------------------------------------------ the loop itself

  lemma SearchIs(f: Fields, now: nat)
    requires WellParsed(f)
    ensures Search(f, now) == SearchFrom(f, Truncated(f, now), MaxIterations(f))
  {}

  method IterationLimit(f: Fields) returns (maxIterations: nat)
    ensures maxIterations == MaxIterations(f)
  {
    maxIterations := if f.step == 1 then 7 * 24 * 60 * 60 else 10080;
    if |f.months| == 1 || |f.days| == 1 || |f.hours| == 1 {
      maxIterations := if f.step == 1 then 31 * 24 * 60 * 60 else 44640;
    }
  }

  /** The five tests of an iteration, in the order of the source. */
  lemma OneIteration(f: Fields, t: nat, n: nat)
    requires WellParsed(f)
    ensures SearchFrom(f, t, 0) == Exhausted
    ensures n > 0 ==> var u := t + f.step;
      SearchFrom(f, t, n)
      == if MonthAt(u) !in f.months && |f.days| == 1 then JumpOutcome(f, u)
         else if MonthAt(u) !in f.months || !DayRule(f, DayOf(u)) || HourAt(u) !in f.hours
                 || MinuteAt(u) !in f.minutes || SecondAt(u) !in f.seconds then SearchFrom(f, u, n - 1)
         else Found(u)
  {
    hide WellParsed, DayRule, JumpOutcome, MonthAt, HourAt, MinuteAt, SecondAt, DayOf;
  }

  method SearchLoop(f: Fields, now: nat) returns (r: Outcome)
    requires WellParsed(f)
    ensures r == Search(f, now)
  {
    hide *;
    SearchIs(f, now);
    var next: nat := Truncated(f, now);
    var maxIterations := IterationLimit(f);
    var i: nat := 0;
    while i < maxIterations
      invariant 0 <= i <= maxIterations
      invariant Search(f, now) == SearchFrom(f, next, maxIterations - i)
    {
      OneIteration(f, next, maxIterations - i);
      i := i + 1;
      next := next + f.step;
      if MonthAt(next) !in f.months {
        if |f.days| == 1 {
          r := MonthLoop(f, next);
          return;
        }
        continue;
      }
      if !DayRule(f, DayOf(next)) { continue; }
      if HourAt(next) !in f.hours { continue; }
      if MinuteAt(next) !in f.minutes { continue; }
      if SecondAt(next) !in f.seconds { continue; }
      return Found(next);
    }
    OneIteration(f, next, 0);
    return Exhausted;
  }

  /** The month loop.  Its 97th test cannot succeed, so it stops there where the
    source would go on for ever. */
  method MonthLoop(f: Fields, t: nat) returns (r: Outcome)
    requires WellParsed(f)
    ensures r == JumpOutcome(f, t)
  {
    hide NextMonth, MonthAt, WellParsed;
    var next: nat, rounds := t, JUMP_ROUNDS;
    while MonthAt(next) !in f.months && rounds > 0
      invariant Jump(f, t, JUMP_ROUNDS) == Jump(f, next, rounds)
      decreases rounds
    {
      next := NextMonth(f, next);
      rounds := rounds - 1;
    }
    r := if MonthAt(next) in f.months then Jumped(next) else Hangs;
  }
}
