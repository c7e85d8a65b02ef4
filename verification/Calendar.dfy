/** Civil dates in UTC from 1970 on: months are numbered from January 1970 and
  days from 1 January 1970. */
module Calendar {

  predicate IsLeap(year: int) {
    year % 4 == 0 && (year % 100 != 0 || year % 400 == 0)
  }

  function Year(month: nat): nat { 1970 + month / 12 }

  /** 1 for January to 12 for December. */
  function MonthNumber(month: nat): (m: nat)
    ensures 1 <= m <= 12
  {
    month % 12 + 1
  }

  function MonthLength(month: nat): (n: nat)
    ensures 28 <= n <= 31
  {
    var m := MonthNumber(month);
    if m == 2 then (if IsLeap(Year(month)) then 29 else 28)
    else if m == 4 || m == 6 || m == 9 || m == 11 then 30
    else 31
  }

  /** The day number of the first of a month. */
  function MonthStart(month: nat): nat {
    if month == 0 then 0 else MonthStart(month - 1) + MonthLength(month - 1)
  }

  /** The month a day lies in. */
  function MonthOf(day: nat): (month: nat)
    ensures MonthStart(month) <= day < MonthStart(month + 1)
  {
    if day == 0 then 0
    else
      var month := MonthOf(day - 1);
      if day < MonthStart(month + 1) then month else month + 1
  }

  function DayOfMonth(day: nat): (d: nat)
    ensures 1 <= d <= 31
  {
    day - MonthStart(MonthOf(day)) + 1
  }

  /** 0 for Sunday to 6 for Saturday; 1 January 1970 was a Thursday. */
  function Weekday(day: nat): (wd: nat)
    ensures 0 <= wd <= 6
  {
    (day + 4) % 7
  }

  lemma {:induction false} MonthStartGrows(a: nat, b: nat)
    requires a < b
    ensures MonthStart(a) + MonthLength(a) <= MonthStart(b)
    decreases b
  {
    if a + 1 < b {
      MonthStartGrows(a, b - 1);
    }
  }

  /** A day lies in exactly one month. */
  lemma MonthOfIs(day: nat, month: nat)
    requires MonthStart(month) <= day < MonthStart(month) + MonthLength(month)
    ensures MonthOf(day) == month
    ensures DayOfMonth(day) == day - MonthStart(month) + 1
  {
    var k := MonthOf(day);
    if k < month {
      MonthStartGrows(k, month);
    } else if month < k {
      MonthStartGrows(month, k);
    }
  }

  lemma {:induction false} MonthOfGrows(a: nat, b: nat)
    requires a <= b
    ensures MonthOf(a) <= MonthOf(b)
  {
    if MonthOf(b) < MonthOf(a) {
      MonthStartGrows(MonthOf(b), MonthOf(a));
    }
  }

  /** Every day of the month from 1 to 28 occurs in any 31 consecutive days. */
  lemma DayOccurs(from: nat, d: nat) returns (j: nat)
    requires 1 <= d <= 28
    ensures j < 31 && DayOfMonth(from + j) == d
  {
    var k := MonthOf(from);
    if DayOfMonth(from) <= d {
      j := d - DayOfMonth(from);
      MonthOfIs(from + j, k);
    } else {
      j := MonthStart(k + 1) + d - 1 - from;
      MonthOfIs(from + j, k + 1);
    }
  }

  /** The leap days of the years since 1970, by counting the multiples of 4, 100 and 400. */
  function LeapDays(years: nat): int {
    (years + 1) / 4 - (years + 69) / 100 + (years + 369) / 400
  }

  lemma LeapDaysMore(years: nat)
    ensures LeapDays(years + 1) == LeapDays(years) + if IsLeap(1970 + years) then 1 else 0
  {
    MultipleMore(years, 1, 4, 492);
    MultipleMore(years, 69, 100, 19);
    MultipleMore(years, 369, 400, 4);
    Divides(1970 + years, 4, 25);
    Divides(1970 + years, 100, 4);
    LeapsAre(1970 + years);
  }

  lemma LeapsAre(year: nat)
    requires (year % 100 == 0 ==> year % 4 == 0) && (year % 400 == 0 ==> year % 100 == 0)
    ensures (if IsLeap(year) then 1 else 0)
         == (if year % 4 == 0 then 1 else 0) - (if year % 100 == 0 then 1 else 0) + if year % 400 == 0 then 1 else 0
  {}

  /** One more multiple of m exactly if the year is one. */
  lemma MultipleMore(years: nat, offset: nat, m: nat, k: nat)
    requires m > 0 && 1970 == offset + 1 + m * k
    ensures (years + 1 + offset) / m == (years + offset) / m + if (1970 + years) % m == 0 then 1 else 0
  {
    CountMore(years + offset, m);
    SameRemainder(years + offset + 1, m, k);
    assert 1970 + years == years + offset + 1 + m * k;
  }

  lemma Divides(n: nat, m: nat, k: nat)
    requires m > 0 && k > 0
    ensures m * k > 0 && (n % (m * k) == 0 ==> n % m == 0)
  {
    var q := n / (m * k);
    if n % (m * k) == 0 {
      assert n == m * k * q;
      assert n == m * (k * q);
      Quotient(n, m, k * q, 0);
    }
  }

  lemma CountMore(n: nat, m: nat)
    requires m > 0
    ensures (n + 1) / m == n / m + if (n + 1) % m == 0 then 1 else 0
  {
    var q, r := n / m, n % m;
    assert n == m * q + r;
    if r + 1 == m {
      Quotient(n + 1, m, q + 1, 0);
    } else {
      Quotient(n + 1, m, q, r + 1);
    }
  }

  lemma Quotient(n: nat, m: nat, q: nat, r: nat)
    requires m > 0 && r < m && n == m * q + r
    ensures n / m == q && n % m == r
  {
    var k := n / m - q;
    assert m * k == r - n % m;
  }

  lemma SameRemainder(n: nat, m: nat, k: nat)
    requires m > 0
    ensures (n + m * k) % m == n % m && (n + m * k) / m == n / m + k
  {
    var q := n / m;
    assert n + m * k == m * (q + k) + n % m;
    Quotient(n + m * k, m, q + k, n % m);
  }

  /** The days of a year before its k-th month, and with k = 12 all of them. */
  function DaysBefore(k: nat, leap: bool): int {
    (367 * (k + 1) - 362) / 12 - if k < 2 then 0 else if leap then 1 else 2
  }

  lemma LengthIs(years: nat, k: nat)
    requires k < 12
    ensures MonthLength(12 * years + k)
         == DaysBefore(k + 1, IsLeap(1970 + years)) - DaysBefore(k, IsLeap(1970 + years))
  {
    hide IsLeap;
    assert MonthNumber(12 * years + k) == k + 1 && Year(12 * years + k) == 1970 + years;
  }

  lemma {:induction false} InYear(years: nat, k: nat)
    requires k <= 12
    ensures MonthStart(12 * years + k) == MonthStart(12 * years) + DaysBefore(k, IsLeap(1970 + years))
  {
    hide IsLeap, MonthLength;
    if k > 0 {
      hide DaysBefore;
      InYear(years, k - 1);
      LengthIs(years, k - 1);
    }
  }

  /** The first of a month, in closed form: 365 days a year and its leap days, the days
    of the months before it, and a correction for February. */
  lemma {:induction false} MonthStartIs(years: nat, k: nat)
    requires k < 12
    ensures MonthStart(12 * years + k)
         == 365 * years + (367 * (k + 1) - 362) / 12 + if k < 2 then LeapDays(years) else LeapDays(years + 1) - 2
    decreases years, k
  {
    hide IsLeap, LeapDays, MonthStart;
    InYear(years, k);
    LeapDaysMore(years);
    if k > 0 {
      MonthStartIs(years, 0);
    } else if years > 0 {
      MonthStartIs(years - 1, 0);
      InYear(years - 1, 12);
      LeapDaysMore(years - 1);
    } else {
      NothingBefore();
    }
  }

  lemma NothingBefore()
    ensures MonthStart(0) == 0 && LeapDays(0) == 0
  {}

  /** 400 years are 146097 days, and these are whole weeks. */
  lemma FourHundredYears(years: nat, k: nat)
    requires k < 12
    ensures MonthStart(12 * (years + 400) + k) == MonthStart(12 * years + k) + 146097
    ensures Weekday(MonthStart(12 * (years + 400) + k)) == Weekday(MonthStart(12 * years + k))
  {
    hide MonthStart, LeapDays;
    MonthStartIs(years, k);
    MonthStartIs(years + 400, k);
    LeapCycle(years);
    LeapCycle(years + 1);
    SameRemainder(MonthStart(12 * years + k) + 4, 7, 20871);
  }

  lemma LeapCycle(years: nat)
    ensures LeapDays(years + 400) == LeapDays(years) + 97
  {
    SameRemainder(years + 1, 4, 100);
    SameRemainder(years + 69, 100, 4);
    SameRemainder(years + 369, 400, 1);
  }

  /** 1 January 2000 was a Saturday, 1 March 2100 will be a Monday. */
  lemma KnownDays()
    ensures MonthStart(12 * 30) == 10957 && Weekday(10957) == 6
    ensures MonthStart(12 * 130 + 2) == 47541 && Weekday(47541) == 1
  {
    hide MonthStart;
    MonthStartIs(30, 0);
    MonthStartIs(130, 2);
  }

  /** A leap year comes within eight years. */
  lemma LeapYearComes(year: nat) returns (leap: nat)
    ensures year < leap <= year + 8 && IsLeap(leap)
  {
    var a := year - year % 4 + 4;
    leap := if a % 100 == 0 then a + 4 else a;
    assert a % 4 == 0;
    assert (a + 4) % 4 == 0;
    if a % 100 == 0 {
      assert (a + 4) % 100 == 4;
    }
  }
}
