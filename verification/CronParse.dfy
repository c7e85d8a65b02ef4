/** Reading a cron expression into lists of values. */
module CronParse {
  import opened Options
  import opened Strings

  // -------------------------------------------------------------- one field

  /** The values from lo to hi. */
  function Span(lo: int, hi: int): seq<int> {
    if lo > hi then [] else seq(hi - lo + 1, i => lo + i)
  }

  function Steps(from: int, hi: int, step: int): seq<int>
    requires step > 0
    decreases hi - from
  {
    if from > hi then [] else [from] + Steps(from + step, hi, step)
  }

  function ParseInt(s: string): Option<int> { Atoi(TrimSpace(s)) }

  function Listed(parts: seq<string>, min: int, max: int): seq<int> {
    if parts == [] then []
    else
      var rest := Listed(parts[1..], min, max);
      match ParseInt(parts[0])
      case Some(n) => if min <= n <= max then [n] + rest else rest
      case None => rest
  }

  function Single(field: string, min: int, max: int): seq<int> {
    match ParseInt(field)
    case Some(n) => if min <= n <= max then [n] else []
    case None => []
  }

  /** An empty result marks the field as invalid. */
  function ParseField(text: string, min: int, max: int): seq<int> {
    var field := TrimSpace(text);
    if field == "" then []
    else if field == "*" then Span(min, max)
    else if "*/" <= field then
      match ParseInt(field[2..])
      case Some(step) => if step <= 0 then [] else Steps(min, max, step)
      case None => []
    else if ',' in field then Listed(Split(field, ','), min, max)
    else if '-' in field && |Split(field, '-')| == 2 then
      var ends := Split(field, '-');
      match (ParseInt(ends[0]), ParseInt(ends[1]))
      case (Some(a), Some(b)) =>
        if a > b then [] else Span(if a < min then min else a, if b > max then max else b)
      case _ => []
    else Single(field, min, max)
  }

  ghost predicate Within(xs: seq<int>, lo: int, hi: int) {
    forall i :: 0 <= i < |xs| ==> lo <= xs[i] <= hi
  }

  ghost predicate Ascending(xs: seq<int>) {
    forall i, j :: 0 <= i < j < |xs| ==> xs[i] < xs[j]
  }

  lemma SpanIs(lo: int, hi: int)
    ensures var xs := Span(lo, hi);
      && |xs| == (if lo <= hi then hi - lo + 1 else 0)
      && (forall i :: 0 <= i < |xs| ==> xs[i] == lo + i)
      && (forall x :: x in xs <==> lo <= x <= hi)
  {
    forall x | lo <= x <= hi ensures x in Span(lo, hi) {
      assert Span(lo, hi)[x - lo] == x;
    }
  }

  /** Every step-th value from the first, and no other. */
  lemma {:induction false} StepsAre(from: int, hi: int, step: int)
    requires step > 0
    ensures var xs := Steps(from, hi, step);
      && Ascending(xs) && Within(xs, from, hi)
      && (from <= hi ==> xs != [] && xs[0] == from)
      && (forall x :: x in xs <==> from <= x <= hi && (x - from) % step == 0)
    decreases hi - from
  {
    if from <= hi {
      StepsAre(from + step, hi, step);
      var rest := Steps(from + step, hi, step);
      forall x ensures x in [from] + rest <==> from <= x <= hi && (x - from) % step == 0 {
        if from <= x <= hi {
          StepBack(x - from, step);
        }
      }
    }
  }

  lemma StepBack(d: nat, step: int)
    requires step > 0
    ensures d < step ==> (d % step == 0 <==> d == 0)
    ensures d >= step ==> d % step == (d - step) % step
  {
    if d >= step {
      assert d == step * (d / step) + d % step;
      assert d - step == step * (d / step - 1) + d % step;
      Remainder(d - step, step, d / step - 1, d % step);
    }
  }

  lemma Remainder(a: int, m: int, q: int, r: int)
    requires m > 0 && 0 <= r < m && a == m * q + r
    ensures a % m == r && a / m == q
  {
    var q', r' := a / m, a % m;
    assert a == m * q' + r';
    Distribute(m, q, q');
    if q > q' {
      AtLeast(m, q - q');
    } else if q < q' {
      Distribute(m, q', q);
      AtLeast(m, q' - q);
    }
  }

  lemma Distribute(m: int, a: int, b: int)
    ensures m * (a - b) == m * a - m * b
  {}

  lemma AtLeast(m: int, k: int)
    requires m > 0 && k > 0
    ensures m * k >= m
  {}

  lemma {:induction false} ListedWithin(parts: seq<string>, min: int, max: int)
    ensures Within(Listed(parts, min, max), min, max)
  {
    if parts != [] {
      ListedWithin(parts[1..], min, max);
    }
  }

  /** For every text the values are within the field's bounds; they ascend unless
    the field is a comma list. */
  lemma ParseFieldIsSound(text: string, min: int, max: int)
    ensures var xs := ParseField(text, min, max);
      && Within(xs, min, max)
      && (',' !in TrimSpace(text) || "*/" <= TrimSpace(text) ==> Ascending(xs))
      && (TrimSpace(text) == "*" ==> |xs| == (if min <= max then max - min + 1 else 0)
                                     && forall x :: min <= x <= max ==> x in xs)
  {
    hide TrimSpace, Atoi, Split;
    var field := TrimSpace(text);
    SpanIs(min, max);
    if field != "" && field != "*" {
      if "*/" <= field {
        var r := ParseInt(field[2..]);
        if r.Some? && r.value > 0 { StepsAre(min, max, r.value); }
      } else if ',' in field {
        ListedWithin(Split(field, ','), min, max);
      } else if '-' in field && |Split(field, '-')| == 2 {
        var ends := Split(field, '-');
        var a, b := ParseInt(ends[0]), ParseInt(ends[1]);
        if a.Some? && b.Some? {
          SpanIs(if a.value < min then min else a.value, if b.value > max then max else b.value);
        }
      }
    }
  }

  // ----------------------------------------------------- a printer, and back

  datatype Spec =
    | Every
    | EachNth(step: nat)
    | Range(first: nat, last: nat)
    | Values(ns: seq<nat>)

  predicate Printable(s: Spec) {
    match s
    case Every => true
    case EachNth(step) => 0 < step <= MAX_INT64
    case Range(first, last) => first <= last <= MAX_INT64
    case Values(ns) => ns != [] && forall i :: 0 <= i < |ns| ==> ns[i] <= MAX_INT64
  }

  function Printed(ns: seq<nat>): (parts: seq<string>)
    ensures |parts| == |ns| && forall i :: 0 <= i < |ns| ==> parts[i] == Itoa(ns[i])
  {
    if ns == [] then [] else [Itoa(ns[0])] + Printed(ns[1..])
  }

  function Print(s: Spec): string
    requires Printable(s)
  {
    match s
    case Every => "*"
    case EachNth(step) => "*/" + Itoa(step)
    case Range(first, last) => Join([Itoa(first), Itoa(last)], '-')
    case Values(ns) => Join(Printed(ns), ',')
  }

  function KeepWithin(ns: seq<nat>, min: int, max: int): seq<int> {
    if ns == [] then []
    else if min <= ns[0] <= max then [ns[0]] + KeepWithin(ns[1..], min, max)
    else KeepWithin(ns[1..], min, max)
  }

  /** What a field means, read off its parts instead of its text. */
  function Meaning(s: Spec, min: int, max: int): seq<int>
    requires Printable(s)
  {
    match s
    case Every => Span(min, max)
    case EachNth(step) => Steps(min, max, step)
    case Range(first, last) => Span(if first < min then min else first, if last > max then max else last)
    case Values(ns) => KeepWithin(ns, min, max)
  }

  predicate AllOf(s: string, cs: set<char>) { forall c :: c in s ==> IsDigit(c) || c in cs }

  lemma {:induction false} JoinChars(parts: seq<string>, sep: char)
    requires parts != [] && forall i :: 0 <= i < |parts| ==> parts[i] != "" && AllOf(parts[i], {})
    ensures var s := Join(parts, sep);
      && AllOf(s, {sep}) && s != "" && IsDigit(s[0]) && IsDigit(s[|s| - 1])
      && (!IsDigit(sep) ==> (sep in s <==> |parts| > 1))
  {
    assert parts[0][0] in parts[0] && parts[0][|parts[0]| - 1] in parts[0];
    if |parts| > 1 {
      JoinChars(parts[1..], sep);
      var s := Join(parts, sep);
      assert s[|parts[0]|] == sep;
      assert s[|s| - 1] == Join(parts[1..], sep)[|Join(parts[1..], sep)| - 1];
    }
  }

  lemma DigitsTrimmed(s: string)
    requires s != "" && IsDigit(s[0]) && IsDigit(s[|s| - 1])
    ensures TrimSpace(s) == s && s != "*" && !("*/" <= s)
  {
    TrimmedStays(s);
  }

  lemma ParseItoa(n: nat)
    requires n <= MAX_INT64
    ensures ParseInt(Itoa(n)) == Some(n)
  {
    var s := Itoa(n);
    assert s[0] in s && s[|s| - 1] in s;
    DigitsTrimmed(s);
    AtoiOfItoa(n);
  }

  lemma {:induction false} ListedPrinted(ns: seq<nat>, min: int, max: int)
    requires forall i :: 0 <= i < |ns| ==> ns[i] <= MAX_INT64
    ensures Listed(Printed(ns), min, max) == KeepWithin(ns, min, max)
  {
    hide Atoi, Itoa, TrimSpace;
    if ns != [] {
      ParseItoa(ns[0]);
      ListedPrinted(ns[1..], min, max);
      assert Printed(ns)[1..] == Printed(ns[1..]);
    }
  }

  lemma NoSeparator(n: nat, sep: char)
    requires !IsDigit(sep)
    ensures sep !in Itoa(n)
  {}

  /** Parsing a printed field gives back its meaning. */
  lemma FieldRoundTrip(s: Spec, min: int, max: int)
    requires Printable(s)
    ensures ParseField(Print(s), min, max) == Meaning(s, min, max)
  {
    match s
    case Every => TrimmedStays("*");
    case EachNth(step) => RoundTripStep(step, min, max);
    case Range(first, last) => RoundTripRange(first, last, min, max);
    case Values(ns) => RoundTripValues(ns, min, max);
  }

  lemma RoundTripStep(step: nat, min: int, max: int)
    requires 0 < step <= MAX_INT64
    ensures ParseField("*/" + Itoa(step), min, max) == Steps(min, max, step)
  {
    hide Atoi, Itoa, Split;
    var f := "*/" + Itoa(step);
    assert f[|f| - 1] in Itoa(step);
    TrimmedStays(f);
    assert f[2..] == Itoa(step);
    ParseItoa(step);
  }

  lemma RoundTripRange(first: nat, last: nat, min: int, max: int)
    requires first <= last <= MAX_INT64
    ensures ParseField(Join([Itoa(first), Itoa(last)], '-'), min, max)
         == Span(if first < min then min else first, if last > max then max else last)
  {
    hide Atoi, Itoa, Join, Split;
    var parts := [Itoa(first), Itoa(last)];
    JoinChars(parts, '-');
    var f := Join(parts, '-');
    DigitsTrimmed(f);
    NoSeparator(first, '-');
    NoSeparator(last, '-');
    SplitJoin(parts, '-');
    ParseItoa(first);
    ParseItoa(last);
  }

  lemma RoundTripValues(ns: seq<nat>, min: int, max: int)
    requires ns != [] && forall i :: 0 <= i < |ns| ==> ns[i] <= MAX_INT64
    ensures ParseField(Join(Printed(ns), ','), min, max) == KeepWithin(ns, min, max)
  {
    hide Atoi, Itoa, Join, Split;
    var parts := Printed(ns);
    JoinChars(parts, ',');
    var f := Join(parts, ',');
    DigitsTrimmed(f);
    if |ns| > 1 {
      forall p | p in parts ensures ',' !in p {
        var i :| 0 <= i < |parts| && parts[i] == p;
        NoSeparator(ns[i], ',');
      }
      SplitJoin(parts, ',');
      ListedPrinted(ns, min, max);
    } else {
      JoinOne(parts, ',');
      assert ns == [ns[0]];
      NoSeparator(ns[0], '-');
      ParseItoa(ns[0]);
    }
  }

  lemma JoinOne(parts: seq<string>, sep: char)
    requires |parts| == 1
    ensures Join(parts, sep) == parts[0]
  {}
}
