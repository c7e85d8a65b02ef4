/** The env.config file: KEY=VALUE lines read into a map and written back. */
module EnvConfig {
  import opened Options
  import opened Strings

  type Config = map<string, string>

  // ------------------------------------------------------------------- reading

  function Utf8Length(c: char): nat {
    if c < '\U{80}' then 1 else if c < '\U{800}' then 2 else if c < '\U{10000}' then 3 else 4
  }

  function ByteLength(s: string): nat {
    if s == "" then 0 else ByteLength(s[..|s| - 1]) + Utf8Length(s[|s| - 1])
  }

  /** The scanner's buffer: a longer line ends the reading. */
  const MAX_LINE: nat := 65535

  function SplitAt(line: string, sep: char): Option<nat> {
    if line == "" then None
    else if line[0] == sep then Some(0)
    else
      var r := SplitAt(line[1..], sep);
      if r.Some? then Some(r.value + 1) else None
  }

  /** The entry on a line, if it is one: not blank, not a comment, with a `=`. */
  function EntryOf(raw: string): Option<(string, string)> {
    var line := TrimSpace(raw);
    if line == "" || line[0] == '#' then None
    else
      match SplitAt(line, '=')
      case None => None
      case Some(i) =>
        SplitAtIs(line, '=');
        Some((TrimSpace(line[..i]), TrimSpace(line[i + 1..])))
  }

  lemma {:induction false} SplitAtIs(line: string, sep: char)
    ensures var r := SplitAt(line, sep);
      if r.Some? then r.value < |line| && line[r.value] == sep && sep !in line[..r.value] else sep !in line
  {
    if line != "" && line[0] != sep {
      SplitAtIs(line[1..], sep);
      var r := SplitAt(line[1..], sep);
      if r.Some? {
        assert line[..r.value + 1] == [line[0]] + line[1..][..r.value];
      } else {
        assert line == [line[0]] + line[1..];
      }
    }
  }

  function ReadLines(lines: seq<string>, config: Config): Config
    decreases |lines|
  {
    if lines == [] || ByteLength(lines[0]) > MAX_LINE then config
    else
      var e := EntryOf(lines[0]);
      ReadLines(lines[1..], if e.Some? then config[e.value.0 := e.value.1] else config)
  }

  /** A missing file reads as the empty map. */
  function Read(file: Option<string>): Config {
    if file.None? then map[] else ReadLines(Split(file.value, '\n'), map[])
  }

  // ------------------------------------------------------------------- writing

  function LineOf(key: string, value: string): string { key + "=" + value }

  /** The text written for the keys in some order. */
  function Written(config: Config, order: seq<string>): string
    requires forall k :: k in order ==> k in config
    decreases |order|
  {
    if order == [] then "" else LineOf(order[0], config[order[0]]) + "\n" + Written(config, order[1..])
  }

  ghost predicate Enumerates(order: seq<string>, keys: set<string>) {
    && (forall k :: k in order <==> k in keys)
    && forall i, j :: 0 <= i < j < |order| ==> order[i] != order[j]
  }

  /** What a file line can carry. */
  predicate Writable(key: string, value: string) {
    && Trimmed(key) && Trimmed(value)
    && '=' !in key && '\n' !in key && '\n' !in value
    && (key != "" ==> key[0] != '#')
    && ByteLength(LineOf(key, value)) <= MAX_LINE
  }

  ghost predicate WellFormed(config: Config) {
    forall k :: k in config ==> Writable(k, config[k])
  }

  // ---------------------------------------------------------------- byte lengths

  lemma {:induction false} ByteLengthConcat(a: string, b: string)
    ensures ByteLength(a + b) == ByteLength(a) + ByteLength(b)
  {
    if b == "" {
      assert a + b == a;
    } else {
      ByteLengthConcat(a, b[..|b| - 1]);
      assert (a + b)[..|a + b| - 1] == a + b[..|b| - 1];
    }
  }

  lemma ByteLengthOfSlice(s: string, a: nat, b: nat)
    requires a <= b <= |s|
    ensures ByteLength(s[a..b]) <= ByteLength(s)
  {
    hide ByteLength;
    assert s == s[..a] + (s[a..b] + s[b..]);
    ByteLengthConcat(s[..a], s[a..b] + s[b..]);
    ByteLengthConcat(s[a..b], s[b..]);
  }

  // -------------------------------------------------------- written, then read

  lemma WritableIsRead(key: string, value: string)
    requires Writable(key, value)
    ensures EntryOf(LineOf(key, value)) == Some((key, value))
  {
    hide IsSpace, ByteLength;
    var line := LineOf(key, value);
    assert !IsSpace('=') by { EqualsIsNoSpace(); }
    assert line[0] == if key == "" then '=' else key[0];
    assert line[|line| - 1] == if value == "" then '=' else value[|value| - 1];
    TrimmedStays(line);
    FirstSeparator(key, value);
    assert line[..|key|] == key && line[|key| + 1..] == value;
    TrimmedStays(key);
    TrimmedStays(value);
  }

  ghost predicate Blank(s: string) { forall c :: c in s ==> IsSpace(c) }

  lemma BlankSlice(s: string, a: nat, b: nat)
    requires a <= b <= |s| && forall i :: a <= i < b ==> IsSpace(s[i])
    ensures Blank(s[a..b])
  {
    hide IsSpace;
  }

  /** White space round the key and round the value is no part of them. */
  lemma PaddedLine(a: string, key: string, b: string, c: string, value: string, d: string)
    requires Blank(a) && Blank(b) && Blank(c) && Blank(d) && Trimmed(key) && Trimmed(value)
    requires '=' !in key && (key != "" ==> key[0] != '#')
    ensures EntryOf((a + key + b) + "=" + (c + value + d)) == Some((key, value))
  {
    hide IsSpace, TrimSpace;
    EqualsIsNoSpace();
    var raw := LineOf(a + key + b, c + value + d);
    var e := |a + key + b|;
    assert raw[e] == '=';
    var x, y := TrimSpaceIs(raw);
    var line := TrimSpace(raw);
    assert x <= e < y;
    PaddedKey(raw, a, key, b, c + value + d, x);
    PaddedValue(raw, a + key + b, c, value, d, y);
    assert line == raw[x..e] + "=" + raw[e + 1..y];
    FirstSeparator(raw[x..e], raw[e + 1..y]);
    assert line[..e - x] == raw[x..e] && line[e - x + 1..] == raw[e + 1..y];
    assert line[0] == raw[x];
  }

  /** What is before the separator once the line is trimmed. */
  lemma PaddedKey(raw: string, a: string, key: string, b: string, behind: string, x: nat)
    requires Blank(a) && Blank(b) && Trimmed(key) && '=' !in key && (key != "" ==> key[0] != '#')
    requires raw == LineOf(a + key + b, behind) && x <= |a + key + b| && !IsSpace('=')
    requires (forall i :: 0 <= i < x ==> IsSpace(raw[i])) && !IsSpace(raw[x])
    ensures var e := |a + key + b|; TrimSpace(raw[x..e]) == key && '=' !in raw[x..e] && raw[x] != '#'
  {
    hide IsSpace, TrimSpace;
    var e := |a + key + b|;
    assert forall i :: 0 <= i < |a| ==> raw[i] == a[i];
    assert forall i :: 0 <= i < |key| ==> raw[|a| + i] == key[i];
    assert forall i :: 0 <= i < |b| ==> raw[|a| + |key| + i] == b[i];
    if key == "" {
      assert x == e && raw[x] == '=';
      assert raw[x..e] == "";
      TrimmedStays("");
    } else {
      assert raw[|a|] == key[0] && x == |a|;
      assert raw[x..e] == "" + key + b;
      TrimPadded("", key, b);
      assert '=' !in b;
    }
  }

  lemma PaddedValue(raw: string, before: string, c: string, value: string, d: string, y: nat)
    requires Blank(c) && Blank(d) && Trimmed(value)
    requires raw == LineOf(before, c + value + d) && |before| < y <= |raw|
    requires forall i :: y <= i < |raw| ==> IsSpace(raw[i])
    ensures TrimSpace(raw[|before| + 1..y]) == value
  {
    hide IsSpace, TrimSpace;
    var f := |before| + 1;
    var v := f + |c|;
    assert forall i :: 0 <= i < |c| ==> raw[f + i] == c[i];
    assert forall i :: 0 <= i < |value| ==> raw[v + i] == value[i];
    assert forall i :: 0 <= i < |d| ==> raw[v + |value| + i] == d[i];
    if value == "" {
      BlankSlice(raw, f, y);
      assert raw[f..y] == raw[f..y] + "" + "";
      TrimPadded(raw[f..y], "", "");
    } else {
      assert raw[v + |value| - 1] == value[|value| - 1];
      BlankSlice(raw, v + |value|, y);
      assert raw[f..y] == c + value + raw[v + |value|..y];
      TrimPadded(c, value, raw[v + |value|..y]);
    }
  }

  /** A line is no entry exactly if it has no separator or its first visible character
    makes it a comment. */
  lemma NoEntryIff(raw: string)
    ensures EntryOf(raw).None? <==>
            || '=' !in raw
            || exists i :: 0 <= i < |raw| && raw[i] == '#' && forall k :: 0 <= k < i ==> IsSpace(raw[k])
  {
    hide IsSpace, TrimSpace;
    EqualsIsNoSpace();
    assert !IsSpace('#') by { HashIsNoSpace(); }
    var x, y := TrimSpaceIs(raw);
    var line := TrimSpace(raw);
    SplitAtIs(line, '=');
    assert '=' in raw <==> '=' in line by {
      if i :| 0 <= i < |raw| && raw[i] == '=' {
        assert line[i - x] == '=';
      }
    }
    if line != "" {
      assert line[0] == raw[x];
    }
  }

  lemma HashIsNoSpace()
    ensures !IsSpace('#')
  {}

  lemma EqualsIsNoSpace()
    ensures !IsSpace('=')
  {}

  lemma {:induction false} FirstSeparator(key: string, value: string)
    requires '=' !in key
    ensures SplitAt(LineOf(key, value), '=') == Some(|key|)
  {
    var line := LineOf(key, value);
    if key != "" {
      FirstSeparator(key[1..], value);
      assert line[1..] == LineOf(key[1..], value);
    }
  }

  lemma {:induction false} WrittenLines(config: Config, order: seq<string>, start: Config)
    requires WellFormed(config) && forall k :: k in order ==> k in config
    ensures var r := ReadLines(Split(Written(config, order), '\n'), start);
      && r.Keys == start.Keys + (set k | k in order)
      && forall k :: k in r ==> r[k] == if k in order then config[k] else start[k]
    decreases |order|
  {
    hide Writable, EntryOf, ByteLength;
    if order == [] {
      assert Written(config, order) == "";
      assert EntryOf("").None? by { EmptyIsNoEntry(); }
      assert ByteLength("") == 0 by { EmptyIsNoEntry(); }
      assert ReadLines([""], start) == ReadLines([""][1..], start);
    } else {
      var k, rest := order[0], order[1..];
      FirstWritten(config, order);
      WritableIsRead(k, config[k]);
      ReadOneLine(LineOf(k, config[k]), Split(Written(config, rest), '\n'), start);
      hide Split, Written, ReadLines, LineOf;
      WrittenLines(config, rest, start[k := config[k]]);
      FrontOf(order);
    }
  }

  lemma FirstWritten(config: Config, order: seq<string>)
    requires WellFormed(config) && order != [] && forall k :: k in order ==> k in config
    ensures order[0] in config && Writable(order[0], config[order[0]])
    ensures var line := LineOf(order[0], config[order[0]]);
      && ByteLength(line) <= MAX_LINE
      && Split(Written(config, order), '\n') == [line] + Split(Written(config, order[1..]), '\n')
  {
    hide ByteLength, Split;
    var line := LineOf(order[0], config[order[0]]);
    LineFits(order[0], config[order[0]]);
    SplitHead(line, Written(config, order[1..]), '\n');
    assert Written(config, order) == line + ['\n'] + Written(config, order[1..]);
  }

  lemma FrontOf(order: seq<string>)
    requires order != []
    ensures order == [order[0]] + order[1..]
    ensures (set k | k in order) == {order[0]} + (set k | k in order[1..])
  {}

  lemma ReadOneLine(line: string, lines: seq<string>, start: Config)
    requires ByteLength(line) <= MAX_LINE
    ensures var e := EntryOf(line);
      ReadLines([line] + lines, start) == ReadLines(lines, if e.Some? then start[e.value.0 := e.value.1] else start)
  {
    hide EntryOf, ByteLength;
    assert ([line] + lines)[0] == line && ([line] + lines)[1..] == lines;
  }

  lemma EmptyIsNoEntry()
    ensures EntryOf("").None? && ByteLength("") == 0
  {}

  lemma LineFits(key: string, value: string)
    requires Writable(key, value)
    ensures '\n' !in LineOf(key, value) && ByteLength(LineOf(key, value)) <= MAX_LINE
  {}

  /** Reading what was written, in whatever order, gives the map back. */
  lemma ReadOfWritten(config: Config, order: seq<string>)
    requires WellFormed(config) && Enumerates(order, config.Keys)
    ensures Read(Some(Written(config, order))) == config
  {
    WrittenLines(config, order, map[]);
    var r := ReadLines(Split(Written(config, order), '\n'), map[]);
    assert r.Keys == config.Keys;
  }

  // ------------------------------------------------------ anything that is read

  /** Any entry found on a line of a file could have been written. */
  lemma EntryIsWritable(raw: string)
    requires '\n' !in raw && ByteLength(raw) <= MAX_LINE && EntryOf(raw).Some?
    ensures Writable(EntryOf(raw).value.0, EntryOf(raw).value.1)
  {
    hide IsSpace, ByteLength, SplitAt, TrimSpace;
    var a, b := TrimSpaceIs(raw);
    var line := TrimSpace(raw);
    SplitAtIs(line, '=');
    var i := SplitAt(line, '=').value;
    var ka, kb := TrimSpaceIs(line[..i]);
    var va, vb := TrimSpaceIs(line[i + 1..]);
    var key, value := EntryOf(raw).value.0, EntryOf(raw).value.1;
    assert key == line[ka..kb] && value == line[i + 1..][va..vb] == line[i + 1 + va..i + 1 + vb];
    assert forall c :: c in line ==> c in raw;
    assert '=' !in key by {
      assert forall c :: c in key ==> c in line[..i];
    }
    assert i > 0 ==> line[..i][0] == line[0];
    assert ByteLength(LineOf(key, value)) <= MAX_LINE by {
      ByteLengthOfSlice(raw, a, b);
      LineShrinks(line, i, ka, kb, va, vb);
    }
  }

  /** A line is not longer once its two halves are trimmed. */
  lemma LineShrinks(line: string, i: nat, ka: nat, kb: nat, va: nat, vb: nat)
    requires i < |line| && line[i] == '=' && ka <= kb <= i && va <= vb <= |line| - i - 1
    ensures ByteLength(LineOf(line[..i][ka..kb], line[i + 1..][va..vb])) <= ByteLength(line)
  {
    hide ByteLength;
    var key, value := line[..i][ka..kb], line[i + 1..][va..vb];
    ByteLengthOfSlice(line[..i], ka, kb);
    ByteLengthOfSlice(line[i + 1..], va, vb);
    assert line == line[..i] + "=" + line[i + 1..];
    ByteLengthConcat(line[..i] + "=", line[i + 1..]);
    ByteLengthConcat(line[..i], "=");
    ByteLengthConcat(key + "=", value);
    ByteLengthConcat(key, "=");
  }

  lemma {:induction false} ReadLinesWellFormed(lines: seq<string>, start: Config)
    requires WellFormed(start) && forall i :: 0 <= i < |lines| ==> '\n' !in lines[i]
    ensures WellFormed(ReadLines(lines, start))
    decreases |lines|
  {
    hide Writable, EntryOf;
    if lines != [] && ByteLength(lines[0]) <= MAX_LINE {
      var e := EntryOf(lines[0]);
      if e.Some? { EntryIsWritable(lines[0]); }
      ReadLinesWellFormed(lines[1..], if e.Some? then start[e.value.0 := e.value.1] else start);
    }
  }

  /** Whatever the file holds, what is read is well formed. */
  lemma ReadIsWellFormed(file: Option<string>)
    ensures WellFormed(Read(file))
  {
    if file.Some? {
      JoinSplit(file.value, '\n');
      hide Writable, Split, ReadLines;
      ReadLinesWellFormed(Split(file.value, '\n'), map[]);
    }
  }

  /** Reading, writing and reading again is reading once, for every file. */
  lemma RereadIsStable(file: Option<string>, order: seq<string>)
    requires Enumerates(order, Read(file).Keys)
    ensures Read(Some(Written(Read(file), order))) == Read(file)
  {
    hide Read, WellFormed;
    ReadIsWellFormed(file);
    ReadOfWritten(Read(file), order);
  }

  /** The value of a key read from the end: the last entry before the first
    overlong line. */
  function LastValue(lines: seq<string>, key: string): Option<string> {
    if lines == [] || ByteLength(lines[0]) > MAX_LINE then None
    else
      var later := LastValue(lines[1..], key);
      var e := EntryOf(lines[0]);
      if later.Some? then later
      else if e.Some? && e.value.0 == key then Some(e.value.1)
      else None
  }

  lemma {:induction false} LastEntryWins(lines: seq<string>, start: Config, key: string)
    ensures var r := ReadLines(lines, start);
      match LastValue(lines, key)
      case Some(v) => key in r && r[key] == v
      case None => (key in r <==> key in start) && (key in r ==> r[key] == start[key])
    decreases |lines|
  {
    hide EntryOf, ByteLength;
    if lines != [] && ByteLength(lines[0]) <= MAX_LINE {
      var e := EntryOf(lines[0]);
      LastEntryWins(lines[1..], if e.Some? then start[e.value.0 := e.value.1] else start, key);
    }
  }

  /** A map is read back from what was written if and only if it is well formed. */
  lemma WrittenIsReadIff(config: Config, order: seq<string>)
    requires Enumerates(order, config.Keys)
    ensures Read(Some(Written(config, order))) == config <==> WellFormed(config)
  {
    hide Writable, Read;
    if WellFormed(config) {
      ReadOfWritten(config, order);
    } else {
      ReadIsWellFormed(Some(Written(config, order)));
    }
  }

  // ------------------------------------------------------------------- sorting

  /** The order of strings: byte by byte, which for valid text is character by character. */
  predicate Before(a: string, b: string) {
    b != "" && (a == "" || a[0] < b[0] || (a[0] == b[0] && Before(a[1..], b[1..])))
  }

  ghost predicate InOrder(order: seq<string>) {
    forall i, j :: 0 <= i < j < |order| ==> Before(order[i], order[j])
  }

  lemma {:induction false} BeforeOrAfter(a: string, b: string)
    ensures a == b || Before(a, b) || Before(b, a)
  {
    if a != "" && b != "" {
      BeforeOrAfter(a[1..], b[1..]);
      assert a == [a[0]] + a[1..] && b == [b[0]] + b[1..];
    }
  }

  lemma {:induction false} BeforeGoesOn(a: string, b: string, c: string)
    requires Before(a, b) && Before(b, c)
    ensures Before(a, c)
  {
    if a != "" && a[0] == b[0] == c[0] {
      BeforeGoesOn(a[1..], b[1..], c[1..]);
    }
  }

  /** The least of some strings. */
  method First(keys: set<string>) returns (k: string)
    requires keys != {}
    ensures k in keys && forall x :: x in keys && x != k ==> Before(k, x)
  {
    k :| k in keys;
    var left := keys - {k};
    while left != {}
      invariant k in keys && left <= keys && k !in left
      invariant forall x :: x in keys && x !in left && x != k ==> Before(k, x)
      decreases left
    {
      hide Before;
      var x :| x in left;
      BeforeOrAfter(k, x);
      if Before(x, k) {
        forall y | y in keys && y !in left && y != k ensures Before(x, y) { BeforeGoesOn(x, k, y); }
        k := x;
      }
      left := left - {x};
    }
  }

  method SortStrings(keys: set<string>) returns (order: seq<string>)
    ensures Enumerates(order, keys) && InOrder(order)
  {
    order := [];
    var left := keys;
    while left != {}
      invariant left <= keys && Enumerates(order, keys - left) && InOrder(order)
      invariant forall x, y :: x in order && y in left ==> Before(x, y)
      decreases left
    {
      hide Before;
      var k := First(left);
      order := order + [k];
      left := left - {k};
    }
  }

  /** The strings first differ at i, and the first has the smaller character there. */
  predicate LessAt(a: string, b: string, i: nat) {
    i < |a| && i < |b| && a[..i] == b[..i] && a[i] < b[i]
  }

  lemma LessAtBehind(c: char, u: string, v: string, i: nat)
    ensures LessAt([c] + u, [c] + v, i + 1) <==> LessAt(u, v, i)
  {
    if i < |u| && i < |v| {
      assert ([c] + u)[..i + 1] == [c] + u[..i] && ([c] + v)[..i + 1] == [c] + v[..i];
      assert ([c] + u)[..i + 1][1..] == u[..i] && ([c] + v)[..i + 1][1..] == v[..i];
    }
  }

  lemma LessAtFront(a: string, b: string)
    requires a != "" && b != ""
    ensures LessAt(a, b, 0) <==> a[0] < b[0]
    ensures a[0] != b[0] ==> forall i: nat :: i > 0 ==> !LessAt(a, b, i)
    ensures a[0] != b[0] && |a| < |b| ==> b[..|a|] != a
  {
    forall i: nat | i > 0 && LessAt(a, b, i) ensures a[0] == b[0] {
      assert a[..i][0] == b[..i][0];
    }
    if |a| < |b| && b[..|a|] == a {
      assert b[..|a|][0] == a[0];
    }
  }

  lemma BeginsBehind(c: char, u: string, v: string)
    requires |u| < |v|
    ensures ([c] + v)[..|u| + 1] == [c] + u <==> v[..|u|] == u
  {
    assert ([c] + v)[..|u| + 1] == [c] + v[..|u|];
    assert ([c] + v[..|u|])[1..] == v[..|u|] && ([c] + u)[1..] == u;
  }

  /** The first string is a proper beginning of the second, or has the smaller character
    where they first differ. */
  lemma {:induction false} BeforeIff(a: string, b: string)
    ensures Before(a, b) <==> (|a| < |b| && b[..|a|] == a) || exists i: nat :: LessAt(a, b, i)
  {
    hide LessAt;
    if a == "" || b == "" {
      NoneLess(a, b);
    } else {
      LessAtFront(a, b);
      if a[0] == b[0] {
        var u, v := a[1..], b[1..];
        assert a == [a[0]] + u && b == [a[0]] + v;
        BeforeIff(u, v);
        if |a| < |b| { BeginsBehind(a[0], u, v); }
        if i: nat :| LessAt(u, v, i) {
          LessAtBehind(a[0], u, v, i);
        }
        if i: nat :| LessAt(a, b, i) {
          assert i != 0;
          LessAtBehind(a[0], u, v, i - 1);
          assert LessAt(u, v, i - 1);
        }
      }
    }
  }

  lemma NoneLess(a: string, b: string)
    requires a == "" || b == ""
    ensures forall i: nat :: !LessAt(a, b, i)
    ensures Before(a, b) <==> |a| < |b|
    ensures |a| < |b| ==> b[..|a|] == a
  {}

  /** The lines of a written file: key, separator, value, in the given order, and
    nothing behind the last line break. */
  lemma {:induction false} WrittenIsLines(config: Config, order: seq<string>)
    requires forall k :: k in order ==> k in config && '\n' !in k && '\n' !in config[k]
    ensures var lines := Split(Written(config, order), '\n');
      && |lines| == |order| + 1 && lines[|order|] == ""
      && forall i :: 0 <= i < |order| ==> lines[i] == order[i] + "=" + config[order[i]]
    decreases |order|
  {
    if order != [] {
      var line := LineOf(order[0], config[order[0]]);
      WrittenIsLines(config, order[1..]);
      SplitHead(line, Written(config, order[1..]), '\n');
    }
  }

  // ------------------------------------------------------------------ the file

  class EnvFile {
    var text: Option<string>

    constructor ()
      ensures text.None?
    {
      text := None;
    }

    method ReadEnvConfig() returns (config: Config)
      ensures config == Read(text)
    {
      config := map[];
      if text.None? {
        return;
      }
      var lines := Split(text.value, '\n');
      var i := 0;
      while i < |lines|
        invariant 0 <= i <= |lines|
        invariant Read(text) == ReadLines(lines[i..], config)
      {
        assert lines[i..][0] == lines[i] && lines[i..][1..] == lines[i + 1..];
        if ByteLength(lines[i]) > MAX_LINE {
          return;
        }
        var e := EntryOf(lines[i]);
        if e.Some? {
          config := config[e.value.0 := e.value.1];
        }
        i := i + 1;
      }
    }

    /** The keys are written in sorted order, whatever the map holds. */
    method WriteEnvConfig(config: Config)
      modifies this
      ensures exists order ::
                Enumerates(order, config.Keys) && InOrder(order) && text == Some(Written(config, order))
      ensures WellFormed(config) <==> Read(text) == config
    {
      hide Read, Writable;
      var keys := SortStrings(config.Keys);
      var out := "";
      for i := 0 to |keys|
        invariant out == Written(config, keys[..i])
      {
        assert keys[..i + 1] == keys[..i] + [keys[i]];
        WrittenMore(config, keys[..i], keys[i]);
        out := out + LineOf(keys[i], config[keys[i]]) + "\n";
      }
      assert keys[..|keys|] == keys;
      text := Some(out);
      WrittenIsReadIff(config, keys);
    }

    /** Merging is overriding what the file says, if and only if the updates can be written. */
    method MergeEnvConfig(updates: Config)
      modifies this
      ensures WellFormed(updates) <==> Read(text) == Read(old(text)) + updates
    {
      hide Read, Writable;
      var config := ReadEnvConfig();
      ReadIsWellFormed(text);
      WriteEnvConfig(config + updates);
      assert forall k :: k in updates ==> (config + updates)[k] == updates[k];
    }
  }

  lemma {:induction false} WrittenMore(config: Config, order: seq<string>, k: string)
    requires k in config && forall x :: x in order ==> x in config
    ensures Written(config, order + [k]) == Written(config, order) + LineOf(k, config[k]) + "\n"
    decreases |order|
  {
    if order == [] {
      assert [k][1..] == [];
    } else {
      WrittenMore(config, order[1..], k);
      assert (order + [k])[1..] == order[1..] + [k];
    }
  }
}
