/** Taking the model's thinking blocks out of an answer. */
module Thinking {
  import opened Options
  import opened Strings
  import opened Sequences

  const OPEN := "<think>"
  const CLOSE := "</think>"

  predicate Contains(s: string, sub: string) { Find(s, sub).Some? }

  /** The text around the first occurrence of a tag. */
  function Cut(s: string, tag: string): (r: Option<(string, string)>)
    ensures r.Some? <==> Contains(s, tag)
  {
    FindFits(s, tag);
    var start := Find(s, tag);
    if start.None? then None else Some((s[..start.value], s[start.value + |tag|..]))
  }

  lemma FindFits(s: string, tag: string)
    ensures var r := Find(s, tag); r.Some? ==> r.value + |tag| <= |s| && s[r.value..r.value + |tag|] == tag
  {
    FindIsFirst(s, tag);
    var r := Find(s, tag);
    if r.Some? {
      assert s[r.value..][..|tag|] == s[r.value..r.value + |tag|];
    }
  }

  lemma CutIs(s: string, tag: string)
    ensures var r := Cut(s, tag); r.Some? ==> s == r.value.0 + tag + r.value.1
  {
    FindFits(s, tag);
  }

  datatype Parsed = Parsed(blocks: seq<string>, remainder: string)

  /** One round: the first open tag, and the first close tag behind it. A block
    without a close tag takes the rest of the text. */
  datatype Round =
    | Absent
    | Unclosed(before: string, block: string)
    | Closed(before: string, block: string, after: string)

  function FirstBlock(s: string): (r: Round)
    ensures r.Closed? ==> |r.before| + |r.after| < |s|
  {
    var start := Cut(s, OPEN);
    if start.None? then Absent
    else
      CutIs(s, OPEN);
      var end := Cut(start.value.1, CLOSE);
      if end.None? then Unclosed(start.value.0, start.value.1)
      else
        CutIs(start.value.1, CLOSE);
        Closed(start.value.0, end.value.0, end.value.1)
  }

  /** The rounds go on over the text that is left, so that taking out one block
    may bring together a new tag. */
  function Parse(s: string): Parsed
    decreases |s|
  {
    match FirstBlock(s)
    case Absent => Parsed([], s)
    case Unclosed(before, block) => Parsed([block], before)
    case Closed(before, block, after) =>
      var p := Parse(before + after);
      Parsed([block] + p.blocks, p.remainder)
  }

  method ParseThinkingBlocks(content: string) returns (blocks: seq<string>, remainder: string)
    ensures Parsed(blocks, remainder) == Parse(content)
  {
    blocks, remainder := [], content;
    while true
      invariant Parse(content) == Parsed(blocks + Parse(remainder).blocks, Parse(remainder).remainder)
      decreases |remainder|
    {
      hide Find;
      FindFits(remainder, OPEN);
      var start := Find(remainder, OPEN);
      if start.None? {
        AppendNothing(blocks);
        break;
      }
      var contentStart := start.value + |OPEN|;
      var behind := remainder[contentStart..];
      FindFits(behind, CLOSE);
      var end := Find(behind, CLOSE);
      if end.None? {
        blocks := blocks + [behind];
        remainder := remainder[..start.value];
        break;
      }
      var block := remainder[contentStart..contentStart + end.value];
      var next := remainder[..start.value] + remainder[contentStart + end.value + |CLOSE|..];
      assert block == behind[..end.value];
      assert remainder[contentStart + end.value + |CLOSE|..] == behind[end.value + |CLOSE|..];
      Assoc(blocks, [block], Parse(next).blocks);
      blocks, remainder := blocks + [block], next;
    }
  }

  /** ExtractFinalAnswer. */
  function FinalAnswer(response: string): string { TrimSpace(Parse(response).remainder) }

  // ------------------------------------------------------------ nothing is lost

  /** The text with the blocks put back, each at its own place. The last block
    may lack its close tag. */
  function PutBack(p: Parsed, at: seq<nat>, closed: bool): string
    decreases |p.blocks|
  {
    if p.blocks == [] then p.remainder
    else if |p.blocks| == 1 && !closed then p.remainder + OPEN + p.blocks[0]
    else
      var inner := PutBack(Parsed(p.blocks[1..], p.remainder), if at == [] then at else at[1..], closed);
      var i := if at == [] || at[0] > |inner| then |inner| else at[0];
      inner[..i] + OPEN + p.blocks[0] + CLOSE + inner[i..]
  }

  function Total(blocks: seq<string>): nat {
    if blocks == [] then 0 else |blocks[0]| + Total(blocks[1..])
  }

  /** The length of the text: remainder, blocks, and the tags. */
  function Length(p: Parsed, closed: bool): int {
    |p.remainder| + Total(p.blocks) + 7 * |p.blocks| + 8 * (if closed then |p.blocks| else |p.blocks| - 1)
  }

  lemma {:induction false} PutBackLength(p: Parsed, at: seq<nat>, closed: bool)
    requires closed || p.blocks != []
    ensures |PutBack(p, at, closed)| == Length(p, closed)
    decreases |p.blocks|
  {
    if p.blocks != [] && !(|p.blocks| == 1 && !closed) {
      var rest := Parsed(p.blocks[1..], p.remainder);
      PutBackLength(rest, if at == [] then at else at[1..], closed);
      assert Length(p, closed) == Length(rest, closed) + |p.blocks[0]| + 15;
      assert |PutBack(p, at, closed)| == Length(rest, closed) + |p.blocks[0]| + 15;
    } else if p.blocks != [] {
      assert p.blocks[1..] == [];
      assert Total(p.blocks) == |p.blocks[0]| + Total([]);
      assert PutBack(p, at, closed) == p.remainder + OPEN + p.blocks[0];
    }
  }

  /** Any text is its remainder with its blocks put back. */
  lemma {:induction false} NothingIsLost(s: string) returns (at: seq<nat>, closed: bool)
    ensures PutBack(Parse(s), at, closed) == s
    ensures closed || Parse(s).blocks != []
    ensures |s| == Length(Parse(s), closed)
    decreases |s|
  {
    hide Find;
    CutIs(s, OPEN);
    match FirstBlock(s) {
      case Absent =>
        at, closed := [], true;
      case Unclosed(before, block) =>
        at, closed := [], false;
        assert Parse(s) == Parsed([block], before);
        assert PutBack(Parse(s), at, closed) == before + OPEN + block;
        assert s == before + OPEN + block;
      case Closed(before, block, after) =>
        var behind := Cut(s, OPEN).value.1;
        CutIs(behind, CLOSE);
        var rest;
        rest, closed := NothingIsLost(before + after);
        at := [|before|] + rest;
        PutBackOne(block, Parse(before + after), before, after, rest, closed);
        Assoc(before + OPEN, block + CLOSE, after);
        Assoc(before + OPEN, block, CLOSE);
    }
    PutBackLength(Parse(s), at, closed);
  }

  lemma PutBackOne(block: string, p: Parsed, before: string, after: string, at: seq<nat>, closed: bool)
    requires PutBack(p, at, closed) == before + after
    requires closed || p.blocks != []
    ensures PutBack(Parsed([block] + p.blocks, p.remainder), [|before|] + at, closed)
         == before + OPEN + block + CLOSE + after
  {
    assert ([block] + p.blocks)[1..] == p.blocks && ([|before|] + at)[1..] == at;
    assert (before + after)[..|before|] == before && (before + after)[|before|..] == after;
  }

  // -------------------------------------------------------------- what comes out

  /** No open tag is left, and no block contains a close tag. */
  lemma {:induction false} TagsAreGone(s: string)
    ensures !Contains(Parse(s).remainder, OPEN)
    ensures forall i :: 0 <= i < |Parse(s).blocks| ==> !Contains(Parse(s).blocks[i], CLOSE)
    decreases |s|
  {
    match FirstBlock(s)
    case Absent =>
    case Unclosed(before, block) => BeforeTheFirst(s, OPEN);
    case Closed(before, block, after) =>
      BeforeTheFirst(Cut(s, OPEN).value.1, CLOSE);
      TagsAreGone(before + after);
  }

  lemma BeforeTheFirst(s: string, tag: string)
    requires tag != ""
    ensures var r := Cut(s, tag); r.Some? ==> !Contains(r.value.0, tag)
  {
    var start := Find(s, tag);
    if start.Some? {
      FindIsFirst(s, tag);
      SliceContainsLess(s, 0, start.value, tag);
      var before := s[..start.value];
      FindIsFirst(before, tag);
      if Contains(before, tag) {
        var i := Find(before, tag).value;
        OccursInSlice(s, 0, start.value, tag, i);
      }
    }
  }

  lemma OccursInSlice(s: string, a: nat, b: nat, tag: string, i: nat)
    requires a <= b <= |s| && OccursAt(s[a..b], tag, i)
    ensures OccursAt(s, tag, a + i) && i + |tag| <= b - a
  {
    assert s[a..b][i..] == s[a + i..b];
    assert s[a + i..][..b - a - i] == s[a + i..b];
  }

  lemma SliceContainsLess(s: string, a: nat, b: nat, tag: string)
    requires a <= b <= |s|
    ensures Contains(s[a..b], tag) ==> Contains(s, tag)
  {
    FindIsFirst(s[a..b], tag);
    FindIsFirst(s, tag);
    if Contains(s[a..b], tag) {
      OccursInSlice(s, a, b, tag, Find(s[a..b], tag).value);
    }
  }

  /** A second pass finds nothing. */
  lemma SecondPassIsIdle(s: string)
    ensures Parse(Parse(s).remainder) == Parsed([], Parse(s).remainder)
  {
    TagsAreGone(s);
  }

  lemma FinalAnswerIsFinal(response: string)
    ensures FinalAnswer(FinalAnswer(response)) == FinalAnswer(response)
    ensures !Contains(FinalAnswer(response), OPEN) && Trimmed(FinalAnswer(response))
  {
    TagsAreGone(response);
    var remainder := Parse(response).remainder;
    var a, b := TrimSpaceIs(remainder);
    SliceContainsLess(remainder, a, b, OPEN);
    TrimmedStays(FinalAnswer(response));
  }

  // ------------------------------------------------------------------ round trip

  /** An answer as a model writes it: text, then a block, and so on. The last
    block may have been cut short. */
  datatype Answer =
    | Text(text: string)
    | CutShort(text: string, block: string)
    | Thought(text: string, block: string, rest: Answer)

  function Printed(a: Answer): string {
    match a
    case Text(text) => text
    case CutShort(text, block) => text + OPEN + block
    case Thought(text, block, rest) => text + OPEN + block + CLOSE + Printed(rest)
  }

  function Said(a: Answer): string {
    match a
    case Text(text) => text
    case CutShort(text, _) => text
    case Thought(text, _, rest) => text + Said(rest)
  }

  function Blocks(a: Answer): seq<string> {
    match a
    case Text(_) => []
    case CutShort(_, block) => [block]
    case Thought(_, block, rest) => [block] + Blocks(rest)
  }

  predicate BlocksAreWhole(a: Answer) {
    match a
    case Text(_) => true
    case CutShort(_, block) => !Contains(block, CLOSE)
    case Thought(_, block, rest) => !Contains(block, CLOSE) && BlocksAreWhole(rest)
  }

  /** An occurrence that starts in front of a tag lies in front of it, or the tag
    repeats its first character. */
  lemma StartsInFront(a: string, tag: string, b: string, i: nat)
    requires i < |a| && tag != "" && OccursAt(a + tag + b, tag, i)
    ensures OccursAt(a, tag, i) || tag[0] in tag[1..]
  {
    var s := a + tag + b;
    assert s[i..][..|tag|] == tag;
    if i + |tag| <= |a| {
      assert a[i..][..|tag|] == tag;
    } else {
      var k := |a| - i;
      assert tag[1..][k - 1] == tag[k] == s[|a|] == tag[0];
    }
  }

  /** A tag of this kind begins with a character it does not repeat, so it cannot
    start inside a text without it and end beyond. */
  lemma FirstTag(a: string, tag: string, b: string)
    requires tag != "" && tag[0] !in tag[1..] && !Contains(a, tag)
    ensures Cut(a + tag + b, tag) == Some((a, b))
  {
    var s := a + tag + b;
    FindIsFirst(s, tag);
    FindIsFirst(a, tag);
    hide Find;
    assert s[|a|..] == tag + b;
    assert OccursAt(s, tag, |a|);
    forall i: nat | i < |a| && OccursAt(s, tag, i) ensures false {
      StartsInFront(a, tag, b, i);
    }
    assert Find(s, tag) == Some(|a|);
    assert s[..|a|] == a && s[|a| + |tag|..] == b;
  }

  lemma FirstThought(text: string, block: string, after: string)
    requires !Contains(text, OPEN) && !Contains(block, CLOSE)
    ensures FirstBlock(text + OPEN + block + CLOSE + after) == Closed(text, block, after)
  {
    hide Contains;
    Assoc(text + OPEN, block + CLOSE, after);
    Assoc(text + OPEN, block, CLOSE);
    FirstTag(text, OPEN, block + CLOSE + after);
    FirstTag(block, CLOSE, after);
  }

  lemma {:induction false} PrintedParses(prefix: string, a: Answer)
    requires !Contains(prefix + Said(a), OPEN) && BlocksAreWhole(a)
    ensures Parse(prefix + Printed(a)) == Parsed(Blocks(a), prefix + Said(a))
    decreases a
  {
    hide Contains, Cut;
    match a
    case Text(text) =>
    case CutShort(text, block) =>
      assert prefix + Printed(a) == prefix + text + OPEN + block;
      FirstTag(prefix + text, OPEN, block);
    case Thought(text, block, rest) =>
      var before := prefix + text;
      Assoc(prefix, text, Said(rest));
      assert (before + Said(rest))[..|before|] == before;
      SliceContainsLess(before + Said(rest), 0, |before|, OPEN);
      assert prefix + Printed(a) == before + OPEN + block + CLOSE + Printed(rest);
      FirstThought(before, block, Printed(rest));
      PrintedParses(before, rest);
  }

  /** An answer is taken apart into its blocks and the text around them exactly
    when that text, joined, holds no open tag and no block a close tag. */
  lemma RoundTripIff(a: Answer)
    ensures Parse(Printed(a)) == Parsed(Blocks(a), Said(a)) <==> !Contains(Said(a), OPEN) && BlocksAreWhole(a)
  {
    assert "" + Said(a) == Said(a) && "" + Printed(a) == Printed(a);
    TagsAreGone(Printed(a));
    WholeIsNone(a);
    if !Contains(Said(a), OPEN) && BlocksAreWhole(a) {
      PrintedParses("", a);
    }
  }

  /** The final answer is the trimmed text around the blocks; a text without an open tag
    is only trimmed. */
  lemma FinalAnswerIs(a: Answer)
    ensures !Contains(Said(a), OPEN) && BlocksAreWhole(a) ==> FinalAnswer(Printed(a)) == TrimSpace(Said(a))
    ensures forall s :: !Contains(s, OPEN) ==> FinalAnswer(s) == TrimSpace(s)
  {
    RoundTripIff(a);
    forall s | !Contains(s, OPEN) ensures FinalAnswer(s) == TrimSpace(s) {
      RoundTripIff(Text(s));
    }
  }

  lemma {:induction false} WholeIsNone(a: Answer)
    ensures BlocksAreWhole(a) <==> forall i :: 0 <= i < |Blocks(a)| ==> !Contains(Blocks(a)[i], CLOSE)
  {
    hide Contains;
    if !a.Text? {
      assert Blocks(a)[0] == a.block;
    }
    if a.Thought? {
      WholeIsNone(a.rest);
      assert Blocks(a)[1..] == Blocks(a.rest);
      assert forall i :: 1 <= i < |Blocks(a)| ==> Blocks(a)[i] == Blocks(a.rest)[i - 1];
      assert forall i :: 0 <= i < |Blocks(a.rest)| ==> Blocks(a.rest)[i] == Blocks(a)[i + 1];
    }
  }
}
