/** Merging streamed tool-call fragments by index. */
module ToolStream {

  /** One fragment of a delta: its index, and the piece of arguments it carries. */
  datatype Fragment = Fragment(index: int, args: string)

  /** The calls with the arguments they were created with, and the builders. */
  datatype Merge = Merge(calls: seq<string>, builders: map<int, string>)

  const EMPTY := Merge([], map[])

  function Step(m: Merge, f: Fragment): Merge {
    if f.index >= |m.calls| then
      Merge(m.calls + [f.args], m.builders[f.index := f.args])
    else if f.index in m.builders then
      m.(builders := m.builders[f.index := m.builders[f.index] + f.args])
    else m
  }

  function MergeAll(fs: seq<Fragment>): Merge {
    if fs == [] then EMPTY else Step(MergeAll(fs[..|fs| - 1]), fs[|fs| - 1])
  }

  function Final(m: Merge, i: nat): string
    requires i < |m.calls|
  {
    if i in m.builders then m.builders[i] else m.calls[i]
  }

  /** The arguments of the finished calls. */
  function Result(m: Merge): (r: seq<string>)
    ensures |r| == |m.calls| && forall i :: 0 <= i < |r| ==> r[i] == Final(m, i)
  {
    seq(|m.calls|, i requires 0 <= i < |m.calls| => Final(m, i))
  }

  method MergeStream(fs: seq<Fragment>) returns (args: seq<string>)
    ensures args == Result(MergeAll(fs))
  {
    var calls: seq<string>, builders: map<int, string> := [], map[];
    for i := 0 to |fs|
      invariant Merge(calls, builders) == MergeAll(fs[..i])
    {
      assert fs[..i + 1][..i] == fs[..i];
      var f := fs[i];
      if f.index >= |calls| {
        calls := calls + [f.args];
        builders := builders[f.index := f.args];
      } else if f.index in builders {
        builders := builders[f.index := builders[f.index] + f.args];
      }
    }
    assert fs[..|fs|] == fs;
    args := [];
    for i := 0 to |calls|
      invariant |args| == i && forall j :: 0 <= j < i ==> args[j] == Final(Merge(calls, builders), j)
    {
      args := args + [if i in builders then builders[i] else calls[i]];
    }
  }

  // --------------------------------------------------------- what it should give

  /** The pieces tagged with an index, concatenated in the order they arrived. */
  function Tagged(fs: seq<Fragment>, i: int): string {
    if fs == [] then ""
    else if fs[|fs| - 1].index == i then Tagged(fs[..|fs| - 1], i) + fs[|fs| - 1].args
    else Tagged(fs[..|fs| - 1], i)
  }

  function Tags(fs: seq<Fragment>): set<int> {
    if fs == [] then {} else Tags(fs[..|fs| - 1]) + {fs[|fs| - 1].index}
  }

  ghost predicate Right(fs: seq<Fragment>) {
    var r := Result(MergeAll(fs));
    && |r| == |Tags(fs)|
    && (forall t :: t in Tags(fs) ==> 0 <= t < |r|)
    && forall i :: 0 <= i < |r| ==> r[i] == Tagged(fs, i)
  }

  /** How many indices have been seen, if new ones come as 0, 1, 2 and so on. */
  function Seen(fs: seq<Fragment>): nat {
    if fs == [] then 0
    else
      var k := Seen(fs[..|fs| - 1]);
      if fs[|fs| - 1].index == k then k + 1 else k
  }

  ghost predicate InOrder(fs: seq<Fragment>) {
    forall j :: 0 <= j < |fs| ==> 0 <= fs[j].index <= Seen(fs[..j])
  }

  lemma InOrderPrefix(fs: seq<Fragment>, n: nat)
    requires n <= |fs| && InOrder(fs)
    ensures InOrder(fs[..n])
  {
    forall j | 0 <= j < n ensures fs[..n][..j] == fs[..j] {}
  }

  function Below(k: nat): (s: set<int>)
    ensures forall t :: t in s <==> 0 <= t < k
    ensures |s| == k
  {
    if k == 0 then {} else Below(k - 1) + {k - 1}
  }

  /** After fragments in order, call i has a builder holding the pieces tagged i. */
  ghost predicate Merged(m: Merge, fs: seq<Fragment>) {
    && |m.calls| == Seen(fs)
    && (forall i :: i in m.builders <==> 0 <= i < Seen(fs))
    && (forall i :: 0 <= i < Seen(fs) ==> m.builders[i] == Tagged(fs, i))
    && (forall i :: i >= Seen(fs) ==> Tagged(fs, i) == "")
  }

  lemma TaggedMore(fs: seq<Fragment>, f: Fragment, i: int)
    ensures Tagged(fs + [f], i) == if f.index == i then Tagged(fs, i) + f.args else Tagged(fs, i)
  {
    assert (fs + [f])[..|fs|] == fs;
  }

  lemma SeenMore(fs: seq<Fragment>, f: Fragment)
    ensures Seen(fs + [f]) == if f.index == Seen(fs) then Seen(fs) + 1 else Seen(fs)
  {
    assert (fs + [f])[..|fs|] == fs;
  }

  lemma StepMerged(m: Merge, fs: seq<Fragment>, f: Fragment)
    requires Merged(m, fs) && 0 <= f.index <= Seen(fs)
    ensures Merged(Step(m, f), fs + [f])
  {
    var all := fs + [f];
    SeenMore(fs, f);
    forall i: int ensures Tagged(all, i) == if f.index == i then Tagged(fs, i) + f.args else Tagged(fs, i) {
      TaggedMore(fs, f, i);
    }
    hide Tagged, Seen;
    assert "" + f.args == f.args;
  }

  lemma {:induction false} OrderedMerge(fs: seq<Fragment>)
    requires InOrder(fs)
    ensures Merged(MergeAll(fs), fs)
  {
    if fs != [] {
      hide Merged, Step;
      var front, f := fs[..|fs| - 1], fs[|fs| - 1];
      InOrderPrefix(fs, |fs| - 1);
      assert 0 <= f.index <= Seen(front);
      hide InOrder, Seen;
      OrderedMerge(front);
      StepMerged(MergeAll(front), front, f);
      assert front + [f] == fs;
    }
  }

  lemma {:induction false} OrderedTags(fs: seq<Fragment>)
    requires InOrder(fs)
    ensures Tags(fs) == Below(Seen(fs))
  {
    if fs != [] {
      var n := |fs| - 1;
      InOrderPrefix(fs, n);
      assert 0 <= fs[n].index <= Seen(fs[..n]);
      hide InOrder;
      OrderedTags(fs[..n]);
    }
  }

  /** Fragments whose indices first appear in order are merged right. */
  lemma InOrderIsRight(fs: seq<Fragment>)
    requires InOrder(fs)
    ensures Right(fs)
  {
    OrderedMerge(fs);
    OrderedTags(fs);
  }

  // -------------------------------------------------------- and only those

  function Zip(tags: seq<int>, contents: seq<string>): (fs: seq<Fragment>)
    requires |tags| == |contents|
    ensures |fs| == |tags| && forall i :: 0 <= i < |fs| ==> fs[i] == Fragment(tags[i], contents[i])
  {
    seq(|tags|, i requires 0 <= i < |tags| => Fragment(tags[i], contents[i]))
  }

  /** A call whose own index has no builder keeps the piece it was created with. */
  lemma {:induction false} Stuck(fs: seq<Fragment>, n: nat, k: nat)
    requires n <= |fs| && var m := MergeAll(fs[..n]); k < |m.calls| && k !in m.builders
    ensures var m := MergeAll(fs);
      k < |m.calls| && k !in m.builders && m.calls[k] == MergeAll(fs[..n]).calls[k]
    decreases |fs|
  {
    if n == |fs| {
      assert fs[..n] == fs;
    } else {
      var l := |fs| - 1;
      assert fs[..l][..n] == fs[..n];
      Stuck(fs[..l], n, k);
    }
  }

  lemma {:induction false} TaggedNothing(fs: seq<Fragment>, i: int)
    requires forall j :: 0 <= j < |fs| && fs[j].index == i ==> fs[j].args == ""
    ensures Tagged(fs, i) == ""
  {
    if fs != [] {
      TaggedNothing(fs[..|fs| - 1], i);
    }
  }

  lemma {:induction false} TagsAre(fs: seq<Fragment>, j: nat)
    requires j < |fs|
    ensures fs[j].index in Tags(fs)
  {
    if j < |fs| - 1 {
      TagsAre(fs[..|fs| - 1], j);
    }
  }

  lemma {:induction false} FirstOutOfOrder(fs: seq<Fragment>) returns (j: nat)
    requires !InOrder(fs)
    ensures j < |fs| && InOrder(fs[..j]) && !(0 <= fs[j].index <= Seen(fs[..j]))
    decreases |fs|
  {
    hide Seen;
    var n := |fs| - 1;
    if InOrder(fs[..n]) {
      j := n;
      forall i | 0 <= i < n ensures 0 <= fs[i].index <= Seen(fs[..i]) {
        assert fs[..n][i] == fs[i] && fs[..n][..i] == fs[..i];
      }
    } else {
      j := FirstOutOfOrder(fs[..n]);
      assert fs[..n][..j] == fs[..j];
    }
  }

  /** The merge is right for every content of the fragments exactly when new
    indices first appear in order. */
  lemma RightIffInOrder(tags: seq<int>)
    ensures (forall contents: seq<string> :: |contents| == |tags| ==> Right(Zip(tags, contents)))
       <==> InOrder(Zip(tags, seq(|tags|, i => "")))
  {
    var blank := seq(|tags|, i => "");
    if InOrder(Zip(tags, blank)) {
      forall contents: seq<string> | |contents| == |tags| ensures Right(Zip(tags, contents)) {
        SameOrder(Zip(tags, blank), Zip(tags, contents));
        InOrderIsRight(Zip(tags, contents));
      }
    } else {
      var j := FirstOutOfOrder(Zip(tags, blank));
      var contents := blank[j := "a"];
      var fs := Zip(tags, contents);
      SameOrder(Zip(tags, blank), fs);
      SameSeen(Zip(tags, blank), fs, j);
      WrongAt(fs, j);
    }
  }

  lemma {:induction false} SameSeen(a: seq<Fragment>, b: seq<Fragment>, n: nat)
    requires n <= |a| == |b| && forall i :: 0 <= i < |a| ==> a[i].index == b[i].index
    ensures Seen(a[..n]) == Seen(b[..n])
    ensures InOrder(a[..n]) <==> InOrder(b[..n])
  {
    if n > 0 {
      SameSeen(a, b, n - 1);
      assert a[..n][..n - 1] == a[..n - 1] && b[..n][..n - 1] == b[..n - 1];
      SameOrder(a[..n], b[..n]);
    }
  }

  lemma {:induction false} SameOrder(a: seq<Fragment>, b: seq<Fragment>)
    requires |a| == |b| && forall i :: 0 <= i < |a| ==> a[i].index == b[i].index
    ensures InOrder(a) <==> InOrder(b)
  {
    forall j | 0 <= j < |a| ensures Seen(a[..j]) == Seen(b[..j]) {
      SeenSame(a[..j], b[..j]);
    }
  }

  lemma {:induction false} SeenSame(a: seq<Fragment>, b: seq<Fragment>)
    requires |a| == |b| && forall i :: 0 <= i < |a| ==> a[i].index == b[i].index
    ensures Seen(a) == Seen(b)
  {
    if a != [] {
      SeenSame(a[..|a| - 1], b[..|b| - 1]);
    }
  }

  /** The first fragment out of order, whatever any fragment carries: if its index is
    too large, its piece becomes, for good, the arguments of the next call in order;
    if it is negative, the piece is dropped. */
  lemma WherePieceGoes(fs: seq<Fragment>, j: nat)
    requires j < |fs| && InOrder(fs[..j]) && !(0 <= fs[j].index <= Seen(fs[..j]))
    ensures fs[j].index > 0 ==>
              var k := Seen(fs[..j]); k < |Result(MergeAll(fs))| && Result(MergeAll(fs))[k] == fs[j].args
    ensures fs[j].index < 0 ==> MergeAll(fs[..j + 1]) == MergeAll(fs[..j])
  {
    if fs[j].index > 0 {
      SkipsOne(fs, j);
      hide InOrder, Seen, MergeAll;
      Stuck(fs, j + 1, Seen(fs[..j]));
    } else {
      OrderedMerge(fs[..j]);
      hide InOrder, Seen;
      assert fs[..j + 1][..j] == fs[..j];
      assert MergeAll(fs[..j + 1]) == Step(MergeAll(fs[..j]), fs[j]);
    }
  }

  /** If that fragment is the only one that carries anything, the merge is wrong. */
  lemma WrongAt(fs: seq<Fragment>, j: nat)
    requires j < |fs| && InOrder(fs[..j]) && !(0 <= fs[j].index <= Seen(fs[..j]))
    requires forall i :: 0 <= i < |fs| ==> fs[i].args == if i == j then "a" else ""
    ensures !Right(fs)
  {
    TagsAre(fs, j);
    WherePieceGoes(fs, j);
    if fs[j].index >= 0 {
      hide InOrder, Seen, MergeAll;
      TaggedNothing(fs, Seen(fs[..j]));
    }
  }

  lemma SkipsOne(fs: seq<Fragment>, j: nat)
    requires j < |fs| && InOrder(fs[..j]) && fs[j].index > Seen(fs[..j])
    ensures var m := MergeAll(fs[..j + 1]); var k := Seen(fs[..j]);
      k < |m.calls| && k !in m.builders && m.calls[k] == fs[j].args
  {
    OrderedMerge(fs[..j]);
    hide InOrder, Seen;
    assert fs[..j + 1][..j] == fs[..j];
    assert MergeAll(fs[..j + 1]) == Step(MergeAll(fs[..j]), fs[j]);
  }
}
