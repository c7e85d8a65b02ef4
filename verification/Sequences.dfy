/** Sequence facts that are cheaper to cite than to rediscover. */
module Sequences {

  lemma Assoc<T>(a: seq<T>, b: seq<T>, c: seq<T>)
    ensures a + b + c == a + (b + c)
  {}

  lemma AppendNothing<T>(a: seq<T>)
    ensures a + [] == a
  {}

  lemma FrontAndLast<T>(a: seq<T>)
    requires a != []
    ensures a[..|a| - 1] + [a[|a| - 1]] == a
  {}

  lemma WholePrefix<T>(a: seq<T>)
    ensures a[..|a|] == a
  {}
}
