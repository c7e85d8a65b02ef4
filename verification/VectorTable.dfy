/** What each step leaves in the table, the index and the labels, said of the rows that
  a lookup finds. */
module VectorTable {
  import opened Options
  import opened Sequences
  import opened VectorCodec
  import opened VectorIndex
  import opened VectorStore
  import opened VectorLabels

  /** The row with this id holds this vector. */
  predicate Holds(rows: seq<Row>, id: string, v: Vector) {
    var found := Lookup(rows, id);
    found.Some? && found.value.id == id && Deserialized(found.value.blob) == v
  }

  /** Every lookup but those of one id is answered as before. */
  ghost predicate OthersStay(before: seq<Row>, after: seq<Row>, id: string) {
    forall other: string :: other != id ==> Lookup(after, other) == Lookup(before, other)
  }

  lemma {:induction false} LookupHasId(rows: seq<Row>, id: string)
    ensures Lookup(rows, id).Some? ==> Lookup(rows, id).value.id == id && Lookup(rows, id).value in rows
  {
    if rows != [] {
      LookupHasId(rows[..|rows| - 1], id);
    }
  }

  /** The id of a usable row is listed, and no other. */
  lemma {:induction false} ListedIff(rows: seq<Row>, dim: nat, id: string)
    requires UniqueIds(rows)
    ensures id in Ids(UsableRows(rows, dim)) <==> Lookup(rows, id).Some? && Usable(Lookup(rows, id).value, dim)
  {
    hide Usable;
    if rows != [] {
      var front, last := rows[..|rows| - 1], rows[|rows| - 1];
      ListedIff(front, dim, id);
      var usable := UsableRows(front, dim);
      assert (usable + [last])[..|usable|] == usable;
    }
  }

  /** After one pass: a row is listed exactly if its vector has the dimension, and its
    label then leads to that vector. */
  lemma LoadedHolds(rows: seq<Row>, preloaded: seq<Vector>, dim: nat, id: string, v: Vector)
    requires dim > 0 && UniqueIds(rows) && Holds(rows, id, v)
    ensures var t := Loaded(rows, preloaded, dim);
      && t.rows == rows && |t.index| == |preloaded| + |t.ids| && t.index[..|preloaded|] == preloaded
      && (id in t.ids <==> |v| == dim)
      && (forall i :: 0 <= i < |t.ids| && t.ids[i] == id ==> t.index[|preloaded| + i] == v)
  {
    hide Lookup, UniqueIds, Aligned, UsableRows;
    ListedIff(rows, dim, id);
    LoadedIsAligned(rows, dim);
    LedTo(rows, dim, id, v);
  }

  lemma LedTo(rows: seq<Row>, dim: nat, id: string, v: Vector)
    requires Holds(rows, id, v) && Aligned(Loaded(rows, [], dim))
    ensures var t := Loaded(rows, [], dim);
      forall i :: 0 <= i < |t.ids| && t.ids[i] == id ==> i < |t.index| && t.index[i] == v
  {
    hide Lookup, UsableRows, Vectors, Ids, Deserialized;
    var t := Loaded(rows, [], dim);
    forall i | 0 <= i < |t.ids| && t.ids[i] == id ensures t.index[i] == v {
      assert Leads(t, i);
    }
  }

  /** A store under a fresh id puts the vector into all three places, or changes nothing. */
  lemma StoreIs(s: State, dim: nat, n: Entry)
    requires Lookup(s.rows, n.id).None?
    ensures var t := Step(s, dim, Store(n));
      if |n.vector| != dim then t == s
      else && Holds(t.rows, n.id, n.vector) && OthersStay(s.rows, t.rows, n.id)
           && |t.rows| == |s.rows| + 1 && t.index == s.index + [n.vector] && t.ids == s.ids + [n.id]
  {
    hide Lookup, Serialized, Deserialized;
    VectorRoundTrip(n.vector);
    forall id { LookupAppend(s.rows, RowOf(n), id); }
  }

  /** An update keeps every id in its place. With an embedding the row holds that, and
    without one the vector it held; the rebuilt index has that vector under the row's
    label exactly if it has the index's dimension. */
  lemma UpdateIs(s: State, dim: nat, id: string, embedding: Option<Vector>, preloaded: seq<Vector>)
    requires dim > 0 && UniqueIds(s.rows)
    ensures var t := Step(s, dim, Update(id, embedding, preloaded));
      if id == "" || Lookup(s.rows, id).None? then t == s
      else
        var v := if embedding.Some? then embedding.value else Deserialized(Lookup(s.rows, id).value.blob);
        && Holds(t.rows, id, v) && OthersStay(s.rows, t.rows, id) && Ids(t.rows) == Ids(s.rows)
        && |t.index| == |preloaded| + |t.ids| && t.index[..|preloaded|] == preloaded
        && (id in t.ids <==> |v| == dim)
        && (forall i :: 0 <= i < |t.ids| && t.ids[i] == id ==> t.index[|preloaded| + i] == v)
  {
    hide *;
    StepUpdate(s, dim, id, embedding, preloaded);
    if id != "" && Lookup(s.rows, id).Some? {
      var v := if embedding.Some? then embedding.value else Deserialized(Lookup(s.rows, id).value.blob);
      ReplacedHolds(s.rows, id, v);
      ReplacedIds(s.rows, id, Serialized(v));
      UniqueReplaced(s.rows, id, Serialized(v));
      LoadedHolds(Replaced(s.rows, id, Serialized(v)), preloaded, dim, id, v);
    }
  }

  lemma StepUpdate(s: State, dim: nat, id: string, embedding: Option<Vector>, preloaded: seq<Vector>)
    ensures var t := Step(s, dim, Update(id, embedding, preloaded));
      if id == "" || Lookup(s.rows, id).None? then t == s
      else t == Loaded(Replaced(s.rows, id, Serialized(if embedding.Some? then embedding.value
                                                       else Deserialized(Lookup(s.rows, id).value.blob))),
                       preloaded, dim)
  {
    hide Lookup, Serialized, Deserialized, Loaded, Replaced;
  }

  lemma ReplacedHolds(rows: seq<Row>, id: string, v: Vector)
    requires Lookup(rows, id).Some?
    ensures Holds(Replaced(rows, id, Serialized(v)), id, v)
    ensures OthersStay(rows, Replaced(rows, id, Serialized(v)), id)
  {
    hide Lookup, Serialized, Deserialized, Replaced;
    VectorRoundTrip(v);
    forall other { LookupReplaced(rows, id, Serialized(v), other); }
  }

  lemma {:induction false} ReplacedIds(rows: seq<Row>, id: string, blob: Blob)
    ensures Ids(Replaced(rows, id, blob)) == Ids(rows)
  {
    if rows != [] {
      var front, last := rows[..|rows| - 1], rows[|rows| - 1];
      ReplacedIds(front, id, blob);
      var r := Replaced(front, id, blob);
      var put := if last.id == id then Row(id, blob) else last;
      assert (r + [put])[..|r|] == r;
    }
  }

  /** A deletion takes away the row and its label, and no other; the vector stays. */
  lemma DeleteIs(s: State, dim: nat, id: string, other: string)
    requires Lookup(s.rows, id).Some?
    ensures var t := Step(s, dim, Delete(id));
      && Lookup(t.rows, id).None? && OthersStay(s.rows, t.rows, id) && t.index == s.index
      && multiset(t.ids)[other] == if other == id then 0 else multiset(s.ids)[other]
  {
    hide Lookup, Without, Dropped;
    forall o { LookupWithout(s.rows, id, o); }
    DroppedCounts(s.ids, id, other);
  }

  lemma {:induction false} DroppedCounts(ids: seq<string>, id: string, other: string)
    ensures multiset(Dropped(ids, id))[other] == if other == id then 0 else multiset(ids)[other]
  {
    if ids != [] {
      var front := ids[..|ids| - 1];
      DroppedCounts(front, id, other);
      assert ids == front + [ids[|ids| - 1]];
    }
  }

  /** A batch puts every entry that is not refused into the table, and only those; the
    index and the labels get all of them, or none when one has another dimension. */
  lemma BatchIs(s: State, dim: nat, es: seq<Entry>, refused: set<int>)
    requires FreshRows(s.rows, RowsOf(Taken(es, refused)))
    ensures var t := Step(s, dim, StoreBatch(Taken(es, refused)));
      && (forall i :: 0 <= i < |es| && i !in refused ==> Holds(t.rows, es[i].id, es[i].vector))
      && (forall id :: (forall i :: 0 <= i < |es| && i !in refused ==> es[i].id != id) ==>
                         Lookup(t.rows, id) == Lookup(s.rows, id))
      && (if forall i :: 0 <= i < |es| && i !in refused ==> |es[i].vector| == dim
          then |t.index| - |s.index| == |t.ids| - |s.ids| == |t.rows| - |s.rows|
          else t.index == s.index && t.ids == s.ids)
  {
    hide *;
    var t := Step(s, dim, StoreBatch(Taken(es, refused)));
    StepBatch(s, dim, Taken(es, refused));
    forall i | 0 <= i < |es| && i !in refused ensures Holds(t.rows, es[i].id, es[i].vector) {
      TakenHolds(s.rows, es, refused, i);
    }
    forall id | forall i :: 0 <= i < |es| && i !in refused ==> es[i].id != id
      ensures Lookup(t.rows, id) == Lookup(s.rows, id)
    {
      NotTaken(s.rows, es, refused, id);
    }
    TakenFits(es, refused, dim);
  }

  lemma StepBatch(s: State, dim: nat, es: seq<Entry>)
    ensures var t := Step(s, dim, StoreBatch(es));
      && t.rows == s.rows + RowsOf(es) && |t.rows| == |s.rows| + |es|
      && (if Fits(VectorsOf(es), dim) then |t.index| == |s.index| + |es| && |t.ids| == |s.ids| + |es|
          else t.index == s.index && t.ids == s.ids)
  {
    hide Serialized, Fits;
  }

  lemma {:induction false} TakenHolds(rows: seq<Row>, es: seq<Entry>, refused: set<int>, i: nat)
    requires i < |es| && i !in refused && FreshRows(rows, RowsOf(Taken(es, refused)))
    ensures Holds(rows + RowsOf(Taken(es, refused)), es[i].id, es[i].vector)
  {
    hide Serialized, Deserialized, Lookup;
    var n := |es| - 1;
    var front := Taken(es[..n], refused);
    WholePrefix(es);
    OneTaken(es, refused, n);
    if n in refused {
      TakenHolds(rows, es[..n], refused, i);
    } else {
      var r := RowOf(es[n]);
      assert (RowsOf(front) + [r])[..|front|] == RowsOf(front);
      LookupAppend(rows + RowsOf(front), r, es[i].id);
      Assoc(rows, RowsOf(front), [r]);
      if i < n {
        TakenHolds(rows, es[..n], refused, i);
      } else {
        VectorRoundTrip(es[n].vector);
      }
    }
  }

  lemma {:induction false} NotTaken(rows: seq<Row>, es: seq<Entry>, refused: set<int>, id: string)
    requires forall i :: 0 <= i < |es| && i !in refused ==> es[i].id != id
    ensures Lookup(rows + RowsOf(Taken(es, refused)), id) == Lookup(rows, id)
  {
    hide Serialized, Lookup;
    if es == [] {
      AppendNothing(rows);
    } else {
      var n := |es| - 1;
      NotTaken(rows, es[..n], refused, id);
      WholePrefix(es);
      OneTaken(es, refused, n);
      if n !in refused {
        var front := Taken(es[..n], refused);
        LookupAppend(rows + RowsOf(front), RowOf(es[n]), id);
        Assoc(rows, RowsOf(front), [RowOf(es[n])]);
      }
    }
  }

  lemma {:induction false} TakenFits(es: seq<Entry>, refused: set<int>, dim: nat)
    ensures Fits(VectorsOf(Taken(es, refused)), dim)
       <==> forall i :: 0 <= i < |es| && i !in refused ==> |es[i].vector| == dim
  {
    if es != [] {
      var n := |es| - 1;
      TakenFits(es[..n], refused, dim);
      var front := Taken(es[..n], refused);
      assert (front + [es[n]])[..|front|] == front;
      assert n !in refused ==> VectorsOf(Taken(es, refused)) == VectorsOf(front) + [es[n].vector];
      forall i | 0 <= i < n && i !in refused ensures es[..n][i] == es[i] {}
    }
  }
}
