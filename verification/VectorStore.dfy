/** What stores, updates, deletions and rebuilds do to the table and the index,
  and when a label still leads to the row of its vector. */
module VectorStore {
  import opened Options
  import opened Sequences
  import opened VectorCodec
  import opened VectorIndex

  datatype Entry = Entry(id: string, vector: Vector)

  /** `preloaded` is what a new index finds in its file. A store fails when its
    row is refused after the index has taken the vector. */
  datatype Event =
    | Store(entry: Entry)
    | StoreFails(vector: Vector)
    | StoreBatch(entries: seq<Entry>)
    | Update(id: string, embedding: Option<Vector>, preloaded: seq<Vector>)
    | Delete(id: string)
    | Rebuild(preloaded: seq<Vector>)

  function RowOf(e: Entry): Row { Row(e.id, Serialized(e.vector)) }

  function RowsOf(es: seq<Entry>): (rows: seq<Row>)
    ensures |rows| == |es|
  {
    if es == [] then [] else RowsOf(es[..|es| - 1]) + [RowOf(es[|es| - 1])]
  }

  function VectorsOf(es: seq<Entry>): (vs: seq<Vector>)
    ensures |vs| == |es| && forall i :: 0 <= i < |es| ==> vs[i] == es[i].vector
  {
    if es == [] then [] else VectorsOf(es[..|es| - 1]) + [es[|es| - 1].vector]
  }

  function IdsOf(es: seq<Entry>): seq<string> { Ids(RowsOf(es)) }

  /** The entries whose rows are taken. */
  function Taken(es: seq<Entry>, refused: set<int>): seq<Entry> {
    if es == [] then []
    else
      var front := Taken(es[..|es| - 1], refused);
      if |es| - 1 in refused then front else front + [es[|es| - 1]]
  }

  lemma NoneTaken(es: seq<Entry>, refused: set<int>)
    ensures var none := Taken(es[..0], refused); RowsOf(none) == [] && VectorsOf(none) == [] && IdsOf(none) == []
  {}

  lemma OneTaken(es: seq<Entry>, refused: set<int>, i: nat)
    requires i < |es|
    ensures var before, after := Taken(es[..i], refused), Taken(es[..i + 1], refused);
      if i in refused then after == before
      else && RowsOf(after) == RowsOf(before) + [RowOf(es[i])]
           && VectorsOf(after) == VectorsOf(before) + [es[i].vector] && IdsOf(after) == IdsOf(before) + [es[i].id]
  {
    hide Serialized;
    assert es[..i + 1][..i] == es[..i];
    var before := Taken(es[..i], refused);
    assert (before + [es[i]])[..|before|] == before;
    var rows := RowsOf(before);
    assert (rows + [RowOf(es[i])])[..|rows|] == rows;
  }

  /** UPDATE and DELETE by id, and the loop that drops an id from the list. */
  function Replaced(rows: seq<Row>, id: string, blob: Blob): seq<Row> {
    if rows == [] then []
    else
      var last := rows[|rows| - 1];
      Replaced(rows[..|rows| - 1], id, blob) + [if last.id == id then Row(id, blob) else last]
  }

  function Without(rows: seq<Row>, id: string): seq<Row> {
    if rows == [] then []
    else
      var front := Without(rows[..|rows| - 1], id);
      var last := rows[|rows| - 1];
      if last.id == id then front else front + [last]
  }

  function Dropped(ids: seq<string>, id: string): seq<string> {
    if ids == [] then []
    else
      var front := Dropped(ids[..|ids| - 1], id);
      var last := ids[|ids| - 1];
      if last == id then front else front + [last]
  }

  function Step(s: State, dim: nat, e: Event): State {
    match e
    case Store(n) =>
      if |n.vector| != dim then s else State(s.rows + [RowOf(n)], s.index + [n.vector], s.ids + [n.id])
    case StoreFails(v) => if |v| != dim then s else s.(index := s.index + [v])
    case StoreBatch(es) =>
      if Fits(VectorsOf(es), dim) then State(s.rows + RowsOf(es), s.index + VectorsOf(es), s.ids + IdsOf(es))
      else s.(rows := s.rows + RowsOf(es))
    case Update(id, embedding, preloaded) =>
      var found := Lookup(s.rows, id);
      if id == "" || found.None? then s
      else
        var v := if embedding.Some? then embedding.value else Deserialized(found.value.blob);
        Loaded(Replaced(s.rows, id, Serialized(v)), preloaded, dim)
    case Delete(id) =>
      if Lookup(s.rows, id).None? then s
      else s.(rows := Without(s.rows, id), ids := Dropped(s.ids, id))
    case Rebuild(preloaded) => Loaded(s.rows, preloaded, dim)
  }

  /** A search result: a label, and whether its score reaches the minimum. */
  datatype Hit = Hit(at: int, passes: bool)

  /** The rows that a search returns. */
  function Search(s: State, hits: seq<Hit>): seq<Row> {
    if hits == [] then []
    else
      var front := Search(s, hits[..|hits| - 1]);
      var hit := hits[|hits| - 1];
      if !(0 <= hit.at < |s.ids|) then front
      else
        var found := Lookup(s.rows, s.ids[hit.at]);
        if found.None? || !hit.passes then front else front + [found.value]
  }

  class VectorMemoryStore {
    const dim: nat
    const batchSize: int
    var rows: seq<Row>
    var index: seq<Vector>
    var ids: seq<string>

    ghost function Contents(): State
      reads this
    {
      State(rows, index, ids)
    }

    constructor (dim: nat, batchSize: int, rows: seq<Row>)
      ensures Contents() == State(rows, [], []) && this.dim == dim && this.batchSize == batchSize
    {
      this.dim, this.batchSize, this.rows := dim, batchSize, rows;
      index, ids := [], [];
    }

    /** idx.Add. */
    method AddToIndex(vectors: seq<Vector>) returns (ok: bool)
      modifies this`index
      ensures ok == Fits(vectors, dim) && index == if ok then old(index) + vectors else old(index)
    {
      for i := 0 to |vectors|
        invariant Fits(vectors[..i], dim) && index == old(index)
      {
        if |vectors[i]| != dim {
          return false;
        }
      }
      assert vectors[..|vectors|] == vectors;
      index := index + vectors;
      return true;
    }

    /** `inserts` says whether the table takes the row. */
    method StoreWithSource(id: string, vector: Vector, inserts: bool) returns (ok: bool)
      modifies this
      ensures Contents() == Step(old(Contents()), dim, if inserts then Store(Entry(id, vector)) else StoreFails(vector))
      ensures ok == (inserts && |vector| == dim)
    {
      hide Serialized;
      assert [vector][0] == vector;
      var added := AddToIndex([vector]);
      assert added == (|vector| == dim);
      if !added || !inserts {
        return false;
      }
      rows := rows + [Row(id, Serialized(vector))];
      ids := ids + [id];
      return true;
    }

    /** `refused` are the entries whose row the table does not take: they are passed over. */
    method StoreAll(entries: seq<Entry>, refused: set<int>) returns (stored: seq<string>)
      modifies this
      ensures Contents() == Step(old(Contents()), dim, StoreBatch(Taken(entries, refused)))
      ensures stored == IdsOf(Taken(entries, refused))
    {
      hide Serialized, RowsOf, VectorsOf, IdsOf, Taken;
      var vectors, targets := [], [];
      AppendNothing(rows);
      NoneTaken(entries, refused);
      for i := 0 to |entries|
        invariant rows == old(rows) + RowsOf(Taken(entries[..i], refused))
        invariant vectors == VectorsOf(Taken(entries[..i], refused))
        invariant targets == IdsOf(Taken(entries[..i], refused))
        invariant index == old(index) && ids == old(ids)
      {
        OneTaken(entries, refused, i);
        if i in refused {
          continue;
        }
        var e := entries[i];
        Assoc(old(rows), RowsOf(Taken(entries[..i], refused)), [RowOf(e)]);
        rows := rows + [Row(e.id, Serialized(e.vector))];
        vectors := vectors + [e.vector];
        targets := targets + [e.id];
      }
      WholePrefix(entries);
      AppendNothing(index);
      AppendNothing(ids);
      if |vectors| > 0 {
        var added := AddToIndex(vectors);
        if added {
          ids := ids + targets;
        }
      }
      return targets;
    }

    method RebuildHNSW(preloaded: seq<Vector>)
      requires dim > 0
      modifies this
      ensures Contents() == Step(old(Contents()), dim, Rebuild(preloaded))
    {
      var newIndex, newIds := LoadVectorsIntoIndex(rows, dim, batchSize, preloaded);
      index, ids := newIndex, newIds;
    }

    method UpdateRow(id: string, embedding: Option<Vector>, preloaded: seq<Vector>) returns (ok: bool)
      requires dim > 0
      modifies this
      ensures Contents() == Step(old(Contents()), dim, Update(id, embedding, preloaded))
      ensures ok == (id != "" && Lookup(old(rows), id).Some?)
    {
      var found := Lookup(rows, id);
      if id == "" || found.None? {
        return false;
      }
      var vector := Deserialized(found.value.blob);
      if embedding.Some? {
        vector := embedding.value;
      }
      rows := Replaced(rows, id, Serialized(vector));
      RebuildHNSW(preloaded);
      return true;
    }

    method DeleteRow(id: string) returns (ok: bool)
      modifies this
      ensures Contents() == Step(old(Contents()), dim, Delete(id)) && ok == Lookup(old(rows), id).Some?
    {
      if Lookup(rows, id).None? {
        return false;
      }
      rows := Without(rows, id);
      var kept := [];
      for i := 0 to |ids|
        invariant kept == Dropped(ids[..i], id)
      {
        assert ids[..i + 1][..i] == ids[..i];
        if ids[i] != id {
          kept := kept + [ids[i]];
        }
      }
      assert ids[..|ids|] == ids;
      ids := kept;
      return true;
    }

    method HnswSearch(hits: seq<Hit>) returns (results: seq<Row>)
      ensures results == Search(Contents(), hits)
    {
      results := [];
      for i := 0 to |hits|
        invariant results == Search(Contents(), hits[..i])
      {
        assert hits[..i + 1][..i] == hits[..i];
        var at := hits[i].at;
        if at < 0 || at >= |ids| {
          continue;
        }
        var found := Lookup(rows, ids[at]);
        if found.None? || !hits[i].passes {
          continue;
        }
        results := results + [found.value];
      }
      assert hits[..|hits|] == hits;
    }
  }
}
