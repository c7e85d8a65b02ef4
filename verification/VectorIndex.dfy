/** The vector table, the nearest-neighbour index, and the list that maps the
  labels of the index to rows. */
module VectorIndex {
  import opened Options
  import opened Sequences
  import opened VectorCodec

  datatype Row = Row(id: string, blob: Blob)

  /** `rows` is in rowid order; label i of the index is vector i. */
  datatype State = State(rows: seq<Row>, index: seq<Vector>, ids: seq<string>)

  function Lookup(rows: seq<Row>, id: string): Option<Row> {
    if rows == [] then None
    else
      var front := Lookup(rows[..|rows| - 1], id);
      var last := rows[|rows| - 1];
      if front.Some? then front else if last.id == id then Some(last) else None
  }

  predicate UniqueIds(rows: seq<Row>) {
    rows != [] ==> UniqueIds(rows[..|rows| - 1]) && Lookup(rows[..|rows| - 1], rows[|rows| - 1].id).None?
  }

  // -------------------------------------------------------------------- loading

  /** The rows that one pass over the table puts into the index. */
  predicate Usable(row: Row, dim: nat) {
    row.blob != [] && Deserialized(row.blob) != [] && |Deserialized(row.blob)| == dim
  }

  function UsableRows(rows: seq<Row>, dim: nat): seq<Row> {
    if rows == [] then []
    else
      var front := UsableRows(rows[..|rows| - 1], dim);
      var last := rows[|rows| - 1];
      if Usable(last, dim) then front + [last] else front
  }

  function Vectors(rows: seq<Row>): (vs: seq<Vector>)
    ensures |vs| == |rows| && forall i :: 0 <= i < |rows| ==> vs[i] == Deserialized(rows[i].blob)
  {
    if rows == [] then [] else Vectors(rows[..|rows| - 1]) + [Deserialized(rows[|rows| - 1].blob)]
  }

  function Ids(rows: seq<Row>): (ids: seq<string>)
    ensures |ids| == |rows| && forall i :: 0 <= i < |rows| ==> ids[i] == rows[i].id
  {
    if rows == [] then [] else Ids(rows[..|rows| - 1]) + [rows[|rows| - 1].id]
  }

  function Loaded(rows: seq<Row>, preloaded: seq<Vector>, dim: nat): State {
    var usable := UsableRows(rows, dim);
    State(rows, preloaded + Vectors(usable), Ids(usable))
  }

  lemma {:induction false} UsableConcat(a: seq<Row>, b: seq<Row>, dim: nat)
    ensures UsableRows(a + b, dim) == UsableRows(a, dim) + UsableRows(b, dim)
    decreases |b|
  {
    hide Usable;
    if b == [] {
      AppendNothing(a);
      AppendNothing(UsableRows(a, dim));
    } else {
      var front := b[..|b| - 1];
      UsableConcat(a, front, dim);
      assert (a + b)[..|a + b| - 1] == a + front;
      if Usable(b[|b| - 1], dim) {
        Assoc(UsableRows(a, dim), UsableRows(front, dim), [b[|b| - 1]]);
      }
    }
  }

  /** idx.Add: all of the vectors, or none if one has another dimension. */
  predicate Fits(vectors: seq<Vector>, dim: nat) {
    forall i :: 0 <= i < |vectors| ==> |vectors[i]| == dim
  }

  /** Page after page of the table, as LIMIT and OFFSET give them. The index
    accepts every page, because rows of another dimension are left out. */
  method LoadVectorsIntoIndex(rows: seq<Row>, dim: nat, configured: int, preloaded: seq<Vector>)
    returns (index: seq<Vector>, allIds: seq<string>)
    requires dim > 0
    ensures State(rows, index, allIds) == Loaded(rows, preloaded, dim)
  {
    index, allIds := preloaded, [];
    var total := |rows|;
    AppendNothing(preloaded);
    if total == 0 {
      return;
    }
    var batchSize := if configured > 0 then configured else 1000;
    var offset := 0;
    ghost var done := 0;
    assert rows[..0] == [];
    while offset < total
      invariant 0 <= offset
      invariant done == (if offset < total then offset else total)
      invariant IsLoaded(rows[..done], preloaded, dim, index, allIds)
      decreases total - offset
    {
      hide IsLoaded, Loaded, UsableRows, Vectors, Ids, Fits;
      var end := if offset + batchSize < total then offset + batchSize else total;
      var vectors, ids := LoadPage(rows[offset..end], dim);
      assert Fits(vectors, dim);
      PageAdded(rows, offset, end, preloaded, dim, index, allIds);
      AppendNothing(index);
      AppendNothing(allIds);
      if |vectors| > 0 {
        index := index + vectors;
        allIds := allIds + ids;
      }
      offset := offset + batchSize;
      done := end;
    }
    assert rows[..total] == rows;
  }

  ghost predicate IsLoaded(rows: seq<Row>, preloaded: seq<Vector>, dim: nat, index: seq<Vector>, ids: seq<string>) {
    State(rows, index, ids) == Loaded(rows, preloaded, dim)
  }

  lemma PageAdded(rows: seq<Row>, a: nat, b: nat, preloaded: seq<Vector>, dim: nat,
                  index: seq<Vector>, ids: seq<string>)
    requires a <= b <= |rows| && IsLoaded(rows[..a], preloaded, dim, index, ids)
    ensures var usable := UsableRows(rows[a..b], dim);
      IsLoaded(rows[..b], preloaded, dim, index + Vectors(usable), ids + Ids(usable)) &&
      |Vectors(usable)| == |Ids(usable)|
  {
    hide UsableRows, Vectors, Ids;
    assert rows[..a] + rows[a..b] == rows[..b];
    UsableConcat(rows[..a], rows[a..b], dim);
    LoadedConcat(UsableRows(rows[..a], dim), UsableRows(rows[a..b], dim), preloaded);
  }

  method LoadPage(page: seq<Row>, dim: nat) returns (vectors: seq<Vector>, ids: seq<string>)
    requires dim > 0
    ensures vectors == Vectors(UsableRows(page, dim)) && ids == Ids(UsableRows(page, dim)) && Fits(vectors, dim)
  {
    vectors, ids := [], [];
    for i := 0 to |page|
      invariant vectors == Vectors(UsableRows(page[..i], dim)) && ids == Ids(UsableRows(page[..i], dim))
      invariant Fits(vectors, dim)
    {
      hide Deserialized, UsableRows, Vectors, Ids, Fits;
      var row := page[i];
      OneMore(page, i, dim);
      var vector := Deserialized(row.blob);
      if |row.blob| == 0 || |vector| == 0 || |vector| != dim {
        continue;
      }
      FitsMore(vectors, vector, dim);
      vectors := vectors + [vector];
      ids := ids + [row.id];
    }
    WholePrefix(page);
  }

  lemma FitsMore(vectors: seq<Vector>, v: Vector, dim: nat)
    requires Fits(vectors, dim) && |v| == dim
    ensures Fits(vectors + [v], dim)
  {}

  lemma OneMore(rows: seq<Row>, i: nat, dim: nat)
    requires i < |rows|
    ensures var before := UsableRows(rows[..i], dim);
      var after := UsableRows(rows[..i + 1], dim);
      if Usable(rows[i], dim)
      then Vectors(after) == Vectors(before) + [Deserialized(rows[i].blob)] && Ids(after) == Ids(before) + [rows[i].id]
      else after == before
  {
    hide Usable, Deserialized;
    assert rows[..i + 1][..i] == rows[..i];
    var before := UsableRows(rows[..i], dim);
    assert (before + [rows[i]])[..|before|] == before;
  }

  lemma LoadedConcat(a: seq<Row>, b: seq<Row>, preloaded: seq<Vector>)
    ensures preloaded + Vectors(a + b) == preloaded + Vectors(a) + Vectors(b)
    ensures Ids(a + b) == Ids(a) + Ids(b)
  {
    hide Deserialized;
    assert Vectors(a + b) == Vectors(a) + Vectors(b);
    Assoc(preloaded, Vectors(a), Vectors(b));
    assert Ids(a + b) == Ids(a) + Ids(b);
  }
}
