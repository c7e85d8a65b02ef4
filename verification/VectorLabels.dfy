/** When the labels of the index lead to the rows of their vectors. */
module VectorLabels {
  import opened Options
  import opened Sequences
  import opened VectorCodec
  import opened VectorIndex
  import opened VectorStore

  /** Label i leads to the row that holds vector i. */
  predicate Leads(s: State, i: nat)
    requires i < |s.ids| && i < |s.index|
  {
    var found := Lookup(s.rows, s.ids[i]);
    found.Some? && Deserialized(found.value.blob) == s.index[i]
  }

  predicate Aligned(s: State) {
    |s.index| == |s.ids| && forall i :: 0 <= i < |s.ids| ==> Leads(s, i)
  }

  /** Row ids are fresh when a row is stored. */
  predicate FreshRows(rows: seq<Row>, news: seq<Row>) {
    news != [] ==>
      var front := news[..|news| - 1];
      FreshRows(rows, front) && Lookup(rows + front, news[|news| - 1].id).None?
  }

  predicate Fresh(s: State, e: Event) {
    match e
    case Store(n) => Lookup(s.rows, n.id).None?
    case StoreBatch(es) => FreshRows(s.rows, RowsOf(es))
    case _ => true
  }

  // --------------------------------------------------------------------- tables

  lemma {:induction false} LookupConcat(a: seq<Row>, b: seq<Row>, id: string)
    ensures Lookup(a + b, id) == if Lookup(a, id).Some? then Lookup(a, id) else Lookup(b, id)
    decreases |b|
  {
    if b == [] {
      AppendNothing(a);
    } else {
      LookupConcat(a, b[..|b| - 1], id);
      assert (a + b)[..|a + b| - 1] == a + b[..|b| - 1];
    }
  }

  lemma LookupAppend(rows: seq<Row>, r: Row, id: string)
    ensures Lookup(rows + [r], id)
         == if Lookup(rows, id).Some? then Lookup(rows, id) else if r.id == id then Some(r) else None
  {
    assert (rows + [r])[..|rows|] == rows;
  }

  lemma {:induction false} LookupWithout(rows: seq<Row>, id: string, other: string)
    ensures Lookup(Without(rows, id), other) == if other == id then None else Lookup(rows, other)
  {
    if rows != [] {
      var front := rows[..|rows| - 1];
      LookupWithout(front, id, other);
      LookupAppend(Without(front, id), rows[|rows| - 1], other);
    }
  }

  lemma {:induction false} LookupReplaced(rows: seq<Row>, id: string, blob: Blob, other: string)
    ensures var was := Lookup(rows, other);
      Lookup(Replaced(rows, id, blob), other) == if was.Some? && other == id then Some(Row(id, blob)) else was
  {
    if rows != [] {
      var front := rows[..|rows| - 1];
      var last := rows[|rows| - 1];
      LookupReplaced(front, id, blob, other);
      LookupAppend(Replaced(front, id, blob), if last.id == id then Row(id, blob) else last, other);
    }
  }

  lemma {:induction false} UniqueAppend(rows: seq<Row>, news: seq<Row>)
    requires UniqueIds(rows) && FreshRows(rows, news)
    ensures UniqueIds(rows + news)
    decreases |news|
  {
    if news == [] {
      AppendNothing(rows);
    } else {
      var front := news[..|news| - 1];
      UniqueAppend(rows, front);
      assert (rows + news)[..|rows + news| - 1] == rows + front;
    }
  }

  lemma {:induction false} UniqueWithout(rows: seq<Row>, id: string)
    requires UniqueIds(rows)
    ensures UniqueIds(Without(rows, id))
  {
    if rows != [] {
      var front := rows[..|rows| - 1];
      var last := rows[|rows| - 1];
      UniqueWithout(front, id);
      LookupWithout(front, id, last.id);
      assert (Without(front, id) + [last])[..|Without(front, id)|] == Without(front, id);
    }
  }

  lemma {:induction false} UniqueReplaced(rows: seq<Row>, id: string, blob: Blob)
    requires UniqueIds(rows)
    ensures UniqueIds(Replaced(rows, id, blob))
  {
    if rows != [] {
      var front := rows[..|rows| - 1];
      var last := rows[|rows| - 1];
      UniqueReplaced(front, id, blob);
      LookupReplaced(front, id, blob, last.id);
      var r := Replaced(front, id, blob);
      assert forall x: Row :: (r + [x])[..|r|] == r;
    }
  }

  lemma StepKeepsIdsUnique(s: State, dim: nat, e: Event)
    requires UniqueIds(s.rows) && Fresh(s, e)
    ensures UniqueIds(Step(s, dim, e).rows)
  {
    hide UniqueIds, Serialized, Deserialized, Fits;
    match e {
      case Store(n) =>
        var news := [RowOf(n)];
        assert news[..0] == [];
        AppendNothing(s.rows);
        assert FreshRows(s.rows, []) && FreshRows(s.rows, news);
        UniqueAppend(s.rows, news);
      case StoreBatch(es) => UniqueAppend(s.rows, RowsOf(es));
      case Update(id, embedding, preloaded) =>
        var found := Lookup(s.rows, id);
        if found.Some? {
          var v := if embedding.Some? then embedding.value else Deserialized(found.value.blob);
          UniqueReplaced(s.rows, id, Serialized(v));
        }
      case Delete(id) => UniqueWithout(s.rows, id);
      case _ =>
    }
  }

  // ------------------------------------------------------------------ alignment

  /** A new row does not disturb the labels. */
  lemma NewRowsKeep(s: State, news: seq<Row>)
    requires Aligned(s)
    ensures Aligned(s.(rows := s.rows + news))
  {
    var t := s.(rows := s.rows + news);
    hide Deserialized, Lookup;
    forall i | 0 <= i < |t.ids| ensures Leads(t, i) {
      assert Leads(s, i);
      LookupConcat(s.rows, news, s.ids[i]);
    }
  }

  /** A label may be added together with the row and the vector it belongs to. */
  lemma LabelAppended(s: State, id: string, v: Vector)
    requires Aligned(s) && Lookup(s.rows, id).Some? && Deserialized(Lookup(s.rows, id).value.blob) == v
    ensures Aligned(s.(index := s.index + [v], ids := s.ids + [id]))
  {
    var t := s.(index := s.index + [v], ids := s.ids + [id]);
    hide Deserialized, Lookup;
    forall i | 0 <= i < |t.ids| ensures Leads(t, i) {
      assert i < |s.ids| ==> Leads(s, i);
    }
  }

  lemma StoreAligned(s: State, r: Row)
    requires Aligned(s) && Lookup(s.rows, r.id).None?
    ensures Aligned(State(s.rows + [r], s.index + [Deserialized(r.blob)], s.ids + [r.id]))
  {
    hide Deserialized, Aligned;
    NewRowsKeep(s, [r]);
    LookupAppend(s.rows, r, r.id);
    LabelAppended(s.(rows := s.rows + [r]), r.id, Deserialized(r.blob));
  }

  lemma LoadedOfNone(dim: nat)
    ensures Aligned(Loaded([], [], dim))
  {}

  lemma LoadedOneMore(rows: seq<Row>, i: nat, dim: nat)
    requires i < |rows|
    ensures var s := Loaded(rows[..i], [], dim);
      var r := rows[i];
      var t := Loaded(rows[..i + 1], [], dim);
      if Usable(r, dim) then t == State(s.rows + [r], s.index + [Deserialized(r.blob)], s.ids + [r.id])
      else t == s.(rows := s.rows + [r])
  {
    hide Usable, Deserialized, UsableRows, Vectors, Ids;
    OneMore(rows, i, dim);
    assert rows[..i + 1] == rows[..i] + [rows[i]];
    assert forall vs: seq<Vector> :: [] + vs == vs;
  }

  /** One pass over a table gives labels that lead to the rows. */
  lemma {:induction false} LoadedIsAligned(rows: seq<Row>, dim: nat)
    requires UniqueIds(rows)
    ensures Aligned(Loaded(rows, [], dim))
  {
    hide Usable, Deserialized, Lookup, UsableRows, Vectors, Ids, Aligned;
    if rows == [] {
      LoadedOfNone(dim);
    } else {
      var n := |rows| - 1;
      var front := rows[..n];
      LoadedIsAligned(front, dim);
      LoadedOneMore(rows, n, dim);
      assert rows[..|rows|] == rows;
      if Usable(rows[n], dim) {
        StoreAligned(Loaded(front, [], dim), rows[n]);
      } else {
        NewRowsKeep(Loaded(front, [], dim), [rows[n]]);
      }
    }
  }

  lemma {:induction false} BatchAligned(s: State, es: seq<Entry>)
    requires Aligned(s) && FreshRows(s.rows, RowsOf(es))
    ensures Aligned(State(s.rows + RowsOf(es), s.index + VectorsOf(es), s.ids + IdsOf(es)))
    decreases |es|
  {
    hide Aligned, Serialized, Deserialized, Lookup;
    if es == [] {
      AppendNothing(s.rows);
      AppendNothing(s.index);
      AppendNothing(s.ids);
    } else {
      var front := es[..|es| - 1];
      var e := es[|es| - 1];
      assert RowsOf(es)[..|RowsOf(es)| - 1] == RowsOf(front);
      BatchAligned(s, front);
      VectorRoundTrip(e.vector);
      StoreAligned(State(s.rows + RowsOf(front), s.index + VectorsOf(front), s.ids + IdsOf(front)), RowOf(e));
      Assoc(s.rows, RowsOf(front), [RowOf(e)]);
      Assoc(s.index, VectorsOf(front), [e.vector]);
      Assoc(s.ids, IdsOf(front), [e.id]);
    }
  }

  lemma {:induction false} DroppedIs(ids: seq<string>, id: string)
    ensures |Dropped(ids, id)| <= |ids|
    ensures Dropped(ids, id) == ids <==> id !in ids
    ensures |Dropped(ids, id)| == |ids| <==> id !in ids
  {
    if ids != [] {
      var front := ids[..|ids| - 1];
      DroppedIs(front, id);
      assert ids == front + [ids[|ids| - 1]];
    }
  }

  lemma DeleteAligned(s: State, id: string)
    requires Aligned(s) && id !in s.ids
    ensures Aligned(s.(rows := Without(s.rows, id)))
  {
    var t := s.(rows := Without(s.rows, id));
    hide Deserialized, Lookup;
    forall i | 0 <= i < |t.ids| ensures Leads(t, i) {
      assert Leads(s, i);
      LookupWithout(s.rows, id, s.ids[i]);
    }
  }

  // ------------------------------------------------------------------- all runs

  /** The vectors without a label: those of refused rows and of listed rows that
    were deleted, and what a new index found in its file. A rebuild forgets the
    earlier ones. */
  function StrayAfter(s: State, dim: nat, e: Event, stray: int): int {
    match e
    case StoreFails(v) => if |v| == dim then stray + 1 else stray
    case Delete(id) => if Lookup(s.rows, id).Some? then stray + |s.ids| - |Dropped(s.ids, id)| else stray
    case Update(id, _, preloaded) => if id != "" && Lookup(s.rows, id).Some? then |preloaded| else stray
    case Rebuild(preloaded) => |preloaded|
    case _ => stray
  }

  ghost predicate Inv(s: State, stray: int) {
    UniqueIds(s.rows) && |s.index| == |s.ids| + stray && stray >= 0 && (stray == 0 ==> Aligned(s))
  }

  lemma LoadedKeeps(rows: seq<Row>, preloaded: seq<Vector>, dim: nat)
    requires UniqueIds(rows)
    ensures Inv(Loaded(rows, preloaded, dim), |preloaded|)
  {
    hide Aligned, UniqueIds, Deserialized;
    LoadedIsAligned(rows, dim);
  }

  lemma StepKeeps(s: State, dim: nat, e: Event, stray: int)
    requires Inv(s, stray) && Fresh(s, e)
    ensures Inv(Step(s, dim, e), StrayAfter(s, dim, e, stray))
  {
    StepKeepsIdsUnique(s, dim, e);
    hide Aligned, UniqueIds, Deserialized, Serialized, Lookup, UsableRows, Fits;
    match e {
      case Store(n) =>
        if |n.vector| == dim && stray == 0 {
          VectorRoundTrip(n.vector);
          StoreAligned(s, RowOf(n));
        }
      case StoreFails(v) =>
      case StoreBatch(es) =>
        if stray == 0 {
          if Fits(VectorsOf(es), dim) {
            BatchAligned(s, es);
          } else {
            NewRowsKeep(s, RowsOf(es));
          }
        }
      case Update(id, embedding, preloaded) =>
        var found := Lookup(s.rows, id);
        if id != "" && found.Some? {
          var v := if embedding.Some? then embedding.value else Deserialized(found.value.blob);
          LoadedKeeps(Replaced(s.rows, id, Serialized(v)), preloaded, dim);
        }
      case Delete(id) =>
        DroppedIs(s.ids, id);
        if stray == 0 && id !in s.ids {
          DeleteAligned(s, id);
        }
      case Rebuild(preloaded) => LoadedKeeps(s.rows, preloaded, dim);
    }
  }

  function Run(s: State, dim: nat, es: seq<Event>): State
    decreases |es|
  {
    if es == [] then s else Run(Step(s, dim, es[0]), dim, es[1..])
  }

  function StrayInRun(s: State, dim: nat, es: seq<Event>, stray: int): int
    decreases |es|
  {
    if es == [] then stray
    else StrayInRun(Step(s, dim, es[0]), dim, es[1..], StrayAfter(s, dim, es[0], stray))
  }

  predicate FreshRun(s: State, dim: nat, es: seq<Event>)
    decreases |es|
  {
    es != [] ==> Fresh(s, es[0]) && FreshRun(Step(s, dim, es[0]), dim, es[1..])
  }

  lemma {:induction false} RunKeeps(s: State, dim: nat, es: seq<Event>, stray: int)
    requires Inv(s, stray) && FreshRun(s, dim, es)
    ensures Inv(Run(s, dim, es), StrayInRun(s, dim, es, stray))
    decreases |es|
  {
    hide Inv, Step, StrayAfter, Fresh;
    if es != [] {
      StepKeeps(s, dim, es[0], stray);
      RunKeeps(Step(s, dim, es[0]), dim, es[1..], StrayAfter(s, dim, es[0], stray));
    }
  }

  /** From a loaded table, after any run, every label leads to the row of its
    vector exactly when no vector is in the index without a label. */
  lemma AlignedIff(rows: seq<Row>, dim: nat, es: seq<Event>)
    requires UniqueIds(rows)
    requires FreshRun(Loaded(rows, [], dim), dim, es)
    ensures var s := Loaded(rows, [], dim);
      Aligned(Run(s, dim, es)) <==> StrayInRun(s, dim, es, 0) == 0
  {
    hide Step, StrayAfter, FreshRun, Leads;
    LoadedKeeps(rows, [], dim);
    RunKeeps(Loaded(rows, [], dim), dim, es, 0);
  }

  // ------------------------------------------------------- one pass, step by step

  /** The index is what one pass over the table would load. */
  predicate Synced(s: State, dim: nat) { s == Loaded(s.rows, [], dim) }

  /** Steps after which the index still is what one pass would load. */
  predicate Benign(s: State, dim: nat, e: Event) {
    match e
    case Store(n) => true
    case StoreFails(v) => |v| != dim
    case StoreBatch(es) => Fits(VectorsOf(es), dim) || forall i :: 0 <= i < |es| ==> |VectorsOf(es)[i]| != dim
    case Update(id, _, preloaded) => id == "" || Lookup(s.rows, id).None? || preloaded == []
    case Delete(id) => Lookup(s.rows, id).None? || id !in s.ids
    case Rebuild(preloaded) => preloaded == []
  }

  lemma UsableStored(e: Entry, dim: nat)
    requires dim > 0
    ensures Usable(RowOf(e), dim) <==> |e.vector| == dim
  {
    VectorRoundTrip(e.vector);
  }

  lemma {:induction false} UsableBatch(es: seq<Entry>, dim: nat)
    requires dim > 0
    ensures |UsableRows(RowsOf(es), dim)| <= |es|
    ensures UsableRows(RowsOf(es), dim) == RowsOf(es) <==> Fits(VectorsOf(es), dim)
    ensures UsableRows(RowsOf(es), dim) == [] <==> forall i :: 0 <= i < |es| ==> |VectorsOf(es)[i]| != dim
    ensures Vectors(RowsOf(es)) == VectorsOf(es) && Ids(RowsOf(es)) == IdsOf(es)
  {
    hide Usable, Serialized, Deserialized;
    if es != [] {
      var front := es[..|es| - 1];
      var e := es[|es| - 1];
      UsableBatch(front, dim);
      UsableStored(e, dim);
      VectorRoundTrip(e.vector);
      assert RowsOf(es)[..|es| - 1] == RowsOf(front);
      assert VectorsOf(es) == VectorsOf(front) + [e.vector];
    }
  }

  /** A step from a loaded state gives the loaded state of the new table exactly
    when it is benign. */
  lemma SyncedStepIff(s: State, dim: nat, e: Event)
    requires dim > 0 && UniqueIds(s.rows) && Synced(s, dim) && Fresh(s, e)
    ensures Synced(Step(s, dim, e), dim) <==> Benign(s, dim, e)
  {
    hide Serialized, Deserialized, Lookup, Usable, UniqueIds, Fresh, UsableRows, Vectors, Replaced, Without, Dropped;
    match e {
      case Store(n) => SyncedStore(s, dim, n);
      case StoreFails(v) =>
      case StoreBatch(es) => SyncedBatch(s, dim, es);
      case Update(id, embedding, preloaded) =>
      case Delete(id) =>
        DroppedIs(s.ids, id);
        if id !in s.ids {
          WithoutUnlisted(s.rows, id, dim);
        }
      case Rebuild(preloaded) =>
    }
  }

  lemma {:induction false} WithoutUnlisted(rows: seq<Row>, id: string, dim: nat)
    requires id !in Ids(UsableRows(rows, dim))
    ensures UsableRows(Without(rows, id), dim) == UsableRows(rows, dim)
  {
    hide Usable;
    if rows != [] {
      var front := rows[..|rows| - 1];
      var last := rows[|rows| - 1];
      var usable := UsableRows(front, dim);
      assert (usable + [last])[..|usable|] == usable;
      WithoutUnlisted(front, id, dim);
      assert (Without(front, id) + [last])[..|Without(front, id)|] == Without(front, id);
    }
  }

  lemma SyncedStore(s: State, dim: nat, e: Entry)
    requires dim > 0 && Synced(s, dim)
    ensures Synced(Step(s, dim, Store(e)), dim)
  {
    hide Serialized, Deserialized, Usable, UsableRows;
    UsableStored(e, dim);
    VectorRoundTrip(e.vector);
    var rows := s.rows + [RowOf(e)];
    assert rows[..|s.rows|] == s.rows && rows[..|rows|] == rows;
    OneMore(rows, |s.rows|, dim);
    assert forall vs: seq<Vector> :: [] + vs == vs;
  }

  lemma SyncedBatch(s: State, dim: nat, es: seq<Entry>)
    requires dim > 0 && Synced(s, dim)
    ensures Synced(Step(s, dim, StoreBatch(es)), dim) <==> Benign(s, dim, StoreBatch(es))
  {
    hide Serialized, Deserialized, Lookup, Usable;
    UsableBatch(es, dim);
    UsableConcat(s.rows, RowsOf(es), dim);
    LoadedConcat(UsableRows(s.rows, dim), UsableRows(RowsOf(es), dim), []);
  }

  // -------------------------------------------------------------------- searches

  /** The vectors that the labels stand for. */
  function Matched(index: seq<Vector>, hits: seq<Hit>): seq<Vector> {
    if hits == [] then []
    else
      var front := Matched(index, hits[..|hits| - 1]);
      var hit := hits[|hits| - 1];
      if 0 <= hit.at < |index| && hit.passes then front + [index[hit.at]] else front
  }

  /** A search returns the rows of exactly the vectors that matched. */
  lemma {:induction false} SearchIsRight(s: State, hits: seq<Hit>)
    requires Aligned(s)
    ensures Vectors(Search(s, hits)) == Matched(s.index, hits)
    decreases |hits|
  {
    hide Deserialized, Lookup;
    if hits != [] {
      var front := hits[..|hits| - 1];
      var hit := hits[|hits| - 1];
      var rows := Search(s, front);
      SearchIsRight(s, front);
      if 0 <= hit.at < |s.ids| {
        assert Leads(s, hit.at);
        var row := Lookup(s.rows, s.ids[hit.at]).value;
        assert (rows + [row])[..|rows|] == rows;
      }
    }
  }

  /** After a refused row, the next row that is stored gets the label of the
    refused vector. */
  lemma RefusedVectorMisleads(s: State, dim: nat, v: Vector, e: Entry)
    requires Aligned(s) && |v| == dim && |e.vector| == dim && Lookup(s.rows, e.id).None?
    ensures var t := Step(Step(s, dim, StoreFails(v)), dim, Store(e));
      Leads(t, |s.ids|) <==> v == e.vector
  {
    hide Serialized, Deserialized, Lookup;
    VectorRoundTrip(e.vector);
    LookupAppend(s.rows, RowOf(e), e.id);
  }

  lemma {:induction false} DroppedAt(ids: seq<string>, k: nat)
    requires k < |ids| && forall i, j :: 0 <= i < j < |ids| ==> ids[i] != ids[j]
    ensures Dropped(ids, ids[k]) == ids[..k] + ids[k + 1..]
  {
    var front := ids[..|ids| - 1];
    var last := ids[|ids| - 1];
    if k == |ids| - 1 {
      DroppedIs(front, last);
      assert ids[k + 1..] == [];
      AppendNothing(front);
    } else {
      DroppedAt(front, k);
      assert ids[..k] + ids[k + 1..] == front[..k] + front[k + 1..] + [last];
    }
  }

  /** Deleting the row of label k moves every later label to the next row. */
  lemma DeleteShifts(s: State, dim: nat, k: nat, i: nat)
    requires Aligned(s) && k < |s.ids| && i < |s.ids| - 1
    requires forall i, j :: 0 <= i < j < |s.ids| ==> s.ids[i] != s.ids[j]
    ensures var t := Step(s, dim, Delete(s.ids[k]));
      |t.ids| == |s.ids| - 1 && |t.index| == |s.index| &&
      (Leads(t, i) <==> i < k || s.index[i] == s.index[i + 1])
  {
    hide Deserialized, Lookup;
    assert Leads(s, k) && Leads(s, i) && Leads(s, i + 1);
    DroppedAt(s.ids, k);
    var next := if i < k then i else i + 1;
    assert Dropped(s.ids, s.ids[k])[i] == s.ids[next];
    LookupWithout(s.rows, s.ids[k], s.ids[next]);
  }
}
