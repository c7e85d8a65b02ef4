/** Vectors as blobs. A vector is a list of 32-bit patterns. */
module VectorCodec {

  type Vector = seq<bv32>
  type Blob = seq<bv8>

  // --------------------------------------------------------------------- codec

  function ByteOf(w: bv32, k: nat): bv8
    requires k < 4
  {
    if k == 0 then (w & 0xFF) as bv8
    else if k == 1 then ((w >> 8) & 0xFF) as bv8
    else if k == 2 then ((w >> 16) & 0xFF) as bv8
    else ((w >> 24) & 0xFF) as bv8
  }

  function WordOf(a: bv8, b: bv8, c: bv8, d: bv8): bv32 {
    (a as bv32) | ((b as bv32) << 8) | ((c as bv32) << 16) | ((d as bv32) << 24)
  }

  function Serialized(v: Vector): Blob {
    seq(|v| * 4, (j: nat) requires j < |v| * 4 => ByteOf(v[j / 4], j % 4))
  }

  function WordAt(b: Blob, i: nat): bv32
    requires i * 4 + 3 < |b|
  {
    WordOf(b[i * 4], b[i * 4 + 1], b[i * 4 + 2], b[i * 4 + 3])
  }

  /** A blob of the wrong length has no vector, which is read as the empty one. */
  function Deserialized(b: Blob): Vector {
    if |b| % 4 != 0 then []
    else seq(|b| / 4, (i: nat) requires i < |b| / 4 => WordAt(b, i))
  }

  method SerializeVector(v: Vector) returns (buf: array<bv8>)
    ensures fresh(buf) && buf[..] == Serialized(v)
  {
    buf := new bv8[|v| * 4];
    for i := 0 to |v|
      invariant forall j :: 0 <= j < i * 4 ==> buf[j] == ByteOf(v[j / 4], j % 4)
    {
      hide ByteOf;
      buf[i * 4] := ByteOf(v[i], 0);
      buf[i * 4 + 1] := ByteOf(v[i], 1);
      buf[i * 4 + 2] := ByteOf(v[i], 2);
      buf[i * 4 + 3] := ByteOf(v[i], 3);
    }
  }

  method DeserializeVector(b: array<bv8>) returns (v: array<bv32>)
    ensures fresh(v) && v[..] == Deserialized(b[..])
  {
    if b.Length % 4 != 0 {
      return new bv32[0];
    }
    v := new bv32[b.Length / 4];
    for i := 0 to v.Length
      invariant forall k: nat :: k < i ==> v[k] == WordAt(b[..], k)
    {
      hide WordOf;
      v[i] := WordOf(b[i * 4], b[i * 4 + 1], b[i * 4 + 2], b[i * 4 + 3]);
    }
  }

  lemma WordOfBytes(w: bv32)
    ensures WordOf(ByteOf(w, 0), ByteOf(w, 1), ByteOf(w, 2), ByteOf(w, 3)) == w
  {}

  lemma BytesOfWord(a: bv8, b: bv8, c: bv8, d: bv8)
    ensures var w := WordOf(a, b, c, d);
      ByteOf(w, 0) == a && ByteOf(w, 1) == b && ByteOf(w, 2) == c && ByteOf(w, 3) == d
  {}

  lemma WordAtIsKept(v: Vector, i: nat)
    requires i < |v|
    ensures WordAt(Serialized(v), i) == v[i]
  {
    WordOfBytes(v[i]);
    hide WordOf, ByteOf;
    var b := Serialized(v);
    assert b[i * 4] == ByteOf(v[i], 0) && b[i * 4 + 1] == ByteOf(v[i], 1);
    assert b[i * 4 + 2] == ByteOf(v[i], 2) && b[i * 4 + 3] == ByteOf(v[i], 3);
  }

  lemma ByteIsKept(b: Blob, j: nat)
    requires |b| % 4 == 0 && j < |b|
    ensures ByteOf(WordAt(b, j / 4), j % 4) == b[j]
  {
    var i := j / 4;
    BytesOfWord(b[i * 4], b[i * 4 + 1], b[i * 4 + 2], b[i * 4 + 3]);
    hide WordOf, ByteOf;
    assert j == i * 4 + j % 4;
  }

  /** Reading what was written gives the vector back. */
  lemma VectorRoundTrip(v: Vector)
    ensures Deserialized(Serialized(v)) == v
  {
    hide WordAt;
    forall i: nat | i < |v| ensures Deserialized(Serialized(v))[i] == v[i] {
      WordAtIsKept(v, i);
    }
  }

  /** Writing what was read gives the blob back, unless it had no vector. */
  lemma BlobRoundTripIff(b: Blob)
    ensures Serialized(Deserialized(b)) == b <==> |b| % 4 == 0
  {
    hide WordAt, ByteOf;
    if |b| % 4 == 0 {
      var s := Serialized(Deserialized(b));
      forall j: nat | j < |b| ensures s[j] == b[j] {
        ByteIsKept(b, j);
      }
    }
  }
}
