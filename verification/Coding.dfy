/** Variable-length and fixed-width integers (util/coding). */
module Coding {
  import opened Words
  import opened Wrappers

  lemma Assoc<T>(a: seq<T>, b: seq<T>, c: seq<T>)
    ensures a + b + c == a + (b + c)
  {
  }

  /** `bytes` sits in `data` at offset `p`. */
  predicate At(data: seq<Byte>, p: nat, bytes: seq<Byte>) {
    p + |bytes| <= |data| && forall i :: 0 <= i < |bytes| ==> data[p + i] == bytes[i]
  }

  lemma AtConcat(data: seq<Byte>, p: nat, a: seq<Byte>, b: seq<Byte>)
    ensures At(data, p, a + b) <==> At(data, p, a) && At(data, p + |a|, b)
  {
    if At(data, p, a + b) {
      forall i | 0 <= i < |a| ensures data[p + i] == a[i] { assert (a + b)[i] == a[i]; }
      forall i | 0 <= i < |b| ensures data[p + |a| + i] == b[i] { assert (a + b)[|a| + i] == b[i]; }
    }
  }

  lemma AtPrefix(data: seq<Byte>, more: seq<Byte>, p: nat, bytes: seq<Byte>)
    requires At(data, p, bytes)
    ensures At(data + more, p, bytes)
  {
  }

  lemma AtEnd(data: seq<Byte>, bytes: seq<Byte>)
    ensures At(data + bytes, |data|, bytes)
  {
  }

  lemma AtSlice(data: seq<Byte>, p: nat, bytes: seq<Byte>)
    requires At(data, p, bytes)
    ensures data[p..p + |bytes|] == bytes
  {
  }

  /** Seven bits per byte, lowest first, the top bit marking continuation. */
  function Varint(v: nat): (r: seq<Byte>)
    ensures |r| >= 1 && (v < 128 <==> |r| == 1)
  {
    if v < 128 then [v] else [v % 128 + 128] + Varint(v / 128)
  }

  /** The value and the offset after it; None when the bytes run out or none of the first `n` ends the number. */
  function ReadVarint(data: seq<Byte>, p: nat, limit: nat, n: nat): (r: Option<(nat, nat)>)
    requires limit <= |data|
    ensures r.Some? ==> p < r.value.1 <= limit
    decreases n
  {
    if n == 0 || p >= limit then None
    else if data[p] < 128 then Some((data[p], p + 1))
    else
      match ReadVarint(data, p + 1, limit, n - 1)
      case None => None
      case Some((v, q)) => Some((data[p] - 128 + 128 * v, q))
  }

  function Pow128(n: nat): nat { if n == 0 then 1 else 128 * Pow128(n - 1) }

  /** Round trip, wherever the encoding sits. */
  lemma {:induction false} ReadVarintAt(data: seq<Byte>, p: nat, limit: nat, v: nat, n: nat)
    requires At(data, p, Varint(v)) && p + |Varint(v)| <= limit <= |data| && v < Pow128(n) && n >= 1
    ensures ReadVarint(data, p, limit, n) == Some((v, p + |Varint(v)|))
    decreases n
  {
    var b := Varint(v);
    assert data[p] == b[0];
    if v >= 128 {
      AtConcat(data, p, [v % 128 + 128], Varint(v / 128));
      ReadVarintAt(data, p + 1, limit, v / 128, n - 1);
    }
  }

  /** At most `n` bytes, truncated below `modulus`. */
  function GetVarint(data: seq<Byte>, p: nat, limit: nat, n: nat, modulus: nat): (r: Option<(nat, nat)>)
    requires limit <= |data| && modulus > 0
    ensures r.Some? ==> p < r.value.1 <= limit
  {
    match ReadVarint(data, p, limit, n)
    case None => None
    case Some((v, q)) => Some((if v < modulus then v else v % modulus, q))
  }

  lemma GetVarintAt(data: seq<Byte>, p: nat, limit: nat, v: nat, n: nat, modulus: nat)
    requires At(data, p, Varint(v)) && p + |Varint(v)| <= limit <= |data| && v < modulus <= Pow128(n) && n >= 1
    ensures GetVarint(data, p, limit, n, modulus) == Some((v, p + |Varint(v)|))
  {
    ReadVarintAt(data, p, limit, v, n);
  }

  /** GetVarint32Ptr. */
  function GetVarint32(data: seq<Byte>, p: nat, limit: nat): (r: Option<(nat, nat)>)
    requires limit <= |data|
    ensures r.Some? ==> p < r.value.1 <= limit
  {
    GetVarint(data, p, limit, 5, 0x1_0000_0000)
  }

  lemma GetVarint32At(data: seq<Byte>, p: nat, limit: nat, v: Word32)
    requires At(data, p, Varint(v)) && p + |Varint(v)| <= limit <= |data|
    ensures GetVarint32(data, p, limit) == Some((v, p + |Varint(v)|))
  {
    hide GetVarint, At;
    Pow128Values();
    GetVarintAt(data, p, limit, v, 5, 0x1_0000_0000);
  }

  /** GetVarint64Ptr. */
  function GetVarint64(data: seq<Byte>, p: nat, limit: nat): (r: Option<(nat, nat)>)
    requires limit <= |data|
    ensures r.Some? ==> p < r.value.1 <= limit
  {
    GetVarint(data, p, limit, 10, 0x1_0000_0000_0000_0000)
  }

  lemma GetVarint64At(data: seq<Byte>, p: nat, limit: nat, v: Word64)
    requires At(data, p, Varint(v)) && p + |Varint(v)| <= limit <= |data|
    ensures GetVarint64(data, p, limit) == Some((v, p + |Varint(v)|))
  {
    hide GetVarint, At;
    Pow128Values();
    GetVarintAt(data, p, limit, v, 10, 0x1_0000_0000_0000_0000);
  }

  lemma Pow128Values()
    ensures Pow128(5) == 0x8_0000_0000 && Pow128(10) == 0x40_0000_0000_0000_0000
  {
    assert Pow128(5) == 0x8_0000_0000;
  }

  /** EncodeVarint64's loop. */
  method EncodeVarint64(v0: Word64) returns (r: seq<Byte>)
    ensures r == Varint(v0)
  {
    var v: nat := v0;
    r := [];
    while v >= 128
      invariant r + Varint(v) == Varint(v0)
    {
      assert r + Varint(v) == (r + [v % 128 + 128]) + Varint(v / 128);
      r, v := r + [v % 128 + 128], v / 128;
    }
    r := r + [v];
  }

  // ---- fixed width -----------------------------------------------------------------------------

  function Fixed(v: nat, n: nat): (r: seq<Byte>)
    ensures |r| == n
  {
    if n == 0 then [] else [v % 256] + Fixed(v / 256, n - 1)
  }

  function ReadFixed(data: seq<Byte>, p: nat, n: nat): nat
    requires p + n <= |data|
    decreases n
  {
    if n == 0 then 0 else (data[p] as int) + 256 * ReadFixed(data, p + 1, n - 1)
  }

  function Pow256(n: nat): nat { if n == 0 then 1 else 256 * Pow256(n - 1) }

  lemma {:induction false} ReadFixedAt(data: seq<Byte>, p: nat, v: nat, n: nat)
    requires At(data, p, Fixed(v, n)) && v < Pow256(n)
    ensures ReadFixed(data, p, n) == v
    decreases n
  {
    if n > 0 {
      AtConcat(data, p, [v % 256], Fixed(v / 256, n - 1));
      assert data[p] == Fixed(v, n)[0];
      ReadFixedAt(data, p + 1, v / 256, n - 1);
    }
  }

  function Fixed32(v: nat): (r: seq<Byte>)
    ensures |r| == 4
  {
    Fixed(v, 4)
  }

  function DecodeFixed32(data: seq<Byte>, p: nat): Word32
    requires p + 4 <= |data|
  {
    ReadFixedBound(data, p, 4);
    ReadFixed(data, p, 4)
  }

  lemma {:induction false} ReadFixedBound(data: seq<Byte>, p: nat, n: nat)
    requires p + n <= |data|
    ensures ReadFixed(data, p, n) < Pow256(n) && Pow256(4) == 0x1_0000_0000
    decreases n
  {
    assert Pow256(2) == 0x1_0000;
    if n > 0 { ReadFixedBound(data, p + 1, n - 1); }
  }

  lemma Fixed32At(data: seq<Byte>, p: nat, v: Word32)
    requires At(data, p, Fixed32(v))
    ensures DecodeFixed32(data, p) == v
  {
    assert Pow256(4) == 0x1_0000_0000;
    ReadFixedAt(data, p, v, 4);
  }
}
