/** Prefix-compressed blocks with restart points: the builder and the iterator over what it wrote. */
module Blocks {
  import opened Words
  import opened Coding
  import opened Wrappers

  type Key = seq<Byte>

  datatype KV = KV(key: Key, value: seq<Byte>)

  predicate Fits(e: KV) { |e.key| < 0x1_0000_0000 && |e.value| < 0x1_0000_0000 }

  /** shared, non-shared and value lengths, the key delta, the value. */
  function EntryBytes(e: KV, shared: nat): (r: seq<Byte>)
    requires shared <= |e.key|
    ensures |r| >= 3
  {
    Varint(shared) + Varint(|e.key| - shared) + Varint(|e.value|) + e.key[shared..] + e.value
  }

  datatype Header = Header(shared: nat, nonShared: nat, valueLength: nat, delta: nat)

  /** DecodeEntry, with its one-byte fast path. */
  function DecodeEntry(data: seq<Byte>, p: nat, limit: nat): (r: Option<Header>)
    requires limit <= |data|
    ensures r.Some? ==> p < r.value.delta && r.value.delta + r.value.nonShared + r.value.valueLength <= limit
  {
    if limit < p + 3 then None
    else
      var h :=
        if data[p] < 128 && data[p + 1] < 128 && data[p + 2] < 128
        then Some(Header(data[p], data[p + 1], data[p + 2], p + 3))
        else DecodeLengths(data, p, limit);
      if h.None? || limit - h.value.delta < h.value.nonShared + h.value.valueLength then None else h
  }

  function DecodeLengths(data: seq<Byte>, p: nat, limit: nat): (r: Option<Header>)
    requires limit <= |data|
    ensures r.Some? ==> p < r.value.delta <= limit
  {
    var a := GetVarint32(data, p, limit);
    if a.None? then None
    else
      var b := GetVarint32(data, a.value.1, limit);
      if b.None? then None
      else
        var c := GetVarint32(data, b.value.1, limit);
        if c.None? then None else Some(Header(a.value.0, b.value.0, c.value.0, c.value.1))
  }

  /** The three lengths, the key delta and the value of an entry, at offsets q, r, s and t. */
  ghost predicate PartsAt(data: seq<Byte>, p: nat, e: KV, shared: nat, q: nat, r: nat, s: nat, t: nat)
    requires shared <= |e.key|
  {
    && q == p + |Varint(shared)| && r == q + |Varint(|e.key| - shared)| && s == r + |Varint(|e.value|)|
    && t == s + |e.key| - shared
    && At(data, p, Varint(shared)) && At(data, q, Varint(|e.key| - shared)) && At(data, r, Varint(|e.value|))
    && At(data, s, e.key[shared..]) && At(data, t, e.value)
  }

  lemma EntryParts(data: seq<Byte>, p: nat, e: KV, shared: nat) returns (q: nat, r: nat, s: nat, t: nat)
    requires shared <= |e.key| && At(data, p, EntryBytes(e, shared))
    ensures PartsAt(data, p, e, shared, q, r, s, t) && t + |e.value| == p + |EntryBytes(e, shared)|
  {
    var a, b, c, d := Varint(shared), Varint(|e.key| - shared), Varint(|e.value|), e.key[shared..];
    q, r, s := p + |a|, p + |a| + |b|, p + |a| + |b| + |c|;
    t := s + |d|;
    hide At;
    AtConcat(data, p, a + b + c + d, e.value);
    AtConcat(data, p, a + b + c, d);
    AtConcat(data, p, a + b, c);
    AtConcat(data, p, a, b);
  }

  lemma LengthsAt(data: seq<Byte>, p: nat, limit: nat, e: KV, shared: nat, q: nat, r: nat, s: nat, t: nat)
    requires shared <= |e.key| && Fits(e) && PartsAt(data, p, e, shared, q, r, s, t) && s <= limit <= |data|
    ensures DecodeLengths(data, p, limit) == Some(Header(shared, |e.key| - shared, |e.value|, s))
  {
    hide At, GetVarint32;
    GetVarint32At(data, p, limit, shared);
    GetVarint32At(data, q, limit, |e.key| - shared);
    GetVarint32At(data, r, limit, |e.value|);
  }

  /** When the first three bytes are all small, each is a whole length: the fast path reads the same numbers. */
  lemma FastPath(data: seq<Byte>, p: nat, e: KV, shared: nat, q: nat, r: nat, s: nat, t: nat)
    requires shared <= |e.key| && PartsAt(data, p, e, shared, q, r, s, t)
    requires p + 2 < |data| && data[p] < 128 && data[p + 1] < 128 && data[p + 2] < 128
    ensures data[p] == shared && data[p + 1] == |e.key| - shared && data[p + 2] == |e.value| && s == p + 3
  {
    FirstByte(data, p, shared);
    FirstByte(data, p + 1, |e.key| - shared);
    FirstByte(data, p + 2, |e.value|);
  }

  /** Decoding an entry where it was written gives its lengths, key delta and value back. */
  lemma DecodeAt(data: seq<Byte>, p: nat, limit: nat, e: KV, shared: nat)
    requires shared <= |e.key| && Fits(e) && At(data, p, EntryBytes(e, shared))
    requires p + |EntryBytes(e, shared)| <= limit <= |data|
    ensures DecodeEntry(data, p, limit).Some?
    ensures var h := DecodeEntry(data, p, limit).value;
            && h.shared == shared && h.nonShared == |e.key| - shared && h.valueLength == |e.value|
            && At(data, h.delta, e.key[shared..]) && At(data, h.delta + h.nonShared, e.value)
            && h.delta + h.nonShared + h.valueLength == p + |EntryBytes(e, shared)|
  {
    var q, r, s, t := EntryParts(data, p, e, shared);
    LengthsAt(data, p, limit, e, shared, q, r, s, t);
    if data[p] < 128 && data[p + 1] < 128 && data[p + 2] < 128 { FastPath(data, p, e, shared, q, r, s, t); }
    hide At, DecodeLengths;
  }

  lemma FirstByte(data: seq<Byte>, p: nat, v: nat)
    requires At(data, p, Varint(v))
    ensures if v < 128 then data[p] == v && |Varint(v)| == 1 else data[p] >= 128
  {
    assert data[p + 0] == Varint(v)[0];
  }

  // ---- the layout of a block -------------------------------------------------------------------

  /** Entries, their offsets (one past the end included), their shared lengths, and the restart entries. */
  datatype Shape = Shape(es: seq<KV>, offs: seq<nat>, sh: seq<nat>, rs: seq<nat>)

  predicate Sized(z: Shape) { |z.offs| == |z.es| + 1 && |z.sh| == |z.es| && |z.rs| >= 1 }

  /** The shared part really is shared with the previous key. */
  predicate Shares(z: Shape, i: nat)
    requires Sized(z) && i < |z.es|
  {
    && z.sh[i] <= |z.es[i].key|
    && (z.sh[i] > 0 ==> i > 0 && z.sh[i] <= |z.es[i - 1].key| && z.es[i - 1].key[..z.sh[i]] == z.es[i].key[..z.sh[i]])
  }

  predicate EntryOk(data: seq<Byte>, z: Shape, i: nat)
    requires Sized(z) && i < |z.es|
  {
    && Fits(z.es[i]) && Shares(z, i)
    && At(data, z.offs[i], EntryBytes(z.es[i], z.sh[i]))
    && z.offs[i + 1] == z.offs[i] + |EntryBytes(z.es[i], z.sh[i])|
  }

  predicate RestartOk(z: Shape, k: nat)
    requires Sized(z) && k < |z.rs|
  {
    && (if k == 0 then z.rs[k] == 0 else z.rs[k - 1] < z.rs[k] < |z.es|)
    && (z.rs[k] < |z.es| ==> z.sh[z.rs[k]] == 0)
  }

  ghost predicate LaidOut(data: seq<Byte>, z: Shape) {
    && Sized(z) && z.offs[0] == 0
    && (forall i: nat :: i < |z.es| ==> EntryOk(data, z, i))
    && (forall k: nat :: k < |z.rs| ==> RestartOk(z, k))
  }

  /** The offset of restart point `k`. */
  function RestartOffset(z: Shape, k: nat): nat
    requires Sized(z) && k < |z.rs|
  {
    if z.rs[k] <= |z.es| then z.offs[z.rs[k]] else 0
  }

  lemma {:induction false} OffsetsIncrease(data: seq<Byte>, z: Shape, i: nat, j: nat)
    requires LaidOut(data, z) && i <= j <= |z.es|
    ensures z.offs[i] + 3 * (j - i) <= z.offs[j]
    decreases j - i
  {
    if i < j {
      OffsetsIncrease(data, z, i, j - 1);
      assert EntryOk(data, z, j - 1);
    }
  }

  lemma {:induction false} RestartsIncrease(data: seq<Byte>, z: Shape, j: nat, k: nat)
    requires LaidOut(data, z) && j <= k < |z.rs|
    ensures z.rs[j] <= z.rs[k] && (j < k ==> z.rs[j] < z.rs[k] < |z.es|)
    decreases k - j
  {
    if j < k {
      RestartsIncrease(data, z, j, k - 1);
      assert RestartOk(z, k);
    }
  }

  /** A finished block: the entries, then the restart offsets, then their number. */
  ghost predicate IsBlock(data: seq<Byte>, z: Shape) {
    && LaidOut(data, z)
    && var ro, n := z.offs[|z.es|], |z.rs|;
       && |data| == ro + 4 * n + 4 && ro < 0x1_0000_0000 && n < 0x1_0000_0000
       && (forall k: nat :: k < n ==> At(data, ro + 4 * k, Fixed32(RestartOffset(z, k))))
       && At(data, ro + 4 * n, Fixed32(n))
  }

  /** Exactly `n` bytes are common. */
  predicate SharesExactly(a: Key, b: Key, n: nat) {
    n <= |a| && n <= |b| && a[..n] == b[..n] && (n < |a| && n < |b| ==> a[n] != b[n])
  }

  /** Entry `i` shares nothing at a restart point, and all it can with the entry before it elsewhere. */
  predicate SharesMost(z: Shape, i: nat)
    requires Sized(z) && i < |z.es|
  {
    if i in z.rs then z.sh[i] == 0 else i > 0 && SharesExactly(z.es[i - 1].key, z.es[i].key, z.sh[i])
  }

  /** Restart points come every `interval` entries, from the first one on. */
  predicate Spaced(z: Shape, interval: nat)
    requires Sized(z)
  {
    && z.rs[0] == 0 && (forall k :: 0 < k < |z.rs| ==> z.rs[k] == z.rs[k - 1] + interval)
    && z.rs[|z.rs| - 1] <= |z.es| <= z.rs[|z.rs| - 1] + interval
    && (|z.es| > 0 ==> z.rs[|z.rs| - 1] < |z.es|)
  }

  /** The block is as small as prefix compression makes it. */
  ghost predicate Compressed(z: Shape, interval: nat)
    requires Sized(z)
  {
    Spaced(z, interval) && forall i: nat :: i < |z.es| ==> SharesMost(z, i)
  }

  // ---- BlockBuilder ----------------------------------------------------------------------------

  class BlockBuilder {
    const interval: nat
    var buffer: seq<Byte>
    var restarts: seq<nat>
    var counter: nat
    var lastKey: Key
    ghost var z: Shape

    constructor (interval: nat)
      requires interval >= 1
      ensures this.interval == interval && Valid() && z.es == [] && |buffer| == 0
    {
      this.interval := interval;
      buffer, restarts, counter, lastKey := [], [0], 0, [];
      z := Shape([], [0], [], [0]);
    }

    ghost predicate Valid()
      reads this
    {
      && interval >= 1 && counter <= interval
      && LaidOut(buffer, z) && z.offs[|z.es|] == |buffer|
      && |restarts| == |z.rs| && (forall k: nat :: k < |restarts| ==> restarts[k] == RestartOffset(z, k))
      && (if |z.es| == 0 then counter == 0 && lastKey == [] && |z.rs| == 1 else lastKey == z.es[|z.es| - 1].key)
      && Compressed(z, interval) && counter == |z.es| - z.rs[|z.rs| - 1]
    }

    method Add(key: Key, value: seq<Byte>)
      requires Valid() && Fits(KV(key, value))
      modifies this
      ensures Valid() && z.es == old(z.es) + [KV(key, value)]
      ensures |buffer| > |old(buffer)|
    {
      hide LaidOut, Compressed, RestartOffset, SharesExactly;
      IsSized(buffer, z);
      var shared := 0;
      ghost var rs, was := z.rs, restarts;
      if counter < interval {
        shared := SharedPrefix(lastKey, key);
      } else {
        restarts := restarts + [|buffer|];
        rs := rs + [|z.es|];
        counter := 0;
      }
      var e := KV(key, value);
      ghost var z' := Shape(z.es + [e], z.offs + [|buffer| + |EntryBytes(e, shared)|], z.sh + [shared], rs);
      AppendBoth(buffer, z, e, shared, rs, was, interval);
      buffer := buffer + EntryBytes(e, shared);
      lastKey := key;
      counter := counter + 1;
      z := z';
    }

    method Finish() returns (block: seq<Byte>)
      requires Valid() && |buffer| < 0x1_0000_0000 && |restarts| < 0x1_0000_0000
      ensures IsBlock(block, z) && Compressed(z, interval)
    {
      block := buffer;
      LaidOutMore(buffer, [], z);
      for i := 0 to |restarts|
        invariant |block| == |buffer| + 4 * i && LaidOut(block, z)
        invariant forall k: nat :: k < i ==> At(block, |buffer| + 4 * k, Fixed32(restarts[k]))
      {
        LaidOutMore(block, Fixed32(restarts[i]), z);
        AtEnd(block, Fixed32(restarts[i]));
        block := block + Fixed32(restarts[i]);
      }
      LaidOutMore(block, Fixed32(|restarts|), z);
      AtEnd(block, Fixed32(|restarts|));
      block := block + Fixed32(|restarts|);
    }
  }

  /** One more entry, sharing all it can with the one before it, or nothing at a new restart point. */
  lemma AppendBoth(data: seq<Byte>, z: Shape, e: KV, shared: nat, rs: seq<nat>, restarts: seq<nat>, interval: nat)
    requires LaidOut(data, z) && z.offs[|z.es|] == |data| && Fits(e) && shared <= |e.key|
    requires |restarts| == |z.rs| && (forall k: nat :: k < |restarts| ==> restarts[k] == RestartOffset(z, k))
    requires Compressed(z, interval) && interval >= 1 && (|z.es| == 0 ==> |z.rs| == 1)
    requires var n := |z.es|;
             if n - z.rs[|z.rs| - 1] < interval then
               rs == z.rs && SharesExactly(if n == 0 then [] else z.es[n - 1].key, e.key, shared)
             else rs == z.rs + [n] && shared == 0
    ensures var z' := Shape(z.es + [e], z.offs + [|data| + |EntryBytes(e, shared)|], z.sh + [shared], rs);
            var restarts' := if rs == z.rs then restarts else restarts + [|data|];
            && LaidOut(data + EntryBytes(e, shared), z') && Compressed(z', interval)
            && |restarts'| == |rs| && (forall k: nat :: k < |rs| ==> restarts'[k] == RestartOffset(z', k))
  {
    AppendEntry(data, z, e, shared, rs);
    AppendCompressed(z, e, shared, rs, interval,
                     Shape(z.es + [e], z.offs + [|data| + |EntryBytes(e, shared)|], z.sh + [shared], rs));
  }

  lemma IsSized(data: seq<Byte>, z: Shape)
    requires LaidOut(data, z)
    ensures Sized(z)
  {
  }

  lemma LaidOutMore(data: seq<Byte>, more: seq<Byte>, z: Shape)
    requires LaidOut(data, z)
    ensures LaidOut(data + more, z)
  {
    forall i: nat | i < |z.es| ensures EntryOk(data + more, z, i) {
      assert EntryOk(data, z, i);
    }
  }

  method SharedPrefix(a: Key, b: Key) returns (shared: nat)
    ensures SharesExactly(a, b, shared)
  {
    var minLength := if |a| < |b| then |a| else |b|;
    shared := 0;
    while shared < minLength && a[shared] == b[shared]
      invariant shared <= minLength && a[..shared] == b[..shared]
    {
      shared := shared + 1;
    }
  }

  /** Appending one entry that shares all it may keeps the compression. */
  lemma AppendCompressed(z: Shape, e: KV, shared: nat, rs: seq<nat>, interval: nat, z': Shape)
    requires Sized(z) && Sized(z') && Compressed(z, interval) && interval >= 1
    requires z'.es == z.es + [e] && z'.sh == z.sh + [shared] && z'.rs == rs
    requires var n := |z.es|;
             if n - z.rs[|z.rs| - 1] < interval then
               rs == z.rs && if n == 0 then shared == 0 else SharesExactly(z.es[n - 1].key, e.key, shared)
             else rs == z.rs + [n] && shared == 0
    ensures Compressed(z', interval)
  {
    var n := |z.es|;
    RestartsBelow(z, interval);
    forall i: nat | i < n + 1 ensures SharesMost(z', i) {
      if i < n {
        assert SharesMost(z, i);
        assert i in z'.rs <==> i in z.rs;
      } else {
        assert z'.rs[|z'.rs| - 1] in z'.rs && z'.rs[0] in z'.rs;
      }
    }
  }

  /** Restart points ascend and lie before the end, or the block is empty. */
  lemma RestartsBelow(z: Shape, interval: nat)
    requires Sized(z) && Spaced(z, interval) && interval >= 1
    ensures forall r :: r in z.rs ==> r < |z.es| || (|z.es| == 0 && r == 0)
  {
    forall k | 0 <= k < |z.rs| ensures z.rs[k] <= z.rs[|z.rs| - 1] { RestartsUpTo(z, interval, k, |z.rs| - 1); }
  }

  lemma {:induction false} RestartsUpTo(z: Shape, interval: nat, j: nat, k: nat)
    requires Sized(z) && Spaced(z, interval) && j <= k < |z.rs|
    ensures z.rs[j] <= z.rs[k]
    decreases k
  {
    if j < k { RestartsUpTo(z, interval, j, k - 1); }
  }

  /** Appending one entry, with or without a new restart point, keeps the layout. */
  lemma AppendEntry(data: seq<Byte>, z: Shape, e: KV, shared: nat, rs: seq<nat>)
    requires LaidOut(data, z) && z.offs[|z.es|] == |data| && Fits(e) && shared <= |e.key|
    requires shared > 0 ==>
               |z.es| > 0 && shared <= |z.es[|z.es| - 1].key| && z.es[|z.es| - 1].key[..shared] == e.key[..shared]
    requires rs == z.rs || (rs == z.rs + [|z.es|] && |z.es| > 0 && shared == 0)
    requires |z.es| == 0 ==> |z.rs| == 1 && shared == 0
    ensures var z' := Shape(z.es + [e], z.offs + [|data| + |EntryBytes(e, shared)|], z.sh + [shared], rs);
            && LaidOut(data + EntryBytes(e, shared), z')
            && (forall k: nat :: k < |rs| ==>
                 RestartOffset(z', k) == if k < |z.rs| then RestartOffset(z, k) else |data|)
  {
    var z' := Shape(z.es + [e], z.offs + [|data| + |EntryBytes(e, shared)|], z.sh + [shared], rs);
    forall i: nat | i < |z.es| + 1 ensures EntryOk(data + EntryBytes(e, shared), z', i) {
      if i < |z.es| {
        EarlierEntry(data, z, e, shared, rs, i);
      } else {
        AtEnd(data, EntryBytes(e, shared));
      }
    }
    hide EntryOk, EntryBytes;
    forall k: nat | k < |rs|
      ensures RestartOk(z', k) && RestartOffset(z', k) == if k < |z.rs| then RestartOffset(z, k) else |data|
    {
      if k < |z.rs| {
        assert RestartOk(z, k);
      } else {
        assert RestartOk(z, k - 1);
      }
    }
  }

  lemma EarlierEntry(data: seq<Byte>, z: Shape, e: KV, shared: nat, rs: seq<nat>, i: nat)
    requires LaidOut(data, z) && i < |z.es| && shared <= |e.key| && |rs| > 0
    ensures var bytes := EntryBytes(e, shared);
            EntryOk(data + bytes, Shape(z.es + [e], z.offs + [|data| + |bytes|], z.sh + [shared], rs), i)
  {
    assert EntryOk(data, z, i);
  }
}
