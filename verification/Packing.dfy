/** The bit-packed payload and the trailer shared by the Ribbon and Xor filter encodings. */
module Packing {
  import opened Words
  import opened Coding
  import opened Wrappers

  /** `n` bits per value, lowest first, in order. */
  function ValueBits(vs: seq<nat>, n: nat): seq<bool> {
    if |vs| == 0 then [] else ValueBits(vs[..|vs| - 1], n) + ToBits(vs[|vs| - 1], n)
  }

  function ByteBits(bs: seq<Byte>): seq<bool> { ValueBits(bs, 8) }

  /** Where value `i` starts, in bits. */
  function Offset(i: nat, n: nat): nat { if i == 0 then 0 else Offset(i - 1, n) + n }

  lemma {:induction false} OffsetIsProduct(i: nat, n: nat)
    ensures Offset(i, n) == i * n
  {
    if i > 0 {
      OffsetIsProduct(i - 1, n);
      assert i * n == (i - 1) * n + n;
    }
  }

  /** `field` sits in `bits` at position `at`. */
  predicate FieldAt(bits: seq<bool>, at: nat, field: seq<bool>) {
    at + |field| <= |bits| && forall b :: 0 <= b < |field| ==> bits[at + b] == field[b]
  }

  lemma FieldOfField(outer: seq<bool>, x: nat, mid: seq<bool>, y: nat, inner: seq<bool>)
    requires FieldAt(outer, x, mid) && FieldAt(mid, y, inner)
    ensures FieldAt(outer, x + y, inner)
  {
    forall b | 0 <= b < |inner| ensures outer[x + y + b] == inner[b] {
      assert mid[y + b] == inner[b];
    }
  }

  lemma FieldConcat(bits: seq<bool>, at: nat, f: seq<bool>, g: seq<bool>)
    requires FieldAt(bits, at, f) && FieldAt(bits, at + |f|, g)
    ensures FieldAt(bits, at, f + g)
  {
    forall b | 0 <= b < |f + g| ensures bits[at + b] == (f + g)[b] {
      if b >= |f| { assert bits[at + |f| + (b - |f|)] == g[b - |f|]; }
    }
  }

  lemma SameField(bits: seq<bool>, at: nat, f: seq<bool>, g: seq<bool>)
    requires FieldAt(bits, at, f) && FieldAt(bits, at, g) && |f| == |g|
    ensures f == g
  {
  }

  lemma {:induction false} ValueBitsLength(vs: seq<nat>, n: nat)
    ensures |ValueBits(vs, n)| == Offset(|vs|, n)
  {
    if |vs| > 0 { ValueBitsLength(vs[..|vs| - 1], n); }
  }

  lemma {:induction false} ValueBitsAt(vs: seq<nat>, n: nat, i: nat)
    requires i < |vs|
    ensures FieldAt(ValueBits(vs, n), Offset(i, n), ToBits(vs[i], n))
  {
    var front := vs[..|vs| - 1];
    ValueBitsLength(front, n);
    if i < |vs| - 1 {
      ValueBitsAt(front, n, i);
      FieldOfField(ValueBits(vs, n), 0, ValueBits(front, n), Offset(i, n), ToBits(vs[i], n));
    }
  }

  lemma ByteBitsPush(bs: seq<Byte>, b: Byte)
    ensures ByteBits(bs + [b]) == ByteBits(bs) + ToBits(b, 8)
  {
    assert (bs + [b])[..|bs|] == bs;
  }

  lemma ByteBitsLength(bs: seq<Byte>)
    ensures |ByteBits(bs)| == 8 * |bs|
  {
    ValueBitsLength(bs, 8);
    OffsetIsProduct(|bs|, 8);
  }

  /** PackedByteSize. */
  function PackedByteSize(count: nat, bits: nat): nat { (count * bits + 7) / 8 }

  /** AppendPackedValues. */
  method AppendPackedValues(values: seq<nat>, bits: nat) returns (dst: seq<Byte>)
    requires 1 <= bits <= 16
    ensures |dst| == PackedByteSize(|values|, bits)
    ensures FieldAt(ByteBits(dst), 0, ValueBits(values, bits))
  {
    dst := [];
    var pending: nat, pendingBits: nat := 0, 0;
    for i := 0 to |values|
      invariant 0 <= pendingBits < 8 && pending < Pow2(pendingBits)
      invariant ByteBits(dst) + ToBits(pending, pendingBits) == ValueBits(values[..i], bits)
    {
      dst, pending, pendingBits := AppendValue(dst, pending, pendingBits, values[i], bits);
      assert values[..i + 1][..i] == values[..i];
    }
    assert values[..|values|] == values;
    ValueBitsLength(values, bits);
    OffsetIsProduct(|values|, bits);
    ByteBitsLength(dst);
    if pendingBits > 0 {
      MaskByte(pending);
      ToBitsSplit(pending, pendingBits, 8 - pendingBits);
      ByteBitsPush(dst, Mask(pending, 8));
      dst := dst + [Mask(pending, 8)];
    }
  }

  /** One turn of the packing loop: or the value in above the pending bits, then emit whole bytes. */
  method AppendValue(dst: seq<Byte>, pending: nat, pendingBits: nat, value: nat, bits: nat)
    returns (dst': seq<Byte>, pending': nat, pendingBits': nat)
    requires pendingBits < 8 && pending < Pow2(pendingBits)
    ensures pendingBits' < 8 && pending' < Pow2(pendingBits')
    ensures ByteBits(dst') + ToBits(pending', pendingBits') ==
              ByteBits(dst) + ToBits(pending, pendingBits) + ToBits(value, bits)
  {
    hide ByteBits, Mask;
    ghost var all := ByteBits(dst) + ToBits(pending, pendingBits) + ToBits(value, bits);
    OrInValue(pending, pendingBits, value, bits);
    Assoc(ByteBits(dst), ToBits(pending, pendingBits), ToBits(value, bits));
    dst', pending', pendingBits' := dst, Or(pending, Shl(Mask(value, bits), pendingBits)), pendingBits + bits;
    while pendingBits' >= 8
      invariant pending' < Pow2(pendingBits')
      invariant ByteBits(dst') + ToBits(pending', pendingBits') == all
    {
      EmitByte(dst', pending', pendingBits');
      dst', pending', pendingBits' := dst' + [Mask(pending', 8)], Shr(pending', 8), pendingBits' - 8;
    }
  }

  lemma OrInValue(pending: nat, pendingBits: nat, value: nat, bits: nat)
    requires pending < Pow2(pendingBits)
    ensures Or(pending, Shl(Mask(value, bits), pendingBits)) < Pow2(pendingBits + bits)
    ensures ToBits(Or(pending, Shl(Mask(value, bits), pendingBits)), pendingBits + bits) ==
              ToBits(pending, pendingBits) + ToBits(value, bits)
  {
    MaskIsLow(value, bits);
    ToBitsLow(value, bits);
    OrShlBits(pending, pendingBits, Mask(value, bits), bits);
    ShlBound(Mask(value, bits), bits, pendingBits);
    Pow2Mono(pendingBits, bits + pendingBits);
    OrBound(pending, Shl(Mask(value, bits), pendingBits), bits + pendingBits);
  }

  lemma MaskByte(w: nat)
    ensures Mask(w, 8) < 256 && ToBits(Mask(w, 8), 8) == ToBits(w, 8)
  {
    MaskIsLow(w, 8);
    assert Pow2(8) == 256;
    ToBitsLow(w, 8);
  }

  lemma SplitLow(p: nat, total: nat, n: nat)
    requires n <= total && p < Pow2(total)
    ensures Mask(p, n) < Pow2(n) && Shr(p, n) < Pow2(total - n)
    ensures ToBits(Mask(p, n), n) + ToBits(Shr(p, n), total - n) == ToBits(p, total)
  {
    MaskIsLow(p, n);
    ToBitsLow(p, n);
    ToBitsSplit(p, n, total - n);
    assert n + (total - n) == total;
    ShrBound(p, n, total - n);
  }

  lemma EmitByte(dst: seq<Byte>, pending: nat, pendingBits: nat)
    requires pendingBits >= 8 && pending < Pow2(pendingBits)
    ensures Mask(pending, 8) < 256 && Shr(pending, 8) < Pow2(pendingBits - 8)
    ensures ByteBits(dst + [Mask(pending, 8)]) + ToBits(Shr(pending, 8), pendingBits - 8) ==
              ByteBits(dst) + ToBits(pending, pendingBits)
  {
    MaskByte(pending);
    hide ByteBits, Mask;
    SplitLow(pending, pendingBits, 8);
    ByteBitsPush(dst, Mask(pending, 8));
    Assoc(ByteBits(dst), ToBits(Mask(pending, 8), 8), ToBits(Shr(pending, 8), pendingBits - 8));
  }

  /** ReadPackedValue: None when the value would run past the payload. */
  method ReadPackedValue(payload: seq<Byte>, index: nat, bits: nat) returns (r: Option<nat>)
    requires 1 <= bits <= 16
    ensures r.None? <==> Offset(index, bits) + bits > 8 * |payload|
    ensures r.Some? ==> r.value < Pow2(bits) && FieldAt(ByteBits(payload), Offset(index, bits), ToBits(r.value, bits))
  {
    OffsetIsProduct(index, bits);
    var bitOffset := index * bits;
    var byteOffset, shift := bitOffset / 8, bitOffset % 8;
    var bytesNeeded := (shift + bits + 7) / 8;
    if byteOffset + bytesNeeded > |payload| {
      return None;
    }
    var word := LoadWord(payload, byteOffset, bytesNeeded);
    ReadBits(payload, byteOffset, bytesNeeded, word, shift, bits);
    r := Some(Mask(Shr(word, shift), bits));
  }

  /** The little-endian bytes that hold one packed value. */
  method LoadWord(payload: seq<Byte>, byteOffset: nat, bytesNeeded: nat) returns (word: nat)
    requires byteOffset + bytesNeeded <= |payload|
    ensures FieldAt(ByteBits(payload), 8 * byteOffset, ToBits(word, 8 * bytesNeeded))
  {
    word := 0;
    ByteBitsLength(payload);
    for i := 0 to bytesNeeded
      invariant word < Pow2(8 * i)
      invariant FieldAt(ByteBits(payload), 8 * byteOffset, ToBits(word, 8 * i))
    {
      OrInByte(payload, byteOffset, i, word);
      word := Or(word, Shl(payload[byteOffset + i], 8 * i));
    }
  }

  lemma OrInByte(payload: seq<Byte>, byteOffset: nat, i: nat, word: nat)
    requires byteOffset + i < |payload|
    requires word < Pow2(8 * i) && FieldAt(ByteBits(payload), 8 * byteOffset, ToBits(word, 8 * i))
    ensures Or(word, Shl(payload[byteOffset + i], 8 * i)) < Pow2(8 * (i + 1))
    ensures FieldAt(ByteBits(payload), 8 * byteOffset,
                    ToBits(Or(word, Shl(payload[byteOffset + i], 8 * i)), 8 * (i + 1)))
  {
    hide FieldAt, ByteBits;
    var b := payload[byteOffset + i];
    OrShlBits(word, 8 * i, b, 8);
    ByteField(payload, byteOffset + i);
    FieldConcat(ByteBits(payload), 8 * byteOffset, ToBits(word, 8 * i), ToBits(b, 8));
    OrByteBound(word, i, b);
  }

  lemma OrByteBound(word: nat, i: nat, b: Byte)
    requires word < Pow2(8 * i)
    ensures Or(word, Shl(b, 8 * i)) < Pow2(8 * (i + 1))
  {
    assert Pow2(8) == 256;
    ShlBound(b, 8, 8 * i);
    Pow2Mono(8 * i, 8 + 8 * i);
    OrBound(word, Shl(b, 8 * i), 8 + 8 * i);
  }

  lemma ByteField(bs: seq<Byte>, i: nat)
    requires i < |bs|
    ensures FieldAt(ByteBits(bs), 8 * i, ToBits(bs[i], 8))
  {
    hide FieldAt;
    ValueBitsAt(bs, 8, i);
    OffsetIsProduct(i, 8);
  }

  lemma MaskedField(word: nat, shift: nat, bits: nat, n: nat)
    requires shift + bits <= n
    ensures Mask(Shr(word, shift), bits) < Pow2(bits)
    ensures FieldAt(ToBits(word, n), shift, ToBits(Mask(Shr(word, shift), bits), bits))
  {
    var w, tail := Shr(word, shift), n - shift - bits;
    MaskIsLow(w, bits);
    ToBitsLow(w, bits);
    ToBitsSplit(word, shift, bits + tail);
    ToBitsSplit(w, bits, tail);
    assert shift + (bits + tail) == n;
  }

  lemma ReadBits(payload: seq<Byte>, byteOffset: nat, bytesNeeded: nat, word: nat, shift: nat, bits: nat)
    requires shift + bits <= 8 * bytesNeeded
    requires FieldAt(ByteBits(payload), 8 * byteOffset, ToBits(word, 8 * bytesNeeded))
    ensures Mask(Shr(word, shift), bits) < Pow2(bits)
    ensures FieldAt(ByteBits(payload), 8 * byteOffset + shift, ToBits(Mask(Shr(word, shift), bits), bits))
  {
    hide FieldAt;
    MaskedField(word, shift, bits, 8 * bytesNeeded);
    FieldOfField(ByteBits(payload), 8 * byteOffset, ToBits(word, 8 * bytesNeeded), shift,
                 ToBits(Mask(Shr(word, shift), bits), bits));
  }

  /** Round trip: reading slot `i` of a packed payload gives back value `i`. */
  lemma PackedRoundTrip(values: seq<nat>, bits: nat, payload: seq<Byte>, i: nat, r: nat)
    requires i < |values| && values[i] < Pow2(bits) && r < Pow2(bits)
    requires FieldAt(ByteBits(payload), 0, ValueBits(values, bits))
    ensures Offset(i, bits) + bits <= 8 * |payload|
    ensures FieldAt(ByteBits(payload), Offset(i, bits), ToBits(r, bits)) ==> r == values[i]
  {
    PackedAt(values, bits, payload, i);
    hide FieldAt;
    if FieldAt(ByteBits(payload), Offset(i, bits), ToBits(r, bits)) {
      SameField(ByteBits(payload), Offset(i, bits), ToBits(r, bits), ToBits(values[i], bits));
      FromToBits(r, bits);
      FromToBits(values[i], bits);
      LowSmall(r, bits);
      LowSmall(values[i], bits);
    }
  }

  /** Value `i` sits at its offset, inside the payload. */
  lemma PackedAt(values: seq<nat>, bits: nat, payload: seq<Byte>, i: nat)
    requires i < |values| && FieldAt(ByteBits(payload), 0, ValueBits(values, bits))
    ensures Offset(i, bits) + bits <= 8 * |payload|
    ensures FieldAt(ByteBits(payload), Offset(i, bits), ToBits(values[i], bits))
  {
    hide ValueBits, ToBits;
    ValueBitsAt(values, bits, i);
    FieldOfField(ByteBits(payload), 0, ValueBits(values, bits), Offset(i, bits), ToBits(values[i], bits));
    ByteBitsLength(payload);
  }

  // ---- the values of a packed payload --------------------------------------------------------

  /** The value of `n` bits starting at `at`. */
  function FieldValue(bits: seq<bool>, at: nat, n: nat): nat
    requires at + n <= |bits|
    decreases n
  {
    if n == 0 then 0 else B2N(bits[at]) + 2 * FieldValue(bits, at + 1, n - 1)
  }

  lemma {:induction false} FieldValueIs(bits: seq<bool>, at: nat, n: nat, r: nat)
    requires FieldAt(bits, at, ToBits(r, n)) && r < Pow2(n)
    ensures FieldValue(bits, at, n) == r
    decreases n
  {
    if n > 0 {
      var all, tail := ToBits(r, n), ToBits(r / 2, n - 1);
      assert all[0] == bits[at];
      forall b | 0 <= b < |tail| ensures bits[at + 1 + b] == tail[b] {
        assert all[b + 1] == tail[b];
      }
      FieldValueIs(bits, at + 1, n - 1, r / 2);
    }
  }

  lemma {:induction false} OffsetMono(i: nat, j: nat, n: nat)
    requires i <= j
    ensures Offset(i, n) <= Offset(j, n)
  {
    if i < j { OffsetMono(i, j - 1, n); }
  }

  /** Slot `i` lies wholly inside a payload of the packed size. */
  lemma SlotInside(payload: seq<Byte>, slots: nat, bits: nat, i: nat)
    requires |payload| == PackedByteSize(slots, bits) && i < slots
    ensures Offset(i, bits) + bits <= |ByteBits(payload)| == 8 * |payload|
  {
    OffsetIsProduct(slots, bits);
    OffsetMono(i + 1, slots, bits);
    ByteBitsLength(payload);
  }

  ghost function Unpack(payload: seq<Byte>, slots: nat, bits: nat): (sol: seq<nat>)
    requires |payload| == PackedByteSize(slots, bits)
    ensures |sol| == slots
  {
    seq(slots, i requires 0 <= i < slots =>
        SlotInside(payload, slots, bits, i); FieldValue(ByteBits(payload), Offset(i, bits), bits))
  }

  lemma UnpackPacked(payload: seq<Byte>, sol: seq<nat>, slots: nat, bits: nat)
    requires |payload| == PackedByteSize(slots, bits) && |sol| == slots && AllBelow(sol, bits)
    requires FieldAt(ByteBits(payload), 0, ValueBits(sol, bits))
    ensures Unpack(payload, slots, bits) == sol
  {
    hide FieldAt;
    forall i | 0 <= i < slots ensures Unpack(payload, slots, bits)[i] == sol[i] {
      PackedAt(sol, bits, payload, i);
      SlotInside(payload, slots, bits, i);
      FieldValueIs(ByteBits(payload), Offset(i, bits), bits, sol[i]);
    }
  }

  /** A read of a slot never fails and never leaves the payload. */
  method ReadSlot(payload: seq<Byte>, slots: Word32, bits: nat, position: nat) returns (value: nat)
    requires 1 <= bits <= 16 && |payload| == PackedByteSize(slots, bits) && position < slots
    ensures value == Unpack(payload, slots, bits)[position] && value < Pow2(bits)
  {
    SlotInside(payload, slots, bits, position);
    var r := ReadPackedValue(payload, position, bits);
    FieldValueIs(ByteBits(payload), Offset(position, bits), bits, r.value);
    value := r.value;
  }

  // ---- trailer ---------------------------------------------------------------------------------

  const TRAILER_SIZE := 12
  const FORMAT_VERSION: Byte := 1

  datatype Trailer = Trailer(seed: Word32, length: Word32, aux: Byte, kind: Byte, version: Byte, magic: Byte)

  function EncodeTrailer(t: Trailer): (r: seq<Byte>)
    ensures |r| == TRAILER_SIZE
  {
    Fixed32(t.seed) + Fixed32(t.length) + [t.aux, t.kind, t.version, t.magic]
  }

  function DecodeTrailer(filter: seq<Byte>): Trailer
    requires |filter| >= TRAILER_SIZE
  {
    var p := |filter| - TRAILER_SIZE;
    Trailer(DecodeFixed32(filter, p), DecodeFixed32(filter, p + 4), filter[p + 8], filter[p + 9], filter[p + 10],
            filter[p + 11])
  }

  predicate EndsIn(filter: seq<Byte>, t: Trailer) { |filter| >= TRAILER_SIZE && DecodeTrailer(filter) == t }

  lemma TrailerRoundTrip(payload: seq<Byte>, t: Trailer)
    ensures DecodeTrailer(payload + EncodeTrailer(t)) == t
    ensures (payload + EncodeTrailer(t))[..|payload|] == payload
  {
    var p, filter, flags := |payload|, payload + EncodeTrailer(t), [t.aux, t.kind, t.version, t.magic];
    hide Fixed32, DecodeFixed32;
    AtEnd(payload, EncodeTrailer(t));
    AtConcat(filter, p, Fixed32(t.seed) + Fixed32(t.length), flags);
    AtConcat(filter, p, Fixed32(t.seed), Fixed32(t.length));
    Fixed32At(filter, p, t.seed);
    Fixed32At(filter, p + 4, t.length);
    assert filter[p + 8 + 0] == flags[0] && filter[p + 8 + 1] == flags[1] && filter[p + 8 + 2] == flags[2]
           && filter[p + 8 + 3] == flags[3];
  }
}
