/** The Bloom encoding both filters fall back to. */
module Bloom {
  import opened Words
  import opened Packing

  /** (hash >> 17) | (hash << 15) on 32 bits. */
  function Delta(h: Word32): Word32 { h / 0x2_0000 + h % 0x2_0000 * 0x8000 }

  /** The hash after `j` increments by its delta. */
  function Probe(h: Word32, j: nat): Word32 {
    if j == 0 then h else (Probe(h, j - 1) + Delta(h)) % 0x1_0000_0000
  }

  function ProbeCount(bitsPerKey: nat): (r: nat)
    ensures 1 <= r <= 30
  {
    var p := (bitsPerKey as real * 0.69).Floor;
    if p < 1 then 1 else if p > 30 then 30 else p
  }

  /** BloomBitCount: at least 64, a multiple of eight, 0 when it does not fit 32 bits. */
  function BitCount(count: nat, bitsPerKey: nat): (r: Word32)
    ensures r == 0 || (r >= 64 && r % 8 == 0)
  {
    var wanted := count * bitsPerKey;
    var bits: nat := if wanted < 64 then 64 else wanted;
    var rounded := (bits + 7) / 8 * 8;
    if rounded > 0xffff_ffff then 0 else rounded
  }

  /** The serialized size of a Bloom encoding; the largest 64-bit number when the bit count does not fit. */
  function EncodedSize(n: nat, bitsPerKey: nat): nat {
    var bitCount := BitCount(n, bitsPerKey);
    if bitCount == 0 then 0xffff_ffff_ffff_ffff else bitCount / 8 + TRAILER_SIZE
  }

  /** The width of a filter value: ceil(bits per key * ln 2), between 1 and 16. */
  function ValueWidth(bitsPerKey: nat): (r: nat)
    ensures 1 <= r <= 16
  {
    var c := -(-(bitsPerKey as real * 0.6931471805599453)).Floor;
    if c < 1 then 1 else if c > 16 then 16 else c
  }

  predicate BitSet(payload: seq<Byte>, at: nat)
    requires at / 8 < |payload|
  {
    Bit(payload[at / 8], at % 8)
  }

  ghost predicate AllSet(payload: seq<Byte>, bitCount: Word32, h: Word32, probes: nat)
    requires bitCount > 0 && bitCount <= 8 * |payload|
  {
    forall j: nat :: j < probes ==> BitSet(payload, Probe(h, j) % bitCount)
  }

  /** One of the probes of `h` is bit `at`. */
  ghost predicate Hits(h: Word32, bitCount: Word32, probes: nat, at: nat)
    requires bitCount > 0
  {
    exists j: nat :: j < probes && Probe(h, j) % bitCount == at
  }

  ghost predicate AnyHits(hashes: seq<Word32>, bitCount: Word32, probes: nat, at: nat)
    requires bitCount > 0
  {
    exists k :: 0 <= k < |hashes| && Hits(hashes[k], bitCount, probes, at)
  }

  /** A bit is set if and only if some hash probes it. */
  ghost predicate Holds(payload: seq<Byte>, bitCount: Word32, hashes: seq<Word32>, probes: nat)
    requires bitCount > 0
  {
    |payload| == bitCount / 8 && bitCount % 8 == 0
      && forall at: nat :: at < bitCount ==> (BitSet(payload, at) <==> AnyHits(hashes, bitCount, probes, at))
  }

  /** All probes of `h` are probes of some of the hashes. */
  ghost predicate AllHit(hashes: seq<Word32>, bitCount: Word32, probes: nat, h: Word32)
    requires bitCount > 0
  {
    forall j: nat :: j < probes ==> AnyHits(hashes, bitCount, probes, Probe(h, j) % bitCount)
  }

  lemma HoldsAnswers(payload: seq<Byte>, bitCount: Word32, hashes: seq<Word32>, probes: nat, h: Word32)
    requires bitCount > 0 && Holds(payload, bitCount, hashes, probes)
    ensures AllSet(payload, bitCount, h, probes) <==> AllHit(hashes, bitCount, probes, h)
  {
    hide BitSet, AnyHits;
    forall j: nat | j < probes
      ensures BitSet(payload, Probe(h, j) % bitCount) <==> AnyHits(hashes, bitCount, probes, Probe(h, j) % bitCount)
    {
      assert Probe(h, j) % bitCount < bitCount;
    }
  }

  /** Every added hash is answered with yes. */
  lemma AddedHits(hashes: seq<Word32>, bitCount: Word32, probes: nat, h: Word32)
    requires bitCount > 0 && h in hashes
    ensures AllHit(hashes, bitCount, probes, h)
  {
    var k :| 0 <= k < |hashes| && hashes[k] == h;
    forall j: nat | j < probes ensures AnyHits(hashes, bitCount, probes, Probe(h, j) % bitCount) {
      assert Hits(hashes[k], bitCount, probes, Probe(h, j) % bitCount);
    }
  }

  lemma SetOne(payload: seq<Byte>, at: nat) returns (next: seq<Byte>)
    requires at / 8 < |payload|
    ensures Or(payload[at / 8], Pow2(at % 8)) < 256
    ensures next == payload[at / 8 := Or(payload[at / 8], Pow2(at % 8))]
    ensures forall q: nat :: q / 8 < |payload| ==> (BitSet(next, q) <==> BitSet(payload, q) || q == at)
  {
    var b := payload[at / 8];
    assert Pow2(8) == 256;
    Pow2Mono(at % 8 + 1, 8);
    OrBound(b, Pow2(at % 8), 8);
    next := payload[at / 8 := Or(b, Pow2(at % 8))];
    forall k: nat ensures Bit(Or(b, Pow2(at % 8)), k) <==> Bit(b, k) || k == at % 8 {
      OrBit(b, Pow2(at % 8), k);
      Pow2Bit(at % 8, k);
    }
  }

  lemma HitsStep(h: Word32, bitCount: Word32, j: nat, at: nat)
    requires bitCount > 0
    ensures Hits(h, bitCount, j + 1, at) <==> Hits(h, bitCount, j, at) || at == Probe(h, j) % bitCount
  {
    hide Probe;
    if Hits(h, bitCount, j, at) {
      var i: nat :| i < j && Probe(h, i) % bitCount == at;
    }
    if Hits(h, bitCount, j + 1, at) {
      var i: nat :| i < j + 1 && Probe(h, i) % bitCount == at;
      assert i < j || i == j;
    }
  }

  /** Nothing but the bits that `h` probes is added. */
  ghost predicate Adds(a: seq<Byte>, b: seq<Byte>, bitCount: Word32, h: Word32, probes: nat)
    requires bitCount > 0
  {
    |a| == |b|
      && forall at: nat :: at / 8 < |a| ==> (BitSet(b, at) <==> BitSet(a, at) || Hits(h, bitCount, probes, at))
  }

  lemma AddsStep(a: seq<Byte>, b: seq<Byte>, c: seq<Byte>, bitCount: Word32, h: Word32, j: nat)
    requires bitCount > 0 && Adds(a, b, bitCount, h, j) && |c| == |b|
    requires forall q: nat :: q / 8 < |b| ==> (BitSet(c, q) <==> BitSet(b, q) || q == Probe(h, j) % bitCount)
    ensures Adds(a, c, bitCount, h, j + 1)
  {
    hide BitSet, Hits, Probe;
    forall at: nat | at / 8 < |a| ensures BitSet(c, at) <==> BitSet(a, at) || Hits(h, bitCount, j + 1, at) {
      HitsStep(h, bitCount, j, at);
    }
  }

  /** The inner probe loop of BuildBloomEncoding. */
  method AddHash(payload: seq<Byte>, bitCount: Word32, h: Word32, probes: nat) returns (out: seq<Byte>)
    requires bitCount > 0 && bitCount <= 8 * |payload|
    ensures Adds(payload, out, bitCount, h, probes)
  {
    hide Adds, Delta, BitSet;
    out := payload;
    var hash := h;
    NothingAdded(payload, bitCount, h);
    for j := 0 to probes
      invariant hash == Probe(h, j) && |out| == |payload|
      invariant Adds(payload, out, bitCount, h, j)
    {
      var at := hash % bitCount;
      ghost var next := SetOne(out, at);
      AddsStep(payload, out, next, bitCount, h, j);
      out := out[at / 8 := Or(out[at / 8], Pow2(at % 8))];
      hash := (hash + Delta(h)) % 0x1_0000_0000;
    }
  }

  lemma NothingAdded(payload: seq<Byte>, bitCount: Word32, h: Word32)
    requires bitCount > 0
    ensures Adds(payload, payload, bitCount, h, 0)
  {
  }

  lemma EmptyHolds(bitCount: Word32, probes: nat)
    requires bitCount > 0 && bitCount % 8 == 0
    ensures Holds(seq(bitCount / 8, _ => 0), bitCount, [], probes)
  {
    var zeros: seq<Byte> := seq(bitCount / 8, _ => 0);
    forall at: nat | at < bitCount ensures !BitSet(zeros, at) { ZeroBits(at % 8); }
  }

  lemma HoldsStep(a: seq<Byte>, b: seq<Byte>, bitCount: Word32, hashes: seq<Word32>, h: Word32, probes: nat)
    requires bitCount > 0 && Holds(a, bitCount, hashes, probes) && Adds(a, b, bitCount, h, probes)
    ensures Holds(b, bitCount, hashes + [h], probes)
  {
    hide BitSet, Hits;
    forall at: nat | at < bitCount ensures BitSet(b, at) <==> AnyHits(hashes + [h], bitCount, probes, at) {
      AnyHitsStep(hashes, h, bitCount, probes, at);
      assert BitSet(b, at) <==> BitSet(a, at) || Hits(h, bitCount, probes, at);
    }
  }

  lemma AnyHitsStep(hashes: seq<Word32>, h: Word32, bitCount: Word32, probes: nat, at: nat)
    requires bitCount > 0
    ensures AnyHits(hashes + [h], bitCount, probes, at) <==>
              AnyHits(hashes, bitCount, probes, at) || Hits(h, bitCount, probes, at)
  {
    hide Hits;
    var all := hashes + [h];
    assert all[|hashes|] == h;
    if AnyHits(hashes, bitCount, probes, at) {
      var k :| 0 <= k < |hashes| && Hits(hashes[k], bitCount, probes, at);
      assert all[k] == hashes[k];
    }
    if AnyHits(all, bitCount, probes, at) {
      var k :| 0 <= k < |all| && Hits(all[k], bitCount, probes, at);
      assert k < |hashes| ==> all[k] == hashes[k];
    }
  }

  /** The payload BuildBloomEncoding writes for one hash per key: exactly the probed bits are set. */
  method Build(hashes: seq<Word32>, bitCount: Word32, probes: nat) returns (payload: seq<Byte>)
    requires bitCount >= 64 && bitCount % 8 == 0
    ensures Holds(payload, bitCount, hashes, probes)
  {
    hide Adds;
    payload := seq(bitCount / 8, _ => 0);
    EmptyHolds(bitCount, probes);
    for i := 0 to |hashes|
      invariant |payload| == bitCount / 8 && Holds(payload, bitCount, hashes[..i], probes)
    {
      hide Holds;
      var next := AddHash(payload, bitCount, hashes[i], probes);
      HoldsStep(payload, next, bitCount, hashes[..i], hashes[i], probes);
      assert hashes[..i + 1] == hashes[..i] + [hashes[i]];
      AddsLength(payload, next, bitCount, hashes[i], probes);
      payload := next;
    }
    assert hashes[..|hashes|] == hashes;
  }

  lemma AddsLength(a: seq<Byte>, b: seq<Byte>, bitCount: Word32, h: Word32, probes: nat)
    requires bitCount > 0 && Adds(a, b, bitCount, h, probes)
    ensures |a| == |b|
  {
  }

  lemma TestBit(b: nat, k: nat)
    ensures And(b, Pow2(k)) == 0 <==> !Bit(b, k)
  {
    AndBit(b, Pow2(k), k);
    Pow2Bit(k, k);
    ZeroBits(k);
    if !Bit(b, k) {
      forall i: nat ensures Bit(And(b, Pow2(k)), i) == Bit(0, i) {
        AndBit(b, Pow2(k), i);
        Pow2Bit(k, i);
        ZeroBits(i);
      }
      SameBits(And(b, Pow2(k)), 0);
    }
  }

  /** (bit_count + 7) / 8 on 32 bits: 0 from 0xfffffff9 bits on. */
  function ByteCount(bitCount: Word32): nat { (bitCount + 7) % 0x1_0000_0000 / 8 }

  /** Parameters for which a stored payload is probed. */
  predicate Probed(payload: seq<Byte>, bitCount: Word32, probes: nat) {
    bitCount >= 64 && 1 <= probes <= 30 && |payload| == ByteCount(bitCount) && bitCount <= 8 * |payload|
  }

  /** What a stored Bloom payload answers. */
  ghost predicate Matches(payload: seq<Byte>, bitCount: Word32, h: Word32, probes: nat) {
    Probed(payload, bitCount, probes) ==> AllSet(payload, bitCount, h, probes)
  }

  /** BloomMayMatch: malformed parameters match everything, otherwise every probed bit must be set. */
  method MayMatch(h: Word32, payload: seq<Byte>, bitCount: Word32, probes: nat) returns (m: bool)
    ensures m <==> Matches(payload, bitCount, h, probes)
  {
    if !Probed(payload, bitCount, probes) {
      return true;
    }
    var hash := h;
    for j := 0 to probes
      invariant hash == Probe(h, j)
      invariant AllSet(payload, bitCount, h, j)
    {
      hide Delta, Probed;
      var at := hash % bitCount;
      TestBit(payload[at / 8], at % 8);
      if And(payload[at / 8], Pow2(at % 8)) == 0 {
        assert !BitSet(payload, Probe(h, j) % bitCount);
        return false;
      }
      hash := (hash + Delta(h)) % 0x1_0000_0000;
    }
    return true;
  }
}
