/** The Xor filter policy: reverse assignment, encoding choice, queries, and no false negatives. */
module XorFilter {
  import opened Words
  import opened Packing
  import opened XorPeel
  import Bloom

  type Key = seq<Byte>
  type HashFn = (Key, Word32) -> Word32

  const SECOND_HASH_DELTA: Word32 := 0x7F4A_7C15
  const MAX_SEED_TRIES: Word32 := 64
  const MAX_BLOCK: Word32 := 0x5555_5555
  const MAGIC: Byte := 0xA9
  const EMPTY: Byte := 0
  const XOR: Byte := 1
  const BLOOM: Byte := 2
  const ALWAYS_MATCH: Byte := 3

  function Xor64(a: Word64, b: Word64): Word64 {
    Pow2Values(); XorBound(a, b, 64); Xor(a, b)
  }

  function Xor32(a: Word32, b: Word32): Word32 {
    Pow2Values(); XorBound(a, b, 32); Xor(a, b)
  }

  function Mul64(a: Word64, b: Word64): Word64 {
    var x: nat, y: nat := a, b;
    x * y % 0x1_0000_0000_0000_0000
  }

  /** XorHash64: two 32-bit hashes through the MurmurHash3 finalizer. */
  function Hash64(h: HashFn, key: Key, seed: Word32): Word64 {
    var high: nat, low: nat := h(key, seed), h(key, (seed + SECOND_HASH_DELTA) % 0x1_0000_0000);
    var h0: Word64 := high * 0x1_0000_0000 + low;
    var h1 := Mul64(Xor64(h0, h0 / 0x2_0000_0000), 0xff51afd7ed558ccd);
    var h2 := Mul64(Xor64(h1, h1 / 0x2_0000_0000), 0xc4ceb9fe1a85ec53);
    Xor64(h2, h2 / 0x2_0000_0000)
  }

  function Fingerprint(hash: Word64, bits: nat): nat {
    var m := Xor64(hash, hash / 0x1_0000_0000);
    Mask(Xor64(m, m / 0x1_0000) % 0x1_0000_0000, bits)
  }

  /** The three slots of a hash. */
  function Three(fps: seq<nat>, hash: Word64, block: Word32): nat
    requires block > 0 && |fps| == 3 * block
  {
    PositionsDistinct(hash, block);
    var ps := Positions(hash, block);
    Xor(Xor(fps[ps[0]], fps[ps[1]]), fps[ps[2]])
  }

  predicate Satisfied(fps: seq<nat>, hash: Word64, block: Word32, bits: nat)
    requires block > 0 && |fps| == 3 * block
  {
    Three(fps, hash, block) == Fingerprint(hash, bits)
  }

  /** Whichever of the three slots was empty, giving it this value makes the three xor to `fp`. */
  lemma TripleSolve(fp: nat, a: nat, b: nat, c: nat)
    ensures var v := Xor(Xor(Xor(fp, a), b), c);
            && (a == 0 ==> Xor(Xor(v, b), c) == fp)
            && (b == 0 ==> Xor(Xor(a, v), c) == fp)
            && (c == 0 ==> Xor(Xor(a, b), v) == fp)
  {
    var t := Xor(Xor(a, b), c);
    var v := Xor(Xor(Xor(fp, a), b), c);
    assert v == Xor(fp, t) by {
      XorAssoc(fp, a, b);
      XorAssoc(fp, Xor(a, b), c);
    }
    XorCancel(fp, t);
    if a == 0 {
      XorAssoc(v, b, c);
      assert t == Xor(b, c);
    }
    if b == 0 {
      XorComm(a, v);
      XorAssoc(v, a, c);
      assert t == Xor(a, c);
    }
    if c == 0 {
      XorComm(Xor(a, b), v);
      assert t == Xor(a, b);
    }
  }

  /** Assigning the selected slot satisfies its hash and disturbs no hash that avoids that slot. */
  lemma AssignSatisfies(fps: seq<nat>, hash: Word64, selected: nat, block: Word32, bits: nat)
    requires block > 0 && |fps| == 3 * block && selected in Positions(hash, block)
    requires selected < |fps| && fps[selected] == 0
    ensures var ps := Positions(hash, block);
            && ps[0] < |fps| && ps[1] < |fps| && ps[2] < |fps|
            && Satisfied(fps[selected := Xor(Xor(Xor(Fingerprint(hash, bits), fps[ps[0]]), fps[ps[1]]), fps[ps[2]])],
                         hash, block, bits)
  {
    var ps := Positions(hash, block);
    PositionsDistinct(hash, block);
    TripleSolve(Fingerprint(hash, bits), fps[ps[0]], fps[ps[1]], fps[ps[2]]);
  }

  lemma AssignElsewhere(fps: seq<nat>, hash: Word64, selected: nat, value: nat, block: Word32, bits: nat)
    requires block > 0 && |fps| == 3 * block && selected < |fps| && !Touches(hash, selected, block)
    requires Satisfied(fps, hash, block, bits)
    ensures Satisfied(fps[selected := value], hash, block, bits)
  {
    PositionsDistinct(hash, block);
    var ps := Positions(hash, block);
    assert ps[0] != selected && ps[1] != selected && ps[2] != selected;
  }

  /** Progress of the reverse assignment: entries from `r` on are satisfied, earlier selected slots are still 0. */
  ghost predicate Assigned(fps: seq<nat>, peel: seq<PeelEntry>, r: nat, block: Word32, bits: nat)
    requires block > 0
  {
    && |fps| == 3 * block && AllBelow(fps, bits) && r <= |peel|
    && (forall i :: r <= i < |peel| ==> Satisfied(fps, peel[i].hash, block, bits))
    && (forall i :: 0 <= i < r ==> peel[i].selected < |fps| && fps[peel[i].selected] == 0)
    && (forall p :: 0 <= p < |fps| && fps[p] != 0 ==> SelectedFrom(peel, r, p))
  }

  /** Some entry from `r` on was given slot `p`. */
  ghost predicate SelectedFrom(peel: seq<PeelEntry>, r: nat, p: nat) {
    exists i :: r <= i < |peel| && peel[i].selected == p
  }

  method AssignOne(fps: seq<nat>, peel: seq<PeelEntry>, r: nat, block: Word32, bits: nat) returns (fps': seq<nat>)
    requires block > 0 && PeelOk(peel, {}, block) && r < |peel| && Assigned(fps, peel, r + 1, block, bits)
    ensures Assigned(fps', peel, r, block, bits)
  {
    hide Fingerprint, Satisfied, Positions, Mask, Assigned;
    var e := peel[r];
    SelectedIsEmpty(fps, peel, r, block, bits);
    var ps := Positions(e.hash, block);
    PositionsDistinct(e.hash, block);
    var value := Fingerprint(e.hash, bits);
    value := Xor(value, fps[ps[0]]);
    value := Xor(value, fps[ps[1]]);
    value := Xor(value, fps[ps[2]]);
    ValueBelow(e.hash, bits, fps[ps[0]], fps[ps[1]], fps[ps[2]]);
    AssignSatisfies(fps, e.hash, e.selected, block, bits);
    AssignedNext(fps, peel, r, value, block, bits);
    fps' := fps[e.selected := Mask(value, bits)];
  }

  lemma SelectedIsEmpty(fps: seq<nat>, peel: seq<PeelEntry>, r: nat, block: Word32, bits: nat)
    requires block > 0 && PeelOk(peel, {}, block) && r < |peel| && Assigned(fps, peel, r + 1, block, bits)
    ensures |fps| == 3 * block && AllBelow(fps, bits) && peel[r].selected < |fps| && fps[peel[r].selected] == 0
    ensures peel[r].selected in Positions(peel[r].hash, block)
  {
    hide Satisfied, Positions;
    assert Touches(peel[r].hash, peel[r].selected, block);
  }

  /** The slot of entry `r` is in no later hash, and no earlier entry selected it. */
  lemma AssignedNext(fps: seq<nat>, peel: seq<PeelEntry>, r: nat, value: nat, block: Word32, bits: nat)
    requires block > 0 && PeelOk(peel, {}, block) && r < |peel| && Assigned(fps, peel, r + 1, block, bits)
    requires peel[r].selected < |fps| && value < Pow2(bits)
    requires Satisfied(fps[peel[r].selected := value], peel[r].hash, block, bits)
    ensures Assigned(fps[peel[r].selected := value], peel, r, block, bits)
  {
    hide Satisfied, Positions;
    var fps' := fps[peel[r].selected := value];
    forall p | 0 <= p < |fps'| && fps'[p] != 0 ensures SelectedFrom(peel, r, p) {
      if p != peel[r].selected { assert SelectedFrom(peel, r + 1, p); }
    }
    forall i | r < i < |peel| ensures Satisfied(fps', peel[i].hash, block, bits) {
      AssignElsewhere(fps, peel[i].hash, peel[r].selected, value, block, bits);
    }
    forall i | 0 <= i < r ensures peel[i].selected < |fps'| && fps'[peel[i].selected] == 0 {
      assert Touches(peel[r].hash, peel[r].selected, block) && !Touches(peel[r].hash, peel[i].selected, block);
    }
  }

  lemma ValueBelow(hash: Word64, bits: nat, a: nat, b: nat, c: nat)
    requires a < Pow2(bits) && b < Pow2(bits) && c < Pow2(bits)
    ensures var v := Xor(Xor(Xor(Fingerprint(hash, bits), a), b), c); v < Pow2(bits) && Mask(v, bits) == v
  {
    var m := Xor64(hash, hash / 0x1_0000_0000);
    MaskIsLow(Xor64(m, m / 0x1_0000) % 0x1_0000_0000, bits);
    XorBound(Fingerprint(hash, bits), a, bits);
    XorBound(Xor(Fingerprint(hash, bits), a), b, bits);
    XorBound(Xor(Xor(Fingerprint(hash, bits), a), b), c, bits);
    var v := Xor(Xor(Xor(Fingerprint(hash, bits), a), b), c);
    MaskIsLow(v, bits);
    LowSmall(v, bits);
  }

  /** The reverse assignment loop: afterwards the three slots of every peeled hash xor to its fingerprint. */
  method Assign(peel: seq<PeelEntry>, block: Word32, bits: nat) returns (fps: seq<nat>)
    requires block > 0 && PeelOk(peel, {}, block)
    ensures |fps| == 3 * block && AllBelow(fps, bits)
    ensures forall i :: 0 <= i < |peel| ==> Satisfied(fps, peel[i].hash, block, bits)
    ensures forall p :: 0 <= p < |fps| && fps[p] != 0 ==> SelectedFrom(peel, 0, p)
  {
    var n: nat := 3 * (block as int);
    fps := seq(n, _ => 0);
    var r := |peel|;
    forall i | 0 <= i < |peel| ensures peel[i].selected < n {
      PositionsDistinct(peel[i].hash, block);
    }
    while r > 0
      invariant 0 <= r <= |peel| && Assigned(fps, peel, r, block, bits)
    {
      fps := AssignOne(fps, peel, r - 1, block, bits);
      r := r - 1;
    }
  }

  // ---- what a stored filter means --------------------------------------------------------------

  ghost predicate MayMatch(h: HashFn, key: Key, filter: seq<Byte>) {
    |filter| < TRAILER_SIZE ||
    var t := DecodeTrailer(filter);
    var payload := filter[..|filter| - TRAILER_SIZE];
    || t.magic != MAGIC || t.version != FORMAT_VERSION
    || (t.kind == EMPTY && |payload| != 0)
    || t.kind == ALWAYS_MATCH
    || (t.kind == BLOOM && BloomMatch(h, key, payload, t))
    || (t.kind == XOR && XorMatch(h, key, payload, t))
    || t.kind > ALWAYS_MATCH
  }

  /** The 32-bit hash the Bloom fallback derives from a 64-bit one. */
  function Fold(hash: Word64): Word32 { Xor32(hash % 0x1_0000_0000, hash / 0x1_0000_0000) }

  ghost predicate BloomMatch(h: HashFn, key: Key, payload: seq<Byte>, t: Trailer) {
    Bloom.Matches(payload, t.length, Fold(Hash64(h, key, t.seed)), t.aux)
  }

  predicate XorShape(payload: seq<Byte>, t: Trailer) {
    0 < t.length <= MAX_BLOCK && 1 <= t.aux <= 16 && |payload| == PackedByteSize(3 * (t.length as int), t.aux)
  }

  /** A well-shaped Xor payload matches exactly the keys whose three slots xor to their fingerprint. */
  ghost predicate XorMatch(h: HashFn, key: Key, payload: seq<Byte>, t: Trailer) {
    XorShape(payload, t) ==>
      Satisfied(Unpack(payload, 3 * (t.length as int), t.aux), Hash64(h, key, t.seed), t.length, t.aux)
  }

  /** KeyMayMatch computes exactly MayMatch: no read leaves the payload and no early exit changes the answer. */
  method KeyMayMatch(h: HashFn, key: Key, filter: seq<Byte>) returns (m: bool)
    ensures m <==> MayMatch(h, key, filter)
  {
    if |filter| < TRAILER_SIZE { return true; }
    var t := DecodeTrailer(filter);
    var payload := filter[..|filter| - TRAILER_SIZE];
    if t.magic != MAGIC || t.version != FORMAT_VERSION { return true; }
    if t.kind == EMPTY { return |payload| != 0; }
    if t.kind == ALWAYS_MATCH { return true; }
    if t.kind == BLOOM {
      m := Bloom.MayMatch(Fold(Hash64(h, key, t.seed)), payload, t.length, t.aux);
      return;
    }
    if t.kind != XOR { return true; }
    if !XorShape(payload, t) { return true; }
    m := CheckHash(payload, t.length, t.aux, Hash64(h, key, t.seed));
  }

  method CheckHash(payload: seq<Byte>, block: Word32, bits: nat, hash: Word64) returns (m: bool)
    requires 0 < block <= MAX_BLOCK && 1 <= bits <= 16 && |payload| == PackedByteSize(3 * (block as int), bits)
    ensures m <==> Satisfied(Unpack(payload, 3 * (block as int), bits), hash, block, bits)
  {
    var ps := Positions(hash, block);
    PositionsDistinct(hash, block);
    var table: Word32 := 3 * (block as int);
    var v0 := ReadSlot(payload, table, bits, ps[0]);
    var v1 := ReadSlot(payload, table, bits, ps[1]);
    var v2 := ReadSlot(payload, table, bits, ps[2]);
    var actual := Xor(Xor(v0, v1), v2);
    XorBound(v0, v1, bits);
    XorBound(Xor(v0, v1), v2, bits);
    MaskIsLow(actual, bits);
    LowSmall(actual, bits);
    return Mask(actual, bits) == Fingerprint(hash, bits);
  }

  // ---- construction ----------------------------------------------------------------------------

  ghost predicate StrictlyIncreasing(hs: seq<Word64>) { forall i, j :: 0 <= i < j < |hs| ==> hs[i] < hs[j] }

  /** One hash into the sorted, duplicate-free list. */
  function InsertHash(hs: seq<Word64>, h: Word64): seq<Word64> {
    if |hs| == 0 || h < hs[0] then [h] + hs
    else if h == hs[0] then hs
    else [hs[0]] + InsertHash(hs[1..], h)
  }

  lemma {:induction false} InsertHashSorted(hs: seq<Word64>, h: Word64)
    requires StrictlyIncreasing(hs)
    ensures StrictlyIncreasing(InsertHash(hs, h))
    ensures forall x :: x in InsertHash(hs, h) <==> x == h || x in hs
  {
    if |hs| > 0 {
      assert hs == [hs[0]] + hs[1..];
      if hs[0] < h {
        InsertHashSorted(hs[1..], h);
        var r := InsertHash(hs[1..], h);
        forall i | 0 <= i < |r| ensures hs[0] < r[i] {
          assert r[i] in r;
          if r[i] != h {
            var j :| 0 <= j < |hs[1..]| && hs[1..][j] == r[i];
            assert hs[j + 1] == r[i];
          }
        }
      }
    }
  }

  /** The hashes of the first `n` keys, sorted, each once. */
  function UniqueHashes(h: HashFn, keys: seq<Key>, seed: Word32, n: nat): seq<Word64>
    requires n <= |keys|
  {
    if n == 0 then [] else InsertHash(UniqueHashes(h, keys, seed, n - 1), Hash64(h, keys[n - 1], seed))
  }

  function Hashes(h: HashFn, keys: seq<Key>, seed: Word32): seq<Word64> { UniqueHashes(h, keys, seed, |keys|) }

  lemma {:induction false} UniqueHashesAre(h: HashFn, keys: seq<Key>, seed: Word32, n: nat)
    requires n <= |keys|
    ensures StrictlyIncreasing(UniqueHashes(h, keys, seed, n))
    ensures forall x :: x in UniqueHashes(h, keys, seed, n) <==> exists i :: 0 <= i < n && Hash64(h, keys[i], seed) == x
  {
    hide StrictlyIncreasing, Hash64;
    if n == 0 {
      NothingIncreases();
    } else {
      UniqueHashesAre(h, keys, seed, n - 1);
      var before, last := UniqueHashes(h, keys, seed, n - 1), Hash64(h, keys[n - 1], seed);
      InsertHashSorted(before, last);
      OneMoreHash(h, keys, seed, n, before);
    }
  }

  lemma OneMoreHash(h: HashFn, keys: seq<Key>, seed: Word32, n: nat, before: seq<Word64>)
    requires 0 < n <= |keys|
    requires forall x :: x in before <==> exists i :: 0 <= i < n - 1 && Hash64(h, keys[i], seed) == x
    ensures forall x :: x in before || x == Hash64(h, keys[n - 1], seed) <==>
              exists i :: 0 <= i < n && Hash64(h, keys[i], seed) == x
  {
    hide Hash64;
  }

  lemma NothingIncreases()
    ensures StrictlyIncreasing([])
  {
  }

  /** BuildUniqueHashes: the keys' hashes, sorted, each once. */
  method BuildUniqueHashes(h: HashFn, keys: seq<Key>, seed: Word32) returns (hs: seq<Word64>)
    ensures StrictlyIncreasing(hs)
    ensures forall x :: x in hs <==> exists i :: 0 <= i < |keys| && Hash64(h, keys[i], seed) == x
    ensures hs == Hashes(h, keys, seed)
  {
    hide StrictlyIncreasing, Hash64;
    hs := [];
    for i := 0 to |keys|
      invariant hs == UniqueHashes(h, keys, seed, i)
    {
      hs := InsertHash(hs, Hash64(h, keys[i], seed));
    }
    UniqueHashesAre(h, keys, seed, |keys|);
  }

  /** The encoding of a solved table: the slots of every given hash xor to its fingerprint, slots that no given hash
      touches are 0, and any key matches exactly when its own three slots xor to its fingerprint. */
  ghost predicate EncodesXor(h: HashFn, hs: seq<Word64>, block: Word32, bits: nat, seed: Word32, encoded: seq<Byte>,
                             fps: seq<nat>)
    requires block > 0
  {
    && |fps| == 3 * block && AllBelow(fps, bits)
    && (forall x :: x in hs ==> Satisfied(fps, x, block, bits))
    && (forall p :: 0 <= p < |fps| && fps[p] != 0 ==> exists x :: x in hs && Touches(x, p, block))
    && (forall key :: MayMatch(h, key, encoded) <==> Satisfied(fps, Hash64(h, key, seed), block, bits))
    && bits < 256 && EndsIn(encoded, Trailer(seed, block, bits, XOR, FORMAT_VERSION, MAGIC))
  }

  /** TryBuildXor: succeeds exactly when the hypergraph of the hashes has an empty 2-core. */
  method TryBuildXor(hs: seq<Word64>, block: Word32, bits: nat, seed: Word32,
                     ghost h: HashFn) returns (ok: bool, encoded: seq<Byte>)
    requires StrictlyIncreasing(hs) && 1 <= bits <= 16 && block <= MAX_BLOCK
    ensures ok <==> |hs| > 0 && block > 0 && EmptyCore(hs, block)
    ensures ok ==> exists fps :: EncodesXor(h, hs, block, bits, seed, encoded, fps)
  {
    hide Satisfied, MayMatch, Hash64, EncodesXor, EmptyCore, AllBelow, PeelsAll, SelectedFrom, PeelOk;
    if |hs| == 0 || block == 0 { return false, []; }
    var peel, _ := Peel(hs, block);
    if |peel| != |hs| { return false, []; }
    var fps := Assign(peel, block, bits);
    var payload := AppendPackedValues(fps, bits);
    var t := Trailer(seed, block, bits, XOR, FORMAT_VERSION, MAGIC);
    ok, encoded := true, payload + EncodeTrailer(t);
    TrailerRoundTrip(payload, t);
    forall key
      ensures MayMatch(h, key, encoded) <==> Satisfied(fps, Hash64(h, key, seed), block, bits)
    {
      EncodedMatches(h, key, payload, fps, t);
    }
    PeeledEncodes(h, hs, peel, block, bits, seed, encoded, fps);
    assert EncodesXor(h, hs, block, bits, seed, encoded, fps);
  }

  lemma PeeledEncodes(h: HashFn, hs: seq<Word64>, peel: seq<PeelEntry>, block: Word32, bits: nat, seed: Word32,
                      encoded: seq<Byte>, fps: seq<nat>)
    requires block > 0 && |fps| == 3 * block && AllBelow(fps, bits) && PeelOk(peel, {}, block)
    requires forall i :: 0 <= i < |peel| ==> Satisfied(fps, peel[i].hash, block, bits)
    requires forall p :: 0 <= p < |fps| && fps[p] != 0 ==> SelectedFrom(peel, 0, p)
    requires PeelsAll(hs, peel)
    requires bits < 256 && EndsIn(encoded, Trailer(seed, block, bits, XOR, FORMAT_VERSION, MAGIC))
    requires forall key :: MayMatch(h, key, encoded) <==> Satisfied(fps, Hash64(h, key, seed), block, bits)
    ensures EncodesXor(h, hs, block, bits, seed, encoded, fps)
  {
    hide Satisfied, MayMatch, Hash64, Touches, AllBelow;
    forall p | 0 <= p < |fps| && fps[p] != 0 ensures exists x :: x in hs && Touches(x, p, block) {
      var i :| 0 <= i < |peel| && peel[i].selected == p;
      assert Touches(peel[i].hash, p, block) && peel[i].hash in hs;
    }
  }

  lemma EncodedMatches(h: HashFn, key: Key, payload: seq<Byte>, fps: seq<nat>, t: Trailer)
    requires t.kind == XOR && t.version == FORMAT_VERSION && t.magic == MAGIC && XorShape(payload, t)
    requires |fps| == 3 * t.length && AllBelow(fps, t.aux) && FieldAt(ByteBits(payload), 0, ValueBits(fps, t.aux))
    ensures MayMatch(h, key, payload + EncodeTrailer(t)) <==> Satisfied(fps, Hash64(h, key, t.seed), t.length, t.aux)
  {
    TrailerRoundTrip(payload, t);
    UnpackPacked(payload, fps, 3 * (t.length as int), t.aux);
  }

  function Folded(hs: seq<Word64>): seq<Word32> { seq(|hs|, i requires 0 <= i < |hs| => Fold(hs[i])) }

  /** What a Bloom filter of the hashes answers: yes to a key exactly when all its probes are probes of hashes; always
      yes when the bits do not fit. */
  ghost predicate BloomAnswers(h: HashFn, hs: seq<Word64>, bitsPerKey: nat, seed: Word32, filter: seq<Byte>) {
    var bitCount, probes := Bloom.BitCount(|hs|, bitsPerKey), Bloom.ProbeCount(bitsPerKey);
    && EndsIn(filter, if bitCount == 0 then Trailer(seed, 0, 0, ALWAYS_MATCH, FORMAT_VERSION, MAGIC)
                      else Trailer(seed, bitCount, probes, BLOOM, FORMAT_VERSION, MAGIC))
    && forall key ::
         MayMatch(h, key, filter) <==>
           bitCount == 0 || Bloom.AllHit(Folded(hs), bitCount, probes, Fold(Hash64(h, key, seed)))
  }

  /** BuildBloomEncoding. */
  method BuildBloom(hs: seq<Word64>, bitsPerKey: nat, seed: Word32, ghost h: HashFn) returns (encoded: seq<Byte>)
    ensures BloomAnswers(h, hs, bitsPerKey, seed, encoded)
    ensures |encoded| == Bloom.BitCount(|hs|, bitsPerKey) / 8 + TRAILER_SIZE
  {
    hide Hash64, Fold;
    var bitCount := Bloom.BitCount(|hs|, bitsPerKey);
    if bitCount == 0 {
      var t := Trailer(seed, 0, 0, ALWAYS_MATCH, FORMAT_VERSION, MAGIC);
      encoded := EncodeTrailer(t);
      TrailerRoundTrip([], t);
      assert [] + encoded == encoded;
      return;
    }
    var probes := Bloom.ProbeCount(bitsPerKey);
    var payload := Bloom.Build(Folded(hs), bitCount, probes);
    var t := Trailer(seed, bitCount, probes, BLOOM, FORMAT_VERSION, MAGIC);
    encoded := payload + EncodeTrailer(t);
    TrailerRoundTrip(payload, t);
    BloomEncoded(h, payload, t);
    forall key
      ensures MayMatch(h, key, encoded) <==>
                Bloom.AllHit(Folded(hs), bitCount, probes, Fold(Hash64(h, key, seed)))
    {
      Bloom.HoldsAnswers(payload, bitCount, Folded(hs), probes, Fold(Hash64(h, key, seed)));
    }
  }

  lemma BloomEncoded(h: HashFn, payload: seq<Byte>, t: Trailer)
    requires t.kind == BLOOM && t.version == FORMAT_VERSION && t.magic == MAGIC
    requires t.length >= 64 && t.length % 8 == 0 && 1 <= t.aux <= 30 && |payload| == t.length / 8
    ensures forall key :: MayMatch(h, key, payload + EncodeTrailer(t)) <==>
              Bloom.AllSet(payload, t.length, Fold(Hash64(h, key, t.seed)), t.aux)
  {
    TrailerRoundTrip(payload, t);
    hide Bloom.AllSet, Hash64, Fold;
    assert Bloom.Probed(payload, t.length, t.aux);
  }

  function BlockLength(n: nat): Word32 {
    if n == 0 then 0
    else
      var length := ((n * 123 + 99) / 100 + 32 + 2) / 3;
      if length > MAX_BLOCK then 0 else length
  }

  /** The numbers of different hashes for which CreateFilter tries Xor seeds. */
  predicate TriesXor(n: nat, bitsPerKey: nat) {
    && BlockLength(n) != 0
    && PackedByteSize(3 * (BlockLength(n) as int), Bloom.ValueWidth(bitsPerKey)) + TRAILER_SIZE
       < Bloom.EncodedSize(n, bitsPerKey)
  }

  ghost predicate Builds(h: HashFn, keys: seq<Key>, seed: Word32) {
    var hs := Hashes(h, keys, seed);
    |hs| > 0 && BlockLength(|hs|) > 0 && EmptyCore(hs, BlockLength(|hs|))
  }

  /** `seed` is the first of the tried seeds whose hashes can all be peeled. */
  ghost predicate Chosen(h: HashFn, keys: seq<Key>, bitsPerKey: nat, seed: Word32) {
    && TriesXor(|Hashes(h, keys, 0)|, bitsPerKey) && seed < MAX_SEED_TRIES && Builds(h, keys, seed)
    && forall s: Word32 :: s < seed ==> !Builds(h, keys, s)
  }

  ghost predicate XorAnswers(h: HashFn, keys: seq<Key>, bitsPerKey: nat, seed: Word32, filter: seq<Byte>) {
    var hs := Hashes(h, keys, seed);
    BlockLength(|hs|) > 0
      && exists fps :: EncodesXor(h, hs, BlockLength(|hs|), Bloom.ValueWidth(bitsPerKey), seed, filter, fps)
  }

  /** What CreateFilter promises, for every key, added or not: a filter of no keys matches nothing; otherwise an Xor
      filter with the first seed that can be peeled answers, or a Bloom filter of seed 0 if there is none. */
  ghost predicate FilterOf(h: HashFn, keys: seq<Key>, bitsPerKey: nat, filter: seq<Byte>) {
    && (keys == [] ==> forall key :: !MayMatch(h, key, filter))
    && (keys != [] ==> forall seed: Word32 :: Chosen(h, keys, bitsPerKey, seed) ==>
          XorAnswers(h, keys, bitsPerKey, seed, filter))
    && (keys != [] && (forall seed: Word32 :: !Chosen(h, keys, bitsPerKey, seed)) ==>
          BloomAnswers(h, Hashes(h, keys, 0), bitsPerKey, 0, filter))
  }

  method CreateFilter(h: HashFn, keys: seq<Key>, bitsPerKey: nat) returns (filter: seq<Byte>)
    ensures FilterOf(h, keys, bitsPerKey, filter)
  {
    hide Builds, XorAnswers, MayMatch, BloomAnswers, Hashes, StrictlyIncreasing, Hash64, EmptyCore;
    var bits := Bloom.ValueWidth(bitsPerKey);
    if |keys| == 0 {
      filter := EncodeTrailer(Trailer(0, 0, 0, EMPTY, FORMAT_VERSION, MAGIC));
      EmptyMatchesNothing(h);
      return;
    }
    var initial := BuildUniqueHashes(h, keys, 0);
    var block0 := BlockLength(|initial|);
    var size := PackedByteSize(3 * (block0 as int), bits) + TRAILER_SIZE;
    if block0 == 0 || size >= Bloom.EncodedSize(|initial|, bitsPerKey) {
      filter := BuildBloom(initial, bitsPerKey, 0, h);
      return;
    }
    for seed := 0 to MAX_SEED_TRIES
      invariant forall s: Word32 :: s < seed ==> !Builds(h, keys, s)
    {
      var ok, encoded := TrySeed(h, keys, bitsPerKey, seed);
      if ok {
        FirstIsChosen(h, keys, bitsPerKey, seed);
        assert Chosen(h, keys, bitsPerKey, seed);
        return encoded;
      }
    }
    filter := BuildBloom(initial, bitsPerKey, 0, h);
  }

  lemma EmptyMatchesNothing(h: HashFn)
    ensures forall key :: !MayMatch(h, key, EncodeTrailer(Trailer(0, 0, 0, EMPTY, FORMAT_VERSION, MAGIC)))
  {
    var t := Trailer(0, 0, 0, EMPTY, FORMAT_VERSION, MAGIC);
    TrailerRoundTrip([], t);
    assert [] + EncodeTrailer(t) == EncodeTrailer(t);
    hide BloomMatch, XorMatch;
  }

  lemma FirstIsChosen(h: HashFn, keys: seq<Key>, bitsPerKey: nat, seed: Word32)
    requires TriesXor(|Hashes(h, keys, 0)|, bitsPerKey) && seed < MAX_SEED_TRIES && Builds(h, keys, seed)
    requires forall s: Word32 :: s < seed ==> !Builds(h, keys, s)
    ensures forall s: Word32 :: Chosen(h, keys, bitsPerKey, s) <==> s == seed
  {
    hide Builds, TriesXor, Hashes;
  }

  /** One turn of the loop over the seeds. */
  method TrySeed(h: HashFn, keys: seq<Key>, bitsPerKey: nat, seed: Word32) returns (ok: bool, encoded: seq<Byte>)
    ensures ok <==> Builds(h, keys, seed)
    ensures ok ==> XorAnswers(h, keys, bitsPerKey, seed, encoded)
  {
    hide StrictlyIncreasing, EmptyCore, EncodesXor, Hashes;
    var hs := BuildUniqueHashes(h, keys, seed);
    var block := BlockLength(|hs|);
    if block == 0 { return false, []; }
    ok, encoded := TryBuildXor(hs, block, Bloom.ValueWidth(bitsPerKey), seed, h);
  }

  /** No false negatives, whichever encoding is selected and however many keys repeat. */
  lemma NoFalseNegatives(h: HashFn, keys: seq<Key>, bitsPerKey: nat, filter: seq<Byte>, key: Key)
    requires FilterOf(h, keys, bitsPerKey, filter) && key in keys
    ensures MayMatch(h, key, filter)
  {
    hide Chosen, MayMatch, EncodesXor, Hash64, Fold, Bloom.AllHit, Hashes;
    if seed: Word32 :| Chosen(h, keys, bitsPerKey, seed) {
      assert XorAnswers(h, keys, bitsPerKey, seed, filter);
      KeyHashed(h, keys, seed, key);
      var hs := Hashes(h, keys, seed);
      var block, bits := BlockLength(|hs|), Bloom.ValueWidth(bitsPerKey);
      var fps :| EncodesXor(h, hs, block, bits, seed, filter, fps);
      AddedMatches(h, hs, block, bits, seed, filter, fps, key);
    } else {
      var hs := Hashes(h, keys, 0);
      assert BloomAnswers(h, hs, bitsPerKey, 0, filter);
      KeyHashed(h, keys, 0, key);
      var i :| 0 <= i < |hs| && hs[i] == Hash64(h, key, 0);
      assert Folded(hs)[i] == Fold(Hash64(h, key, 0));
      var bitCount := Bloom.BitCount(|hs|, bitsPerKey);
      if bitCount != 0 {
        Bloom.AddedHits(Folded(hs), bitCount, Bloom.ProbeCount(bitsPerKey), Fold(Hash64(h, key, 0)));
      }
    }
  }

  lemma AddedMatches(h: HashFn, hs: seq<Word64>, block: Word32, bits: nat, seed: Word32, filter: seq<Byte>,
                     fps: seq<nat>, key: Key)
    requires block > 0 && EncodesXor(h, hs, block, bits, seed, filter, fps) && Hash64(h, key, seed) in hs
    ensures MayMatch(h, key, filter)
  {
    hide MayMatch, Satisfied, Hash64;
  }

  lemma KeyHashed(h: HashFn, keys: seq<Key>, seed: Word32, key: Key)
    requires key in keys
    ensures Hash64(h, key, seed) in Hashes(h, keys, seed)
  {
    hide Hash64, StrictlyIncreasing;
    var i :| 0 <= i < |keys| && keys[i] == key;
    UniqueHashesAre(h, keys, seed, |keys|);
  }
}
