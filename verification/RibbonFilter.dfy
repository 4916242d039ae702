/** The Ribbon filter policy: hash derivation, encoding choice, queries, and no false negatives. */
module RibbonFilter {
  import opened Words
  import opened Packing
  import opened Ribbon
  import Bloom

  type Key = seq<Byte>
  /** LevelDB's Hash(data, size, seed), unconstrained. */
  type HashFn = (Key, Word32) -> Word32

  const SECOND_HASH_DELTA: Word32 := 0x7F4A_7C15
  const COEFFICIENT_SEED_DELTA: Word32 := 0x1234_5678
  const BLOOM_SEED: Word32 := 0xbc9f_1d34
  const MAX_SEED_TRIES: Word32 := 64
  const MAGIC: Byte := 0xB7
  const EMPTY: Byte := 0
  const RIBBON: Byte := 1
  const BLOOM: Byte := 2
  const ALWAYS_MATCH: Byte := 3

  function AddWrap(a: Word32, b: Word32): Word32 { (a + b) % 0x1_0000_0000 }

  function Hash64(h: HashFn, key: Key, seed: Word32): Word64 {
    var high: nat, low: nat := h(key, seed), h(key, AddWrap(seed, SECOND_HASH_DELTA));
    high * 0x1_0000_0000 + low
  }

  /** The equation of one key. */
  function RowOf(h: HashFn, key: Key, seed: Word32, slots: Word32, bits: nat): Row
    requires slots >= RIBBON_WIDTH
  {
    var resultHash := Hash64(h, key, seed);
    var coefficientHash := Hash64(h, key, AddWrap(seed, COEFFICIENT_SEED_DELTA));
    Row(FastRange32(resultHash / 0x1_0000_0000, slots - RIBBON_WIDTH + 1),
        Or(coefficientHash, 1),
        Mask(resultHash % 0x1_0000_0000, bits))
  }

  lemma RowOfFits(h: HashFn, key: Key, seed: Word32, slots: Word32, bits: nat)
    requires slots >= RIBBON_WIDTH
    ensures RowFits(RowOf(h, key, seed, slots, bits), slots, bits)
  {
    var resultHash := Hash64(h, key, seed);
    var coefficientHash := Hash64(h, key, AddWrap(seed, COEFFICIENT_SEED_DELTA));
    FastRangeBound(resultHash / 0x1_0000_0000, slots - RIBBON_WIDTH + 1);
    MaskIsLow(resultHash % 0x1_0000_0000, bits);
    OrOne(coefficientHash);
  }

  lemma OrOne(w: Word64)
    ensures 0 < Or(w, 1) < 0x1_0000_0000_0000_0000
  {
    assert Or(w / 2, 0) == w / 2;
  }

  function RowsOf(h: HashFn, keys: seq<Key>, seed: Word32, slots: Word32, bits: nat): seq<Row>
    requires slots >= RIBBON_WIDTH
  {
    seq(|keys|, i requires 0 <= i < |keys| => RowOf(h, keys[i], seed, slots, bits))
  }

  /** std::sort with RibbonRowStartLess, as an insertion sort. */
  function SortRows(rows: seq<Row>): seq<Row> {
    if |rows| == 0 then [] else InsertByStart(rows[0], SortRows(rows[1..]))
  }

  function InsertByStart(r: Row, rows: seq<Row>): seq<Row> {
    if |rows| == 0 || r.start <= rows[0].start then [r] + rows else [rows[0]] + InsertByStart(r, rows[1..])
  }

  lemma {:induction false} InsertSame(r: Row, rows: seq<Row>)
    ensures forall x :: x in InsertByStart(r, rows) <==> x == r || x in rows
  {
    if |rows| > 0 {
      InsertSame(r, rows[1..]);
      assert rows == [rows[0]] + rows[1..];
    }
  }

  lemma {:induction false} SortSame(rows: seq<Row>)
    ensures forall x :: x in SortRows(rows) <==> x in rows
  {
    if |rows| > 0 {
      SortSame(rows[1..]);
      InsertSame(rows[0], SortRows(rows[1..]));
      assert rows == [rows[0]] + rows[1..];
    }
  }

  lemma SameRowsSolved(a: seq<Row>, b: seq<Row>, sol: seq<nat>)
    requires forall x :: x in a <==> x in b
    ensures SolvesRows(sol, a) <==> SolvesRows(sol, b)
  {
    assert SolvesRows(sol, a) <==> forall x :: x in a ==> Solves(sol, x);
    assert SolvesRows(sol, b) <==> forall x :: x in b ==> Solves(sol, x);
  }

  // ---- what a stored filter means --------------------------------------------------------------

  /** The answer a stored filter gives for a key. */
  ghost predicate MayMatch(h: HashFn, key: Key, filter: seq<Byte>) {
    |filter| < TRAILER_SIZE ||
    var t := DecodeTrailer(filter);
    var payload := filter[..|filter| - TRAILER_SIZE];
    || t.magic != MAGIC || t.version != FORMAT_VERSION
    || (t.kind == EMPTY && |payload| != 0)
    || t.kind == ALWAYS_MATCH
    || (t.kind == BLOOM && BloomMatch(h, key, payload, t))
    || (t.kind == RIBBON && RibbonMatch(h, key, payload, t))
    || t.kind > ALWAYS_MATCH
  }

  ghost predicate BloomMatch(h: HashFn, key: Key, payload: seq<Byte>, t: Trailer) {
    Bloom.Matches(payload, t.length, h(key, BLOOM_SEED), t.aux)
  }

  predicate RibbonShape(payload: seq<Byte>, t: Trailer) {
    1 <= t.aux <= 16 && t.length >= RIBBON_WIDTH && |payload| == PackedByteSize(t.length, t.aux)
  }

  /** A well-shaped Ribbon payload matches exactly the keys whose equation its slots satisfy. */
  ghost predicate RibbonMatch(h: HashFn, key: Key, payload: seq<Byte>, t: Trailer) {
    RibbonShape(payload, t) ==> Solves(Unpack(payload, t.length, t.aux), RowOf(h, key, t.seed, t.length, t.aux))
  }

  // ---- queries ---------------------------------------------------------------------------------

  /** KeyMayMatch computes exactly MayMatch: no read leaves the payload and no early exit changes the answer. */
  method KeyMayMatch(h: HashFn, key: Key, filter: seq<Byte>) returns (m: bool)
    ensures m <==> MayMatch(h, key, filter)
  {
    if |filter| < TRAILER_SIZE { return true; }
    var t := DecodeTrailer(filter);
    var payload := filter[..|filter| - TRAILER_SIZE];
    if t.magic != MAGIC || t.version != FORMAT_VERSION { return true; }
    if t.kind == EMPTY { return |payload| != 0; }
    if t.kind == ALWAYS_MATCH { return true; }
    if t.kind == BLOOM {
      m := Bloom.MayMatch(h(key, BLOOM_SEED), payload, t.length, t.aux);
      return;
    }
    if t.kind != RIBBON { return true; }
    if !RibbonShape(payload, t) { return true; }
    RowOfFits(h, key, t.seed, t.length, t.aux);
    m := CheckRow(payload, t.length, t.aux, RowOf(h, key, t.seed, t.length, t.aux));
  }

  /** What is left of the query: `actual` holds the slots read so far. */
  ghost predicate Partial(sol: seq<nat>, slots: nat, bits: nat, row: Row, p: nat, c: nat, actual: nat) {
    && |sol| == slots && p <= slots && c < Pow2(slots - p) && actual < Pow2(bits)
    && Xor(actual, Eval(sol, p, c)) == Eval(sol, row.start, row.coefficients)
  }

  /** The query loop over the set coefficient bits. */
  method CheckRow(payload: seq<Byte>, slots: Word32, bits: nat, row: Row) returns (m: bool)
    requires 1 <= bits <= 16 && |payload| == PackedByteSize(slots, bits) && RowFits(row, slots, bits)
    ensures m <==> Solves(Unpack(payload, slots, bits), row)
  {
    ghost var sol := Unpack(payload, slots, bits);
    RowInside(row, slots, bits);
    var position: nat, coefficients: nat, actual: nat := row.start, row.coefficients, 0;
    hide RowFits, Unpack;
    while coefficients != 0
      invariant Partial(sol, slots, bits, row, position, coefficients, actual)
      decreases slots - position
    {
      NextSlot(sol, slots, bits, row, position, coefficients, actual);
      var zeros := Ctz(coefficients);
      position, coefficients := position + zeros, Shr(coefficients, zeros);
      var value := ReadSlot(payload, slots, bits, position);
      actual := Xor(actual, value);
      coefficients, position := Shr(coefficients, 1), position + 1;
    }
    MaskIsLow(actual, bits);
    LowSmall(actual, bits);
    return Mask(actual, bits) == row.result;
  }

  lemma NextSlot(sol: seq<nat>, slots: nat, bits: nat, row: Row, p: nat, c: nat, actual: nat)
    requires c != 0 && Partial(sol, slots, bits, row, p, c, actual)
    ensures p + Ctz(c) < slots
    ensures sol[p + Ctz(c)] < Pow2(bits) ==>
              Partial(sol, slots, bits, row, p + Ctz(c) + 1, Shr(Shr(c, Ctz(c)), 1), Xor(actual, sol[p + Ctz(c)]))
  {
    var q, d := p + Ctz(c), Shr(c, Ctz(c));
    NextBounds(slots, p, c);
    NextSum(sol, p, c, actual);
    if sol[q] < Pow2(bits) { XorBound(actual, sol[q], bits); }
  }

  /** The next set bit lies inside the table, and so do the bits after it. */
  lemma NextBounds(slots: nat, p: nat, c: nat)
    requires c != 0 && p <= slots && c < Pow2(slots - p)
    ensures p + Ctz(c) < slots && Shr(Shr(c, Ctz(c)), 1) < Pow2(slots - (p + Ctz(c) + 1))
  {
    CtzBound(c, slots - p);
    ShrBound(Shr(c, Ctz(c)), 1, slots - p - Ctz(c) - 1);
  }

  lemma NextSum(sol: seq<nat>, p: nat, c: nat, actual: nat)
    requires c != 0 && p + Ctz(c) < |sol|
    ensures var q, d := p + Ctz(c), Shr(c, Ctz(c));
            Xor(actual, Eval(sol, p, c)) == Xor(Xor(actual, sol[q]), Eval(sol, q + 1, Shr(d, 1)))
  {
    var q, d := p + Ctz(c), Shr(c, Ctz(c));
    ShrCtzOdd(c);
    EvalShift(sol, p, c);
    NextHead(sol, q, d, actual);
  }

  lemma NextHead(sol: seq<nat>, q: nat, d: nat, actual: nat)
    requires d % 2 == 1 && q < |sol|
    ensures Xor(actual, Eval(sol, q, d)) == Xor(Xor(actual, sol[q]), Eval(sol, q + 1, Shr(d, 1)))
  {
    EvalHead(sol, q, d);
    assert Shr(d, 1) == d / 2;
    XorAssoc(actual, sol[q], Eval(sol, q + 1, d / 2));
  }

  // ---- construction ----------------------------------------------------------------------------

  /** TryBuildRibbon: succeeds exactly when the keys' GF(2) system is consistent. */
  method TryBuildRibbon(h: HashFn, keys: seq<Key>, slots: Word32, bits: nat,
                        seed: Word32) returns (ok: bool, encoded: seq<Byte>)
    requires 1 <= bits <= 16
    ensures ok <==> slots >= RIBBON_WIDTH && Consistent(RowsOf(h, keys, seed, slots, bits), slots)
    ensures ok && slots < 0x8000_0000 ==> exists sol :: EncodesSolved(h, keys, slots, bits, seed, encoded, sol)
    ensures ok && slots > 0x8000_0000 ==>
              forall key :: MayMatch(h, key, encoded) <==> RowOf(h, key, seed, slots, bits).result == 0
    ensures ok && slots == 0x8000_0000 ==> exists sol :: EncodesOwnResults(h, keys, slots, bits, seed, encoded, sol)
    ensures ok ==> EndsIn(encoded, Trailer(seed, slots, bits, RIBBON, FORMAT_VERSION, MAGIC))
  {
    if slots < RIBBON_WIDTH { return false, []; }
    var sorted := SortRows(RowsOf(h, keys, seed, slots, bits));
    SortedFits(h, keys, seed, slots, bits);
    SortedConsistent(RowsOf(h, keys, seed, slots, bits), slots);
    var sol;
    ok, sol := SolveRows(sorted, slots, bits);
    encoded := [];
    if ok {
      encoded := EncodeSolution(h, sol, slots, bits, seed);
      assert slots == 0x8000_0000 ==> EncodesOwnResults(h, keys, slots, bits, seed, encoded, sol);
      if slots < 0x8000_0000 {
        SortSame(RowsOf(h, keys, seed, slots, bits));
        SameRowsSolved(sorted, RowsOf(h, keys, seed, slots, bits), sol);
        assert EncodesSolved(h, keys, slots, bits, seed, encoded, sol);
      }
      if slots > 0x8000_0000 { ZerosSolve(h, slots, bits, seed); }
      hide RowOf, RowsOf, MayMatch, SortRows, Consistent, Solves, EndsIn;
    }
  }

  /** The encoding below 2^31 slots: any key matches exactly when the solution of the keys' rows satisfies its row. */
  ghost predicate EncodesSolved(h: HashFn, keys: seq<Key>, slots: Word32, bits: nat, seed: Word32,
                                encoded: seq<Byte>, sol: seq<nat>)
    requires slots >= RIBBON_WIDTH
  {
    && |sol| == slots && SolvesRows(sol, RowsOf(h, keys, seed, slots, bits))
    && BackSolved(SortRows(RowsOf(h, keys, seed, slots, bits)), slots, bits, sol)
    && forall key :: MayMatch(h, key, encoded) <==> Solves(sol, RowOf(h, key, seed, slots, bits))
  }

  lemma ZerosSolve(h: HashFn, slots: Word32, bits: nat, seed: Word32)
    requires slots >= RIBBON_WIDTH
    ensures forall key ::
              var row := RowOf(h, key, seed, slots, bits); Solves(seq(slots, _ => 0), row) <==> row.result == 0
  {
    forall key
      ensures var row := RowOf(h, key, seed, slots, bits); Solves(seq(slots, _ => 0), row) <==> row.result == 0
    {
      EvalZeros(slots, RowOf(h, key, seed, slots, bits).start, RowOf(h, key, seed, slots, bits).coefficients);
    }
  }

  /** The encoding at 2^31 slots: a key matches exactly when the unsubstituted pivot results satisfy its row. */
  ghost predicate EncodesOwnResults(h: HashFn, keys: seq<Key>, slots: Word32, bits: nat, seed: Word32,
                                    encoded: seq<Byte>, sol: seq<nat>)
    requires slots >= RIBBON_WIDTH
  {
    && |sol| == slots && OwnResults(SortRows(RowsOf(h, keys, seed, slots, bits)), slots, bits, sol)
    && forall key :: MayMatch(h, key, encoded) <==> Solves(sol, RowOf(h, key, seed, slots, bits))
  }

  /** The packed solution and its trailer. */
  method EncodeSolution(h: HashFn, sol: seq<nat>, slots: Word32, bits: nat, seed: Word32) returns (encoded: seq<Byte>)
    requires 1 <= bits <= 16 && |sol| == slots >= RIBBON_WIDTH && AllBelow(sol, bits)
    ensures forall key :: MayMatch(h, key, encoded) <==> Solves(sol, RowOf(h, key, seed, slots, bits))
    ensures EndsIn(encoded, Trailer(seed, slots, bits, RIBBON, FORMAT_VERSION, MAGIC))
  {
    var payload := AppendPackedValues(sol, bits);
    var t := Trailer(seed, slots, bits, RIBBON, FORMAT_VERSION, MAGIC);
    encoded := payload + EncodeTrailer(t);
    TrailerRoundTrip(payload, t);
    forall key ensures MayMatch(h, key, encoded) <==> Solves(sol, RowOf(h, key, seed, slots, bits)) {
      EncodedMatches(h, key, payload, sol, t);
    }
  }

  lemma SortedFits(h: HashFn, keys: seq<Key>, seed: Word32, slots: Word32, bits: nat)
    requires slots >= RIBBON_WIDTH
    ensures var sorted := SortRows(RowsOf(h, keys, seed, slots, bits));
            forall i :: 0 <= i < |sorted| ==> RowFits(sorted[i], slots, bits)
  {
    var rows := RowsOf(h, keys, seed, slots, bits);
    var sorted := SortRows(rows);
    SortSame(rows);
    forall i | 0 <= i < |sorted| ensures RowFits(sorted[i], slots, bits) {
      assert sorted[i] in rows;
      var j :| 0 <= j < |rows| && rows[j] == sorted[i];
      RowOfFits(h, keys[j], seed, slots, bits);
    }
  }

  lemma SortedConsistent(rows: seq<Row>, slots: nat)
    ensures Consistent(SortRows(rows), slots) <==> Consistent(rows, slots)
  {
    SortSame(rows);
    forall sol: seq<nat> ensures SolvesRows(sol, SortRows(rows)) <==> SolvesRows(sol, rows) {
      SameRowsSolved(SortRows(rows), rows, sol);
    }
  }

  lemma EncodedMatches(h: HashFn, key: Key, payload: seq<Byte>, sol: seq<nat>, t: Trailer)
    requires t.kind == RIBBON && t.version == FORMAT_VERSION && t.magic == MAGIC && RibbonShape(payload, t)
    requires |sol| == t.length && AllBelow(sol, t.aux) && FieldAt(ByteBits(payload), 0, ValueBits(sol, t.aux))
    ensures MayMatch(h, key, payload + EncodeTrailer(t)) <==> Solves(sol, RowOf(h, key, t.seed, t.length, t.aux))
  {
    TrailerRoundTrip(payload, t);
    UnpackPacked(payload, sol, t.length, t.aux);
  }

  function BloomHashes(h: HashFn, keys: seq<Key>): seq<Word32> {
    seq(|keys|, i requires 0 <= i < |keys| => h(keys[i], BLOOM_SEED))
  }

  /** What a Bloom filter of the keys answers: yes to a key exactly when all its probes are probes of keys; always yes
      when the bits do not fit. */
  ghost predicate BloomAnswers(h: HashFn, keys: seq<Key>, bitsPerKey: nat, filter: seq<Byte>) {
    var bitCount, probes := Bloom.BitCount(|keys|, bitsPerKey), Bloom.ProbeCount(bitsPerKey);
    && EndsIn(filter, if bitCount == 0 then Trailer(0, 0, 0, ALWAYS_MATCH, FORMAT_VERSION, MAGIC)
                      else Trailer(0, bitCount, probes, BLOOM, FORMAT_VERSION, MAGIC))
    && forall key ::
         MayMatch(h, key, filter) <==>
           bitCount == 0 || Bloom.AllHit(BloomHashes(h, keys), bitCount, probes, h(key, BLOOM_SEED))
  }

  /** BuildBloomEncoding. */
  method BuildBloom(h: HashFn, keys: seq<Key>, bitsPerKey: nat) returns (encoded: seq<Byte>)
    ensures BloomAnswers(h, keys, bitsPerKey, encoded)
    ensures var bitCount := Bloom.BitCount(|keys|, bitsPerKey); |encoded| == bitCount / 8 + TRAILER_SIZE
  {
    var bitCount := Bloom.BitCount(|keys|, bitsPerKey);
    if bitCount == 0 {
      encoded := EncodeTrailer(Trailer(0, 0, 0, ALWAYS_MATCH, FORMAT_VERSION, MAGIC));
      TrailerRoundTrip([], Trailer(0, 0, 0, ALWAYS_MATCH, FORMAT_VERSION, MAGIC));
      assert [] + encoded == encoded;
      return;
    }
    var probes := Bloom.ProbeCount(bitsPerKey);
    var payload := Bloom.Build(BloomHashes(h, keys), bitCount, probes);
    var t := Trailer(0, bitCount, probes, BLOOM, FORMAT_VERSION, MAGIC);
    encoded := payload + EncodeTrailer(t);
    TrailerRoundTrip(payload, t);
    BloomEncoded(h, payload, t);
    forall key
      ensures MayMatch(h, key, encoded) <==>
                Bloom.AllHit(BloomHashes(h, keys), bitCount, probes, h(key, BLOOM_SEED))
    {
      Bloom.HoldsAnswers(payload, bitCount, BloomHashes(h, keys), probes, h(key, BLOOM_SEED));
    }
  }

  lemma BloomEncoded(h: HashFn, payload: seq<Byte>, t: Trailer)
    requires t.kind == BLOOM && t.version == FORMAT_VERSION && t.magic == MAGIC
    requires t.length >= 64 && t.length % 8 == 0 && 1 <= t.aux <= 30 && |payload| == t.length / 8
    ensures forall key :: MayMatch(h, key, payload + EncodeTrailer(t)) <==>
              Bloom.AllSet(payload, t.length, h(key, BLOOM_SEED), t.aux)
  {
    TrailerRoundTrip(payload, t);
    hide Bloom.AllSet;
    assert Bloom.Probed(payload, t.length, t.aux);
  }

  function SlotCount(n: nat): Word32 {
    if n == 0 then 0
    else
      var slots := if n < RIBBON_WIDTH then RIBBON_WIDTH + n else (n * 105 + 99) / 100;
      if slots > 0xffff_ffff then 0 else slots
  }

  /** The key counts, among those an int can hold, for which the slot count fits a signed int. */
  lemma SlotCountFits(n: nat)
    requires n < 0x8000_0000
    ensures SlotCount(n) < 0x8000_0000 <==> n <= 2_045_222_520
  {
  }

  /** The sizes for which CreateFilter tries Ribbon seeds. */
  predicate TriesRibbon(n: nat, bitsPerKey: nat) {
    && n > 0 && SlotCount(n) != 0
    && PackedByteSize(SlotCount(n), Bloom.ValueWidth(bitsPerKey)) + TRAILER_SIZE < Bloom.EncodedSize(n, bitsPerKey)
  }

  ghost predicate Builds(h: HashFn, keys: seq<Key>, bitsPerKey: nat, seed: Word32) {
    var slots, bits := SlotCount(|keys|), Bloom.ValueWidth(bitsPerKey);
    slots >= RIBBON_WIDTH && Consistent(RowsOf(h, keys, seed, slots, bits), slots)
  }

  /** `seed` is the first of the tried seeds whose equations can be solved. */
  ghost predicate Chosen(h: HashFn, keys: seq<Key>, bitsPerKey: nat, seed: Word32) {
    && TriesRibbon(|keys|, bitsPerKey) && seed < MAX_SEED_TRIES && Builds(h, keys, bitsPerKey, seed)
    && forall s: Word32 :: s < seed ==> !Builds(h, keys, bitsPerKey, s)
  }

  /** What a Ribbon filter of the keys answers for them, for each range of slot counts. */
  ghost predicate RibbonAnswers(h: HashFn, keys: seq<Key>, bitsPerKey: nat, seed: Word32, filter: seq<Byte>) {
    var slots, bits := SlotCount(|keys|), Bloom.ValueWidth(bitsPerKey);
    && slots >= RIBBON_WIDTH && EndsIn(filter, Trailer(seed, slots, bits, RIBBON, FORMAT_VERSION, MAGIC))
    && (slots < 0x8000_0000 ==> exists sol :: EncodesSolved(h, keys, slots, bits, seed, filter, sol))
    && (slots == 0x8000_0000 ==> exists sol :: EncodesOwnResults(h, keys, slots, bits, seed, filter, sol))
    && (slots > 0x8000_0000 ==> forall key ::
          MayMatch(h, key, filter) <==> RowOf(h, key, seed, slots, bits).result == 0)
  }

  /** What CreateFilter promises, for every key, added or not: a filter of no keys matches nothing; otherwise a Ribbon
      filter with the first seed that can be solved answers, or a Bloom filter if there is none. */
  ghost predicate FilterOf(h: HashFn, keys: seq<Key>, bitsPerKey: nat, filter: seq<Byte>) {
    && (keys == [] ==> forall key :: !MayMatch(h, key, filter))
    && (forall seed: Word32 :: Chosen(h, keys, bitsPerKey, seed) ==> RibbonAnswers(h, keys, bitsPerKey, seed, filter))
    && (keys != [] && (forall seed: Word32 :: !Chosen(h, keys, bitsPerKey, seed)) ==>
          BloomAnswers(h, keys, bitsPerKey, filter))
  }

  method CreateFilter(h: HashFn, keys: seq<Key>, bitsPerKey: nat) returns (filter: seq<Byte>)
    ensures FilterOf(h, keys, bitsPerKey, filter)
  {
    hide Builds, RibbonAnswers, MayMatch, Consistent, RowsOf, BloomAnswers;
    var bits := Bloom.ValueWidth(bitsPerKey);
    if |keys| == 0 {
      filter := EncodeTrailer(Trailer(0, 0, 0, EMPTY, FORMAT_VERSION, MAGIC));
      EmptyMatchesNothing(h);
      return;
    }
    var slots := SlotCount(|keys|);
    if slots == 0 || PackedByteSize(slots, bits) + TRAILER_SIZE >= Bloom.EncodedSize(|keys|, bitsPerKey) {
      filter := BuildBloom(h, keys, bitsPerKey);
      return;
    }
    for seed := 0 to MAX_SEED_TRIES
      invariant forall s: Word32 :: s < seed ==> !Builds(h, keys, bitsPerKey, s)
    {
      var ok, encoded := TrySeed(h, keys, bitsPerKey, seed);
      if ok {
        FirstIsChosen(h, keys, bitsPerKey, seed);
        assert Chosen(h, keys, bitsPerKey, seed);
        return encoded;
      }
    }
    filter := BuildBloom(h, keys, bitsPerKey);
  }

  lemma EmptyMatchesNothing(h: HashFn)
    ensures forall key :: !MayMatch(h, key, EncodeTrailer(Trailer(0, 0, 0, EMPTY, FORMAT_VERSION, MAGIC)))
  {
    var t := Trailer(0, 0, 0, EMPTY, FORMAT_VERSION, MAGIC);
    TrailerRoundTrip([], t);
    assert [] + EncodeTrailer(t) == EncodeTrailer(t);
    hide BloomMatch, RibbonMatch;
  }

  lemma FirstIsChosen(h: HashFn, keys: seq<Key>, bitsPerKey: nat, seed: Word32)
    requires TriesRibbon(|keys|, bitsPerKey) && seed < MAX_SEED_TRIES && Builds(h, keys, bitsPerKey, seed)
    requires forall s: Word32 :: s < seed ==> !Builds(h, keys, bitsPerKey, s)
    ensures forall s: Word32 :: Chosen(h, keys, bitsPerKey, s) <==> s == seed
  {
    hide Builds, TriesRibbon;
  }

  method TrySeed(h: HashFn, keys: seq<Key>, bitsPerKey: nat, seed: Word32) returns (ok: bool, encoded: seq<Byte>)
    ensures ok <==> Builds(h, keys, bitsPerKey, seed)
    ensures ok ==> RibbonAnswers(h, keys, bitsPerKey, seed, encoded)
  {
    hide MayMatch, Consistent, RowsOf, EncodesOwnResults, EncodesSolved, RowOf;
    ok, encoded := TryBuildRibbon(h, keys, SlotCount(|keys|), Bloom.ValueWidth(bitsPerKey), seed);
  }

  /** No false negatives, on every encoding path, whenever the slot count fits a signed 32-bit int. */
  lemma NoFalseNegatives(h: HashFn, keys: seq<Key>, bitsPerKey: nat, filter: seq<Byte>, key: Key)
    requires FilterOf(h, keys, bitsPerKey, filter) && SlotCount(|keys|) < 0x8000_0000 && key in keys
    ensures MayMatch(h, key, filter)
  {
    hide Chosen, MayMatch, RowOf, EncodesOwnResults, BackSolved, Bloom.AllHit;
    var i :| 0 <= i < |keys| && keys[i] == key;
    if seed: Word32 :| Chosen(h, keys, bitsPerKey, seed) {
      assert RibbonAnswers(h, keys, bitsPerKey, seed, filter);
      AddedMatches(h, keys, bitsPerKey, seed, filter, i);
    } else {
      assert BloomAnswers(h, keys, bitsPerKey, filter);
      assert BloomHashes(h, keys)[i] == h(key, BLOOM_SEED);
      var bitCount := Bloom.BitCount(|keys|, bitsPerKey);
      if bitCount != 0 {
        Bloom.AddedHits(BloomHashes(h, keys), bitCount, Bloom.ProbeCount(bitsPerKey), h(key, BLOOM_SEED));
      }
    }
  }

  lemma AddedMatches(h: HashFn, keys: seq<Key>, bitsPerKey: nat, seed: Word32, filter: seq<Byte>, i: nat)
    requires RibbonAnswers(h, keys, bitsPerKey, seed, filter) && SlotCount(|keys|) < 0x8000_0000 && i < |keys|
    ensures MayMatch(h, keys[i], filter)
  {
    var slots, bits := SlotCount(|keys|), Bloom.ValueWidth(bitsPerKey);
    hide MayMatch, RowOf, BackSolved, Solves;
    var sol :| EncodesSolved(h, keys, slots, bits, seed, filter, sol);
    assert RowsOf(h, keys, seed, slots, bits)[i] == RowOf(h, keys[i], seed, slots, bits);
    assert Solves(sol, RowsOf(h, keys, seed, slots, bits)[i]);
  }

  // ---- past 2^31 slots -------------------------------------------------------------------------

  lemma {:induction false} ZeroEval(sol: seq<nat>, p: nat, c: nat)
    requires forall i :: p <= i < |sol| ==> sol[i] == 0
    ensures Eval(sol, p, c) == 0
    decreases c
  {
    if c != 0 {
      EvalHead(sol, p, c);
      ZeroEval(sol, p + 1, c / 2);
      assert Xor(0, 0) == 0;
    }
  }

  /** One row, however often it is repeated, can be solved. */
  lemma OneRowConsistent(rows: seq<Row>, row: Row, slots: nat)
    requires (forall i :: 0 <= i < |rows| ==> rows[i] == row) && row.start < slots && row.coefficients % 2 == 1
    ensures Consistent(rows, slots)
  {
    var sol := seq(slots, i => if i == row.start then row.result else 0);
    EvalHead(sol, row.start, row.coefficients);
    ZeroEval(sol, row.start + 1, row.coefficients / 2);
    assert Xor(row.result, 0) == row.result;
    assert SolvesRows(sol, rows);
  }

  lemma OrOneOdd(w: nat)
    ensures Or(w, 1) % 2 == 1
  {
  }

  lemma CopiesConsistent(h: HashFn, key: Key, n: nat, slots: Word32, bits: nat)
    requires slots >= RIBBON_WIDTH
    ensures Consistent(RowsOf(h, seq(n, _ => key), 0, slots, bits), slots)
  {
    var row := RowOf(h, key, 0, slots, bits);
    RowOfFits(h, key, 0, slots, bits);
    OrOneOdd(Hash64(h, key, AddWrap(0, COEFFICIENT_SEED_DELTA)));
    assert row.coefficients % 2 == 1;
    hide RowOf, Consistent;
    OneRowConsistent(RowsOf(h, seq(n, _ => key), 0, slots, bits), row, slots);
  }

  /** The key counts past `SlotCountFits`: ten bits per key make the Bloom filter too large, so Ribbon is tried. */
  lemma LargeTriesRibbon(n: nat)
    requires 2_045_222_521 < n < 0x8000_0000
    ensures TriesRibbon(n, 10) && 0x8000_0000 < SlotCount(n)
  {
  }

  /** Copies of one key are consistent at once, so the first seed is taken. */
  lemma CopiesBuild(h: HashFn, key: Key, n: nat)
    requires 2_045_222_521 < n < 0x8000_0000
    ensures Chosen(h, seq(n, _ => key), 10, 0) && SlotCount(n) > 0x8000_0000
  {
    LargeTriesRibbon(n);
    CopiesConsistent(h, key, n, SlotCount(n), Bloom.ValueWidth(10));
    hide TriesRibbon, Consistent, RowsOf, SlotCount;
    assert Builds(h, seq(n, _ => key), 10, 0);
  }

  /** Past 2^31 slots a filter of one key, repeated, turns that key away unless its result bits happen to be zero. */
  lemma TurnedAway(h: HashFn, key: Key, n: nat, filter: seq<Byte>)
    requires 2_045_222_521 < n < 0x8000_0000 && FilterOf(h, seq(n, _ => key), 10, filter)
    ensures MayMatch(h, key, filter) <==> Mask(h(key, SECOND_HASH_DELTA), Bloom.ValueWidth(10)) == 0
  {
    hide Chosen, MayMatch, RowOf, EncodesOwnResults;
    CopiesBuild(h, key, n);
    FirstResult(h, key, SlotCount(n), Bloom.ValueWidth(10));
    var keys := seq(n, _ => key);
    assert keys[0] == key && key in keys;
    hide FilterOf, SlotCount;
    ChosenAnswers(h, keys, filter, 0);
    assert RibbonAnswers(h, keys, 10, 0, filter);
  }

  lemma ChosenAnswers(h: HashFn, keys: seq<Key>, filter: seq<Byte>, seed: Word32)
    requires FilterOf(h, keys, 10, filter) && Chosen(h, keys, 10, seed)
    ensures RibbonAnswers(h, keys, 10, seed, filter)
  {
    hide Chosen, RibbonAnswers, MayMatch;
  }

  lemma FirstResult(h: HashFn, key: Key, slots: Word32, bits: nat)
    requires slots >= RIBBON_WIDTH
    ensures RowOf(h, key, 0, slots, bits).result == Mask(h(key, SECOND_HASH_DELTA), bits)
  {
    var low: nat := h(key, SECOND_HASH_DELTA);
    assert Hash64(h, key, 0) % 0x1_0000_0000 == low;
  }
}
