/** A table as the bytes of its file: internal keys, block handles, stored blocks, and the point lookup over them. */
module TableBytes {
  import opened Words
  import opened Coding
  import opened Wrappers
  import opened LogFormat
  import opened Blocks
  import opened BlockIter
  import opened Separators
  import opened FilterBlocks
  import opened Tables

  // ---- internal keys as bytes --------------------------------------------------------------------

  const TAG_LIMIT: nat := 0x1_0000_0000_0000_0000

  /** The user key followed by the trailer. */
  function KeyBytes(k: IKey): seq<Byte> { k.user + Fixed(k.tag, 8) }

  const BASE_OF_DIGITS: real := 258.0

  /** A user key as the digits of a fraction, each byte one more than its value, ended by a zero digit and `rest`. */
  function UserRank(user: seq<Byte>, rest: real): real {
    if |user| == 0 then rest / BASE_OF_DIGITS
    else ((user[0] as int + 1) as real + UserRank(user[1..], rest)) / BASE_OF_DIGITS
  }

  /** Larger trailers come first. */
  function TagRank(tag: nat): real { (TAG_LIMIT - 1 - tag) as real / TAG_LIMIT as real }

  function KeyRank(k: IKey): real { UserRank(k.user, TagRank(k.tag)) }

  /** InternalKeyComparator as a ranking of byte strings. */
  function RankOf(bytes: seq<Byte>): real {
    if |bytes| < 8 then 0.0 else UserRank(bytes[..|bytes| - 8], TagRank(ReadFixed(bytes, |bytes| - 8, 8)))
  }

  lemma Limit()
    ensures Pow256(8) == TAG_LIMIT
  {
    assert Pow256(4) == 0x1_0000_0000;
  }

  lemma RankOfKey(k: IKey)
    requires k.tag < TAG_LIMIT
    ensures RankOf(KeyBytes(k)) == KeyRank(k)
  {
    var bytes := KeyBytes(k);
    Limit();
    AtEnd(k.user, Fixed(k.tag, 8));
    ReadFixedAt(bytes, |k.user|, k.tag, 8);
    assert bytes[..|bytes| - 8] == k.user;
  }

  lemma {:induction false} UserRankBounds(user: seq<Byte>, rest: real)
    requires 0.0 <= rest < 1.0
    ensures 0.0 <= UserRank(user, rest) < 1.0 && (|user| == 0 ==> UserRank(user, rest) < 1.0 / BASE_OF_DIGITS)
  {
    if |user| > 0 { UserRankBounds(user[1..], rest); }
  }

  lemma {:induction false} UserRankLess(a: seq<Byte>, b: seq<Byte>, r: real, s: real)
    requires 0.0 <= r < 1.0 && 0.0 <= s < 1.0 && Lt(a, b)
    ensures UserRank(a, r) < UserRank(b, s)
  {
    UserRankBounds(b[1..], s);
    if |a| > 0 {
      UserRankBounds(a[1..], r);
      if a[0] == b[0] { UserRankLess(a[1..], b[1..], r, s); }
    }
  }

  lemma {:induction false} UserRankSame(user: seq<Byte>, r: real, s: real)
    requires r < s
    ensures UserRank(user, r) < UserRank(user, s)
  {
    if |user| > 0 { UserRankSame(user[1..], r, s); }
  }

  lemma TagRankBounds(tag: nat)
    requires tag < TAG_LIMIT
    ensures 0.0 <= TagRank(tag) < 1.0
  {
  }

  lemma LessRanks(a: IKey, b: IKey)
    requires a.tag < TAG_LIMIT && b.tag < TAG_LIMIT && ILess(a, b)
    ensures KeyRank(a) < KeyRank(b)
  {
    TagRankBounds(a.tag);
    TagRankBounds(b.tag);
    if Lt(a.user, b.user) {
      UserRankLess(a.user, b.user, TagRank(a.tag), TagRank(b.tag));
    } else {
      UserRankSame(a.user, TagRank(a.tag), TagRank(b.tag));
    }
  }

  /** The ranking is the order of internal keys. */
  lemma RankIsOrder(a: IKey, b: IKey)
    requires a.tag < TAG_LIMIT && b.tag < TAG_LIMIT
    ensures RankOf(KeyBytes(a)) < RankOf(KeyBytes(b)) <==> ILess(a, b)
  {
    RankOfKey(a);
    RankOfKey(b);
    ITotal(a, b);
    if ILess(a, b) {
      LessRanks(a, b);
    } else if ILess(b, a) {
      LessRanks(b, a);
    }
  }

  lemma {:induction false} IncreasingIntro(es: seq<KV>, rank: Rank)
    requires forall i :: 0 <= i < |es| - 1 ==> rank(es[i].key) < rank(es[i + 1].key)
    ensures Increasing(es, rank)
  {
    if |es| > 1 { IncreasingIntro(es[..|es| - 1], rank); }
  }

  // ---- block handles -----------------------------------------------------------------------------

  datatype Handle = Handle(offset: Word64, size: Word64)

  function HandleBytes(h: Handle): seq<Byte> { Varint(h.offset) + Varint(h.size) }

  /** BlockHandle::DecodeFrom. */
  function DecodeHandle(bytes: seq<Byte>): Option<(nat, nat)> {
    var a := GetVarint64(bytes, 0, |bytes|);
    if a.None? then None
    else
      var b := GetVarint64(bytes, a.value.1, |bytes|);
      if b.None? then None else Some((a.value.0, b.value.0))
  }

  lemma Halves(a: seq<Byte>, b: seq<Byte>)
    ensures At(a + b, 0, a) && At(a + b, |a|, b)
  {
  }

  lemma HandleRoundTrip(h: Handle)
    ensures DecodeHandle(HandleBytes(h)) == Some((h.offset, h.size))
  {
    var bytes := HandleBytes(h);
    Halves(Varint(h.offset), Varint(h.size));
    hide GetVarint64, At;
    GetVarint64At(bytes, 0, |bytes|, h.offset);
    GetVarint64At(bytes, |Varint(h.offset)|, |bytes|, h.size);
  }

  // ---- stored blocks -----------------------------------------------------------------------------

  const BLOCK_TRAILER := 5
  const NO_COMPRESSION: Byte := 0
  const SNAPPY: Byte := 1

  /** Snappy_Uncompress, unconstrained. */
  type Snappy = seq<Byte> -> Option<seq<Byte>>

  /** A block in its file: its bytes there, their compression type, and what they are a block of. */
  datatype Stored = Stored(raw: seq<Byte>, kind: Byte, data: seq<Byte>, z: Blocks.Shape)

  /** WriteRawBlock: the bytes, the type, and the masked checksum of both. */
  function RawBytes(crc: Crc, raw: seq<Byte>, kind: Byte): seq<Byte> {
    raw + [kind] + Fixed32(MaskCrc(crc(raw + [kind])))
  }

  predicate Expands(snappy: Snappy, raw: seq<Byte>, kind: Byte, data: seq<Byte>) {
    (kind == NO_COMPRESSION && raw == data) || (kind == SNAPPY && snappy(raw) == Some(data))
  }

  /** ReadBlock; None is a corruption. */
  method ReadBlock(crc: Crc, snappy: Snappy, verify: bool, file: seq<Byte>, offset: nat, n: nat, ghost raw: seq<Byte>,
                   ghost kind: Byte, ghost data: seq<Byte>)
    returns (r: Option<seq<Byte>>)
    ensures At(file, offset, RawBytes(crc, raw, kind)) && |raw| == n && Expands(snappy, raw, kind, data) ==>
              r == Some(data)
  {
    if At(file, offset, RawBytes(crc, raw, kind)) && |raw| == n { RawParts(crc, file, offset, raw, kind); }
    hide RawBytes, At, DecodeFixed32, MaskCrc, UnmaskCrc;
    if offset + n + BLOCK_TRAILER > |file| {
      return None;
    }
    if verify && UnmaskCrc(DecodeFixed32(file, offset + n + 1)) != crc(file[offset..offset + n + 1]) {
      return None;
    }
    if file[offset + n] == NO_COMPRESSION {
      return Some(file[offset..offset + n]);
    }
    if file[offset + n] == SNAPPY {
      return snappy(file[offset..offset + n]);
    }
    return None;
  }

  lemma RawParts(crc: Crc, file: seq<Byte>, offset: nat, raw: seq<Byte>, kind: Byte)
    requires At(file, offset, RawBytes(crc, raw, kind))
    ensures offset + |raw| + BLOCK_TRAILER <= |file| && file[offset + |raw|] == kind
    ensures file[offset..offset + |raw|] == raw && file[offset..offset + |raw| + 1] == raw + [kind]
    ensures UnmaskCrc(DecodeFixed32(file, offset + |raw| + 1)) == crc(raw + [kind])
  {
    var sum := Fixed32(MaskCrc(crc(raw + [kind])));
    AtConcat(file, offset, raw + [kind], sum);
    AtConcat(file, offset, raw, [kind]);
    AtSlice(file, offset, raw + [kind]);
    AtSlice(file, offset, raw);
    assert file[offset + |raw| + 0] == [kind][0];
    UnmaskMask(crc(raw + [kind]));
    Fixed32At(file, offset + |raw| + 1, MaskCrc(crc(raw + [kind])));
  }

  /** The file after its first `n` blocks; each starts where the previous trailer ends. */
  ghost function FileBytes(crc: Crc, blocks: seq<Stored>, n: nat): seq<Byte>
    requires n <= |blocks|
  {
    if n == 0 then [] else FileBytes(crc, blocks, n - 1) + RawBytes(crc, blocks[n - 1].raw, blocks[n - 1].kind)
  }

  /** The next block starts past this one's trailer. */
  lemma NextOffset(crc: Crc, blocks: seq<Stored>, i: nat)
    requires i < |blocks|
    ensures |FileBytes(crc, blocks, i + 1)| == |FileBytes(crc, blocks, i)| + |blocks[i].raw| + BLOCK_TRAILER
  {
  }

  /** Later writes leave block `i` where it is. */
  lemma {:induction false} StaysInFile(crc: Crc, blocks: seq<Stored>, i: nat, n: nat)
    requires i < n <= |blocks|
    ensures At(FileBytes(crc, blocks, n), |FileBytes(crc, blocks, i)|, RawBytes(crc, blocks[i].raw, blocks[i].kind))
    decreases n
  {
    hide At, RawBytes;
    var front, last := FileBytes(crc, blocks, n - 1), RawBytes(crc, blocks[n - 1].raw, blocks[n - 1].kind);
    if i == n - 1 {
      AtEnd(front, last);
    } else {
      StaysInFile(crc, blocks, i, n - 1);
      AtPrefix(front, last, |FileBytes(crc, blocks, i)|, RawBytes(crc, blocks[i].raw, blocks[i].kind));
    }
  }

  // ---- a table in its file -----------------------------------------------------------------------

  /** The block holds the entries, keys encoded. */
  ghost predicate EntriesAs(ts: seq<TEntry>, es: seq<KV>) {
    |ts| == |es| && forall i :: 0 <= i < |ts| ==> EntryAs(ts[i], es[i])
  }

  predicate EntryAs(t: TEntry, e: KV) { t.key.tag < TAG_LIMIT && e == KV(KeyBytes(t.key), t.value) }

  /** The index entry leads to a stored block with the entries of that offset. */
  ghost predicate LeadsTo(crc: Crc, snappy: Snappy, file: seq<Byte>, t: Table, ie: IndexEntry, e: KV, b: Stored) {
    && ie.key.tag < TAG_LIMIT && e.key == KeyBytes(ie.key)
    && ie.offset < TAG_LIMIT && |b.raw| < TAG_LIMIT && e.value == HandleBytes(Handle(ie.offset, |b.raw|))
    && At(file, ie.offset, RawBytes(crc, b.raw, b.kind)) && Expands(snappy, b.raw, b.kind, b.data)
    && IsBlock(b.data, b.z) && ie.offset in t.file && EntriesAs(t.file[ie.offset], b.z.es)
  }

  ghost predicate InFile(crc: Crc, snappy: Snappy, file: seq<Byte>, index: seq<Byte>, t: Table, zi: Blocks.Shape,
                         blocks: seq<Stored>) {
    && IsBlock(index, zi) && |zi.es| == |t.index| == |blocks|
    && forall i :: 0 <= i < |blocks| ==> LeadsTo(crc, snappy, file, t, t.index[i], zi.es[i], blocks[i])
  }

  /** Index keys ascend: each is before the next block's first key. */
  lemma IndexAscends(all: seq<TEntry>, bounds: seq<nat>, index: seq<IndexEntry>, file: map<nat, seq<TEntry>>, i: nat)
    requires ISorted(all) && IndexOk(all, bounds, index, file, |all|) && i + 1 < |index|
    ensures ILess(index[i].key, index[i + 1].key)
  {
    BoundsFacts(bounds, |index|, |all|, i);
    BoundsFacts(bounds, |index|, |all|, i + 1);
    var b, c := bounds[i + 1], bounds[i + 2];
    assert Separates(all, b, index[i].key) && Separates(all, c, index[i + 1].key);
    assert b < c - 1 ==> ILess(all[b].key, all[c - 1].key);
    ITotal(all[b].key, all[c - 1].key);
    ITotal(index[i].key, all[b].key);
    ITrans(all[b].key, all[c - 1].key, index[i + 1].key);
    ITrans(index[i].key, all[b].key, index[i + 1].key);
  }

  lemma IndexIncreases(crc: Crc, snappy: Snappy, file: seq<Byte>, index: seq<Byte>, t: Table, zi: Blocks.Shape,
                       blocks: seq<Stored>, all: seq<TEntry>, bounds: seq<nat>)
    requires InFile(crc, snappy, file, index, t, zi, blocks) && ISorted(all)
    requires IndexOk(all, bounds, t.index, t.file, |all|)
    ensures Increasing(zi.es, RankOf)
  {
    forall i | 0 <= i < |zi.es| - 1 ensures RankOf(zi.es[i].key) < RankOf(zi.es[i + 1].key) {
      assert LeadsTo(crc, snappy, file, t, t.index[i], zi.es[i], blocks[i]);
      assert LeadsTo(crc, snappy, file, t, t.index[i + 1], zi.es[i + 1], blocks[i + 1]);
      hide InFile, LeadsTo, ISorted, IndexOk;
      IndexAscends(all, bounds, t.index, t.file, i);
      RankIsOrder(t.index[i].key, t.index[i + 1].key);
    }
    hide InFile, ISorted, IndexOk;
    IncreasingIntro(zi.es, RankOf);
  }

  lemma BlockIncreases(ts: seq<TEntry>, es: seq<KV>)
    requires EntriesAs(ts, es) && ISorted(ts)
    ensures Increasing(es, RankOf)
  {
    forall i | 0 <= i < |es| - 1 ensures RankOf(es[i].key) < RankOf(es[i + 1].key) {
      assert EntryAs(ts[i], es[i]) && EntryAs(ts[i + 1], es[i + 1]);
      RankIsOrder(ts[i].key, ts[i + 1].key);
    }
    IncreasingIntro(es, RankOf);
  }

  /** Where Seek of the block iterator stops is where a scan of the entries stops. */
  lemma SeekIsScan(ts: seq<TEntry>, es: seq<KV>, k: IKey, p: nat)
    requires EntriesAs(ts, es) && k.tag < TAG_LIMIT && p <= |es|
    requires forall j :: 0 <= j < p ==> RankOf(es[j].key) < RankOf(KeyBytes(k))
    requires p < |es| ==> RankOf(KeyBytes(k)) <= RankOf(es[p].key)
    ensures ScanFinds(ts, k, p)
  {
    forall j | 0 <= j < p ensures ILess(ts[j].key, k) {
      assert EntryAs(ts[j], es[j]);
      RankIsOrder(ts[j].key, k);
    }
    if p < |es| {
      assert EntryAs(ts[p], es[p]);
      RankIsOrder(ts[p].key, k);
    }
  }

  /** One block: seek through its bytes. */
  method SeekBlock(data: seq<Byte>, k: IKey, ghost z: Blocks.Shape, ghost ts: seq<TEntry>)
    returns (r: Option<KV>, ghost p: nat)
    requires IsBlock(data, z) && EntriesAs(ts, z.es) && Increasing(z.es, RankOf) && k.tag < TAG_LIMIT
    ensures ScanFinds(ts, k, p) && (r.Some? <==> p < |ts|) && (r.Some? ==> EntryAs(ts[p], r.value))
  {
    hide ScanFinds, RankOf, IsBlock, Increasing;
    var it := new Iter(RankOf, data, z);
    it.Seek(KeyBytes(k));
    it.ValidIff();
    p := it.idx;
    SeekIsScan(ts, z.es, k, p);
    if !it.IsValid() {
      return None, p;
    }
    it.Yields();
    assert EntryAs(ts[p], z.es[p]);
    r := Some(KV(it.key, data[it.valueAt..it.valueAt + it.valueLength]));
  }

  /** The index block as entries. */
  ghost function IndexEntries(index: seq<IndexEntry>, es: seq<KV>): seq<TEntry>
    requires |index| == |es|
  {
    seq(|index|, i requires 0 <= i < |index| => TEntry(index[i].key, es[i].value))
  }

  lemma IndexAsEntries(crc: Crc, snappy: Snappy, file: seq<Byte>, index: seq<Byte>, t: Table, zi: Blocks.Shape,
                       blocks: seq<Stored>)
    requires InFile(crc, snappy, file, index, t, zi, blocks)
    ensures EntriesAs(IndexEntries(t.index, zi.es), zi.es)
  {
    hide IsBlock, EntriesAs, RawBytes, At, HandleBytes;
    forall i | 0 <= i < |zi.es| ensures EntryAs(IndexEntries(t.index, zi.es)[i], zi.es[i]) {
      assert LeadsTo(crc, snappy, file, t, t.index[i], zi.es[i], blocks[i]);
    }
    EntriesIntro(IndexEntries(t.index, zi.es), zi.es);
  }

  lemma EntriesIntro(ts: seq<TEntry>, es: seq<KV>)
    requires |ts| == |es| && forall i :: 0 <= i < |ts| ==> EntryAs(ts[i], es[i])
    ensures EntriesAs(ts, es)
  {
  }

  /** A block of a sorted table is sorted. */
  lemma SliceSorted(all: seq<TEntry>, a: nat, b: nat)
    requires ISorted(all) && a <= b <= |all|
    ensures ISorted(all[a..b])
  {
  }

  /** The index block's answer: the handle of the one block that can hold the key. */
  method FindBlock(index: seq<Byte>, k: IKey, ghost crc: Crc, ghost snappy: Snappy, ghost file: seq<Byte>,
                   ghost t: Table, ghost zi: Blocks.Shape, ghost blocks: seq<Stored>, ghost all: seq<TEntry>,
                   ghost bounds: seq<nat>)
    returns (value: Option<seq<Byte>>, ghost i: nat)
    requires InFile(crc, snappy, file, index, t, zi, blocks) && k.tag < TAG_LIMIT
    requires ISorted(all) && IndexOk(all, bounds, t.index, t.file, |all|)
    ensures i <= |t.index| && (forall j :: 0 <= j < i ==> ILess(t.index[j].key, k))
    ensures i < |t.index| ==> IAtMost(k, t.index[i].key)
    ensures value == if i < |t.index| then Some(zi.es[i].value) else None
  {
    IndexIncreases(crc, snappy, file, index, t, zi, blocks, all, bounds);
    IndexAsEntries(crc, snappy, file, index, t, zi, blocks);
    hide ISorted, IndexOk, LeadsTo, IsBlock, EntriesAs, Increasing;
    var entry;
    ghost var keys := IndexEntries(t.index, zi.es);
    entry, i := SeekBlock(index, k, zi, keys);
    assert forall j :: 0 <= j < |keys| ==> keys[j].key == t.index[j].key;
    value := if entry.Some? then Some(entry.value.value) else None;
  }

  /** Table::InternalGet over bytes. It hands over what a scan of the whole table finds, as bytes, exactly when the
      index leads to it and the filter lets the key pass, and misses nothing a reader of `k` needs. */
  method InternalGet(crc: Crc, snappy: Snappy, verify: bool, file: seq<Byte>, index: seq<Byte>, policy: Policy,
                     filter: Option<seq<Byte>>, k: IKey, ghost t: Table, ghost zi: Blocks.Shape,
                     ghost blocks: seq<Stored>, ghost all: seq<TEntry>, ghost bounds: seq<nat>,
                     ghost groups: seq<seq<seq<Byte>>>, ghost p: nat)
    returns (r: Option<KV>)
    requires InFile(crc, snappy, file, index, t, zi, blocks) && t.filter == filter && k.tag < TAG_LIMIT
    requires ISorted(all) && IndexOk(all, bounds, t.index, t.file, |all|) && FilterOk(t, policy, all, bounds, groups)
    requires ScanFinds(all, k, p)
    ensures |bounds| == |t.index| + 1
    ensures r.Some? <==> p < |all| && Reachable(t, policy, bounds, groups, k, p)
    ensures r.Some? ==> EntryAs(all[p], r.value)
    ensures p < |all| && all[p].key.user == k.user ==> r.Some?
  {
    hide ISorted, IndexOk, FilterOk, InFile, Bounded, KeyBytes, FirstIndex, Reachable, Contents;
    var value, i := FindBlock(index, k, crc, snappy, file, t, zi, blocks, all, bounds);
    BeforeFound(all, bounds, t, k, i, p);
    if value.None? {
      NotReachable(t, policy, bounds, groups, k, p);
      return None;
    }
    FirstIndexIs(t.index, k, i);
    ReachableIff(t, policy, bounds, groups, k, p, i);
    FilterFacts(t, policy, all, bounds, groups);
    BlockFound(crc, snappy, file, index, t, zi, blocks, all, bounds, i);
    var handle := DecodeHandle(value.value).value;
    var match_ := true;
    if filter.Some? {
      match_ := KeyMayMatch(policy, filter.value, handle.0, k.user, groups);
    }
    ghost var b := blocks[i];
    var block := ReadBlock(crc, snappy, verify, file, handle.0, handle.1, b.raw, b.kind, b.data);
    ghost var j;
    r, j := SeekBlock(block.value, k, b.z, t.file[t.index[i].offset]);
    FoundInBlock(t, policy, all, bounds, groups, k, i, j, p);
    if !match_ {
      return None;
    }
  }

  /** Everything before the block the index leads to is before the key; past the last block there is nothing. */
  lemma BeforeFound(all: seq<TEntry>, bounds: seq<nat>, t: Table, k: IKey, i: nat, p: nat)
    requires ISorted(all) && IndexOk(all, bounds, t.index, t.file, |all|) && ScanFinds(all, k, p) && i <= |t.index|
    requires forall j :: 0 <= j < i ==> ILess(t.index[j].key, k)
    ensures |bounds| == |t.index| + 1 && (i == |t.index| ==> p == |all|)
  {
    BeforeBlock(all, bounds, t.index, t.file, k, i);
    BoundsFacts(bounds, |t.index|, |all|, i);
  }

  /** The block at the index entry: its handle decodes, it can be read, and it is sorted. */
  lemma BlockFound(crc: Crc, snappy: Snappy, file: seq<Byte>, index: seq<Byte>, t: Table, zi: Blocks.Shape,
                   blocks: seq<Stored>, all: seq<TEntry>, bounds: seq<nat>, i: nat)
    requires InFile(crc, snappy, file, index, t, zi, blocks) && i < |t.index|
    requires ISorted(all) && IndexOk(all, bounds, t.index, t.file, |all|)
    ensures |zi.es| == |t.index| == |blocks|
    ensures DecodeHandle(zi.es[i].value) == Some((t.index[i].offset, |blocks[i].raw|))
    ensures At(file, t.index[i].offset, RawBytes(crc, blocks[i].raw, blocks[i].kind))
    ensures Expands(snappy, blocks[i].raw, blocks[i].kind, blocks[i].data)
    ensures IsBlock(blocks[i].data, blocks[i].z) && t.index[i].offset in t.file
    ensures EntriesAs(t.file[t.index[i].offset], blocks[i].z.es) && Increasing(blocks[i].z.es, RankOf)
  {
    assert LeadsTo(crc, snappy, file, t, t.index[i], zi.es[i], blocks[i]);
    hide IsBlock, At, RawBytes, EntriesAs, ISorted, InFile;
    HandleRoundTrip(Handle(t.index[i].offset, |blocks[i].raw|));
    BoundsFacts(bounds, |t.index|, |all|, i);
    SliceSorted(all, bounds[i], bounds[i + 1]);
    BlockIncreases(t.file[t.index[i].offset], blocks[i].z.es);
  }

  /** The position in the block is the position in the table, and the filter lets its key through. */
  lemma FoundInBlock(t: Table, policy: Policy, all: seq<TEntry>, bounds: seq<nat>, groups: seq<seq<seq<Byte>>>, k: IKey,
                     i: nat, j: nat, p: nat)
    requires ISorted(all) && IndexOk(all, bounds, t.index, t.file, |all|) && FilterOk(t, policy, all, bounds, groups)
    requires i < |t.index| && (forall j :: 0 <= j < i ==> ILess(t.index[j].key, k)) && IAtMost(k, t.index[i].key)
    requires ScanFinds(t.file[t.index[i].offset], k, j) && ScanFinds(all, k, p)
    ensures |bounds| == |t.index| + 1
    ensures j < |t.file[t.index[i].offset]| <==> bounds[i] <= p < bounds[i + 1]
    ensures j < |t.file[t.index[i].offset]| ==> p < |all| && t.file[t.index[i].offset][j] == all[p]
    ensures p < |all| && all[p].key.user == k.user ==>
              j < |t.file[t.index[i].offset]|
              && (t.filter.Some? ==> MayPass(t, policy, groups, t.index[i].offset, k.user))
  {
    BeforeBlock(all, bounds, t.index, t.file, k, i);
    BoundsFacts(bounds, |t.index|, |all|, i);
    PickedBlock(all, bounds, t.index, t.file, k, i, j, p);
    if p < |all| && all[p].key.user == k.user { Matches(t, policy, all, bounds, groups, i, p); }
  }

  /** The filter has the key in the group of the offset. */
  ghost predicate MayPass(t: Table, policy: Policy, groups: seq<seq<seq<Byte>>>, offset: nat, user: seq<Byte>) {
    && t.filter == Some(Contents(policy, groups)) && |Filters(policy, groups, |groups|)| < 0x1_0000_0000
    && NoFalseNegatives(policy) && InGroup(user, offset, groups)
  }

  /** BlockBuilder writes the entries of a block; the source does not check that their offsets fit 32 bits. */
  method BuildBlock(es: seq<TEntry>, interval: nat) returns (fits: bool, data: seq<Byte>, ghost z: Blocks.Shape)
    requires interval >= 1
    requires forall i :: 0 <= i < |es| ==> es[i].key.tag < TAG_LIMIT && Fits(KV(KeyBytes(es[i].key), es[i].value))
    ensures fits ==> IsBlock(data, z) && EntriesAs(es, z.es) && Compressed(z, interval)
  {
    hide Compressed, IsBlock, LaidOut, Fits, KeyBytes;
    var b := new BlockBuilder(interval);
    for i := 0 to |es|
      invariant b.Valid() && EntriesAs(es[..i], b.z.es)
    {
      assert es[..i + 1] == es[..i] + [es[i]];
      b.Add(KeyBytes(es[i].key), es[i].value);
    }
    assert es[..|es|] == es;
    data, z, fits := [], b.z, |b.buffer| < 0x1_0000_0000 && |b.restarts| < 0x1_0000_0000;
    if fits { data := b.Finish(); }
  }
}
