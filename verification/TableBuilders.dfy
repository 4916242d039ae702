/** TableBuilder: every table it finishes has the layout the lookup relies on. */
module TableBuilders {
  import opened Words
  import opened Wrappers
  import opened Separators
  import opened FilterBlocks
  import opened Tables

  const TRAILER := 5

  datatype Rep = Rep(offset: nat, dataBlock: seq<TEntry>, index: seq<IndexEntry>, file: map<nat, seq<TEntry>>,
                     lastKey: IKey, numEntries: nat,
                     pending: bool, pendingOffset: nat)

  /** What was added so far, where the finished blocks end, and their file offsets. */
  datatype Shape = Shape(all: seq<TEntry>, bounds: seq<nat>, offsets: seq<nat>)

  ghost predicate EntriesOk(r: Rep, g: Shape) {
    && ISorted(g.all) && r.numEntries == |g.all| && (|g.all| > 0 ==> r.lastKey == g.all[|g.all| - 1].key)
    && |r.dataBlock| <= |g.all| && r.dataBlock == g.all[|g.all| - |r.dataBlock|..]
    && Bounded(g.bounds, |g.offsets|, |g.all| - |r.dataBlock|)
    && (r.pending <==> |g.offsets| > 0 && r.dataBlock == [])
    && (r.pending ==> r.pendingOffset == g.offsets[|g.offsets| - 1])
  }

  ghost predicate BlockAt(r: Rep, g: Shape, i: nat)
    requires i < |g.offsets| && |g.bounds| == |g.offsets| + 1
  {
    && g.offsets[i] < r.offset && g.offsets[i] in r.file
    && g.bounds[i] <= g.bounds[i + 1] <= |g.all| && r.file[g.offsets[i]] == g.all[g.bounds[i]..g.bounds[i + 1]]
  }

  ghost predicate BlocksOk(r: Rep, g: Shape) {
    && |g.bounds| == |g.offsets| + 1
    && forall i :: 0 <= i < |g.offsets| ==> BlockAt(r, g, i)
  }

  ghost predicate IndexAt(r: Rep, g: Shape, i: nat)
    requires i < |r.index| <= |g.offsets| && |g.bounds| == |g.offsets| + 1
  {
    r.index[i].offset == g.offsets[i] && 0 < g.bounds[i + 1] <= |g.all|
      && Separates(g.all, g.bounds[i + 1], r.index[i].key)
  }

  ghost predicate KeysOk(r: Rep, g: Shape) {
    && |g.bounds| == |g.offsets| + 1 && |r.index| == |g.offsets| - (if r.pending && |g.offsets| > 0 then 1 else 0)
    && forall i :: 0 <= i < |r.index| ==> IndexAt(r, g, i)
  }

  ghost predicate Layout(r: Rep, g: Shape) { EntriesOk(r, g) && BlocksOk(r, g) && KeysOk(r, g) }

  /** Every key is in the filter group its block's offset selects, counting the pending keys as the next group. */
  ghost predicate FilterCovers(r: Rep, g: Shape, groups: seq<seq<Key>>) {
    && Covered(g.all, g.bounds, g.offsets, groups)
    && forall j :: 0 <= j < |r.dataBlock| ==> InGroup(r.dataBlock[j].key.user, r.offset, groups)
  }

  ghost predicate Grow(a: seq<seq<Key>>, b: seq<seq<Key>>) {
    |a| <= |b| && forall i, k :: 0 <= i < |a| && k in a[i] ==> k in b[i]
  }

  lemma FilterGrows(r: Rep, g: Shape, a: seq<seq<Key>>, b: seq<seq<Key>>)
    requires FilterCovers(r, g, a) && Grow(a, b)
    ensures FilterCovers(r, g, b)
  {
    forall k, offset | InGroup(k, offset, a) ensures InGroup(k, offset, b) {
    }
  }

  // ---- Add ---------------------------------------------------------------------------------------

  /** The index entry for the last finished block, once the next key is known. */
  function Indexed(r: Rep, key: IKey): Rep {
    r.(index := r.index + [IndexEntry(key, r.pendingOffset)], pending := false)
  }

  function Added(r: Rep, e: TEntry): Rep {
    r.(lastKey := e.key, numEntries := r.numEntries + 1, dataBlock := r.dataBlock + [e])
  }

  function Append(g: Shape, e: TEntry): Shape { g.(all := g.all + [e]) }

  lemma SortedAppend(all: seq<TEntry>, e: TEntry)
    requires ISorted(all) && (|all| > 0 ==> ILess(all[|all| - 1].key, e.key))
    ensures ISorted(all + [e])
  {
    forall i | 0 <= i < |all| ensures ILess(all[i].key, e.key) {
      ITotal(all[i].key, all[|all| - 1].key);
      ITotal(all[|all| - 1].key, e.key);
      ITrans(all[i].key, all[|all| - 1].key, e.key);
    }
  }

  lemma AddedEntries(r: Rep, g: Shape, e: TEntry, q: Rep)
    requires EntriesOk(r, g) && (r.numEntries > 0 ==> ILess(r.lastKey, e.key))
    requires q.numEntries == r.numEntries && q.dataBlock == r.dataBlock && !q.pending
    ensures EntriesOk(Added(q, e), Append(g, e))
  {
    SortedAppend(g.all, e);
    hide ISorted, Bounded;
    assert (g.all + [e])[|g.all| - |r.dataBlock|..] == g.all[|g.all| - |r.dataBlock|..] + [e];
  }

  lemma AddedBlocks(r: Rep, g: Shape, e: TEntry, q: Rep)
    requires BlocksOk(r, g) && q.offset == r.offset && q.file == r.file
    ensures BlocksOk(Added(q, e), Append(g, e))
  {
    forall i | 0 <= i < |g.offsets| ensures BlockAt(Added(q, e), Append(g, e), i) {
      assert BlockAt(r, g, i);
      assert (g.all + [e])[g.bounds[i]..g.bounds[i + 1]] == g.all[g.bounds[i]..g.bounds[i + 1]];
    }
  }

  /** Old index entries ended before the last key, so the new key does not concern them. */
  lemma AddedKeys(r: Rep, g: Shape, e: TEntry)
    requires EntriesOk(r, g) && KeysOk(r, g) && !r.pending
    ensures KeysOk(Added(r, e), Append(g, e))
  {
    hide ISorted;
    forall i | 0 <= i < |r.index| ensures IndexAt(Added(r, e), Append(g, e), i) {
      assert IndexAt(r, g, i) && g.bounds[i + 1] < |g.all|;
      assert (g.all + [e])[g.bounds[i + 1]] == g.all[g.bounds[i + 1]]
             && (g.all + [e])[g.bounds[i + 1] - 1] == g.all[g.bounds[i + 1] - 1];
    }
  }

  /** The pending block gets its separator together with the key it separates from. */
  lemma IndexedKeys(r: Rep, g: Shape, e: TEntry, sep: IKey)
    requires EntriesOk(r, g) && KeysOk(r, g) && r.pending
    requires IAtMost(r.lastKey, sep) && ILess(sep, e.key) && (sep == r.lastKey || Lt(sep.user, e.key.user))
    ensures KeysOk(Added(Indexed(r, sep), e), Append(g, e))
  {
    hide ISorted;
    var q, h := Added(Indexed(r, sep), e), Append(g, e);
    forall i | 0 <= i < |q.index| ensures IndexAt(q, h, i) {
      if i < |r.index| {
        assert IndexAt(r, g, i) && g.bounds[i + 1] < g.bounds[|g.offsets|];
        assert h.all[g.bounds[i + 1]] == g.all[g.bounds[i + 1]]
               && h.all[g.bounds[i + 1] - 1] == g.all[g.bounds[i + 1] - 1];
      } else {
        assert g.bounds[i + 1] == |g.all| && h.all[|g.all|] == e && h.all[|g.all| - 1] == g.all[|g.all| - 1]
               && g.bounds[0] < g.bounds[i + 1];
      }
    }
  }

  lemma AddedFilter(r: Rep, g: Shape, e: TEntry, q: Rep, groups: seq<seq<Key>>)
    requires FilterCovers(r, g, groups) && BlocksOk(r, g) && q.offset == r.offset && q.dataBlock == r.dataBlock
    requires InGroup(e.key.user, r.offset, groups)
    ensures FilterCovers(Added(q, e), Append(g, e), groups)
  {
    hide InGroup;
    forall i, j | 0 <= i < |g.offsets| && g.bounds[i] <= j < g.bounds[i + 1] && j < |g.all + [e]|
      ensures InGroup((g.all + [e])[j].key.user, g.offsets[i], groups)
    {
      assert BlockAt(r, g, i) && (g.all + [e])[j] == g.all[j];
    }
  }

  // ---- Flush -------------------------------------------------------------------------------------

  function Flushed(r: Rep, stored: nat): Rep {
    r.(file := r.file[r.offset := r.dataBlock], pendingOffset := r.offset, offset := r.offset + stored + TRAILER,
       dataBlock := [], pending := true)
  }

  ghost function Closed(r: Rep, g: Shape): Shape {
    g.(bounds := g.bounds + [|g.all|], offsets := g.offsets + [r.offset])
  }

  lemma FlushedLayout(r: Rep, g: Shape, stored: nat)
    requires Layout(r, g) && r.dataBlock != []
    ensures Layout(Flushed(r, stored), Closed(r, g))
  {
    FlushedBlocks(r, g, stored);
    FlushedKeys(r, g, stored);
    hide ISorted;
  }

  lemma FlushedBlocks(r: Rep, g: Shape, stored: nat)
    requires EntriesOk(r, g) && BlocksOk(r, g) && r.dataBlock != []
    ensures BlocksOk(Flushed(r, stored), Closed(r, g))
  {
    hide ISorted;
    var q, h := Flushed(r, stored), Closed(r, g);
    forall i | 0 <= i < |h.offsets| ensures BlockAt(q, h, i) {
      if i < |g.offsets| {
        assert BlockAt(r, g, i);
      } else {
        assert h.bounds[i] == |g.all| - |r.dataBlock| && h.bounds[i + 1] == |g.all|;
      }
    }
  }

  lemma FlushedKeys(r: Rep, g: Shape, stored: nat)
    requires KeysOk(r, g) && !r.pending
    ensures KeysOk(Flushed(r, stored), Closed(r, g))
  {
    forall i | 0 <= i < |r.index| ensures IndexAt(Flushed(r, stored), Closed(r, g), i) {
      assert IndexAt(r, g, i);
    }
  }

  lemma FlushedFilter(r: Rep, g: Shape, stored: nat, groups: seq<seq<Key>>)
    requires EntriesOk(r, g) && FilterCovers(r, g, groups)
    ensures FilterCovers(Flushed(r, stored), Closed(r, g), groups)
  {
    hide InGroup, ISorted;
    var h := Closed(r, g);
    forall i, j | 0 <= i < |h.offsets| && h.bounds[i] <= j < h.bounds[i + 1] && j < |h.all|
      ensures InGroup(h.all[j].key.user, h.offsets[i], groups)
    {
      if i == |g.offsets| {
        assert g.all[j] == r.dataBlock[j - (|g.all| - |r.dataBlock|)];
      }
    }
  }

  // ---- Finish ------------------------------------------------------------------------------------

  /** With all blocks flushed and indexed, the layout is the one InternalGet needs. */
  lemma FinishedIndex(r: Rep, g: Shape, succ: IKey)
    requires Layout(r, g) && r.dataBlock == [] && (r.pending ==> IAtMost(r.lastKey, succ))
    ensures var q := if r.pending then Indexed(r, succ) else r;
            IndexOk(g.all, g.bounds, q.index, q.file, |g.all|) && OffsetsOf(q.index) == g.offsets
  {
    hide ISorted, Separates, Bounded, KeysOk, BlocksOk, EntriesOk, BlockIndexed, FinishedAt, IndexOk, OffsetsOf;
    var q := if r.pending then Indexed(r, succ) else r;
    FinishedKeys(r, g, succ, q);
    forall i | 0 <= i < |q.index|
      ensures BlockIndexed(g.all, g.bounds, q.index, q.file, i) && q.index[i].offset == g.offsets[i]
    {
      FinishedEntry(r, g, q, i);
    }
    AllIndexed(g.all, g.bounds, q.index, q.file);
    OffsetsAre(q.index, g.offsets);
  }

  lemma OffsetsAre(index: seq<IndexEntry>, offsets: seq<nat>)
    requires |index| == |offsets| && forall i :: 0 <= i < |index| ==> index[i].offset == offsets[i]
    ensures OffsetsOf(index) == offsets
  {
  }

  /** Index entry `i` leads to block `i`. */
  lemma FinishedEntry(r: Rep, g: Shape, q: Rep, i: nat)
    requires BlocksOk(r, g) && i < |q.index| == |g.offsets| && |g.bounds| == |g.offsets| + 1 && q.file == r.file
    requires FinishedAt(g, q, i)
    ensures BlockIndexed(g.all, g.bounds, q.index, q.file, i) && q.index[i].offset == g.offsets[i]
  {
    hide ISorted, Separates, Bounded;
    FinishedBlock(r, g, i);
  }

  ghost predicate BlockIndexed(all: seq<TEntry>, bounds: seq<nat>, index: seq<IndexEntry>, file: map<nat, seq<TEntry>>,
                               i: nat)
    requires i < |index|
  {
    && i + 1 < |bounds| && bounds[i] <= bounds[i + 1] <= |all| && 0 < bounds[i + 1]
    && index[i].offset in file && file[index[i].offset] == all[bounds[i]..bounds[i + 1]]
    && Separates(all, bounds[i + 1], index[i].key)
  }

  lemma AllIndexed(all: seq<TEntry>, bounds: seq<nat>, index: seq<IndexEntry>, file: map<nat, seq<TEntry>>)
    requires Bounded(bounds, |index|, |all|)
    requires forall i :: 0 <= i < |index| ==> BlockIndexed(all, bounds, index, file, i)
    ensures IndexOk(all, bounds, index, file, |all|)
  {
    hide Separates;
    forall i | 0 <= i < |index|
      ensures index[i].offset in file && file[index[i].offset] == all[bounds[i]..bounds[i + 1]]
    {
      assert BlockIndexed(all, bounds, index, file, i);
    }
    forall i | 0 <= i < |index| ensures Separates(all, bounds[i + 1], index[i].key) {
      assert BlockIndexed(all, bounds, index, file, i);
    }
  }

  lemma FinishedBlock(r: Rep, g: Shape, i: nat)
    requires BlocksOk(r, g) && i < |g.offsets|
    ensures |g.bounds| == |g.offsets| + 1 && BlockAt(r, g, i)
  {
  }

  ghost predicate FinishedAt(g: Shape, q: Rep, i: nat)
    requires i < |q.index| == |g.offsets| && |g.bounds| == |g.offsets| + 1
  {
    q.index[i].offset == g.offsets[i] && 0 < g.bounds[i + 1] <= |g.all|
      && Separates(g.all, g.bounds[i + 1], q.index[i].key)
  }

  lemma FinishedKeys(r: Rep, g: Shape, succ: IKey, q: Rep)
    requires EntriesOk(r, g) && KeysOk(r, g) && r.dataBlock == [] && (r.pending ==> IAtMost(r.lastKey, succ))
    requires q == if r.pending then Indexed(r, succ) else r
    ensures |g.bounds| == |g.offsets| + 1 && |q.index| == |g.offsets|
    ensures forall i :: 0 <= i < |q.index| ==> FinishedAt(g, q, i)
    ensures Bounded(g.bounds, |q.index|, |g.all|)
  {
    hide ISorted, Separates, Bounded;
    forall i | 0 <= i < |q.index| ensures FinishedAt(g, q, i) {
      if i < |r.index| {
        assert IndexAt(r, g, i);
      } else {
        LastBlock(r, g, succ);
      }
    }
  }

  /** The last block ends with the last key, which any later key may follow in the index. */
  lemma LastBlock(r: Rep, g: Shape, succ: IKey)
    requires EntriesOk(r, g) && r.pending && r.dataBlock == [] && IAtMost(r.lastKey, succ)
    ensures var n := |g.offsets|;
            |g.bounds| == n + 1 && g.bounds[n] == |g.all| > 0 && Separates(g.all, g.bounds[n], succ)
  {
    hide ISorted, Bounded, Separates;
    BoundsFacts(g.bounds, |g.offsets|, |g.all|, |g.offsets|);
    BoundsFacts(g.bounds, |g.offsets|, |g.all|, 0);
    SeparatesLast(g.all, succ);
  }

  lemma SeparatesLast(all: seq<TEntry>, succ: IKey)
    requires |all| > 0 && IAtMost(all[|all| - 1].key, succ)
    ensures Separates(all, |all|, succ)
  {
  }

  /** The groups a filter block holds at the end: the pending keys form the last one. */
  lemma LastGroup(groups: seq<seq<Key>>, pending: seq<Key>, r: Rep, g: Shape)
    requires FilterCovers(r, g, groups + [pending]) && pending == []
    ensures FilterCovers(r, g, groups)
  {
    forall k, offset | InGroup(k, offset, groups + [pending]) ensures InGroup(k, offset, groups) {
    }
  }

  // ---- block sizes -------------------------------------------------------------------------------

  /** When a data block is full. */
  datatype Limit = Limit(estimate: seq<TEntry> -> nat, blockSize: nat) {
    predicate Full(es: seq<TEntry>) { estimate(es) >= blockSize }

    /** The block was not full before its last entry. */
    ghost predicate JustFull(es: seq<TEntry>) { forall m :: 0 < m < |es| ==> !Full(es[..m]) }
  }

  /** Finished blocks were not full before their last entry, and are full but for those in `early`; the open one was
      not full before its last entry. */
  ghost predicate CutBySize(l: Limit, r: Rep, g: Shape, early: set<nat>) {
    && (forall i :: 0 <= i < |g.offsets| ==> g.offsets[i] in r.file && l.JustFull(r.file[g.offsets[i]]))
    && (forall i :: 0 <= i < |g.offsets| && i !in early ==> l.Full(r.file[g.offsets[i]]))
    && l.JustFull(r.dataBlock)
  }

  lemma CutMore(l: Limit, r: Rep, g: Shape, early: set<nat>, e: TEntry, q: Rep)
    requires CutBySize(l, r, g, early) && q.file == r.file && q.dataBlock == r.dataBlock
    requires r.dataBlock == [] || !l.Full(r.dataBlock)
    ensures CutBySize(l, Added(q, e), Append(g, e), early)
  {
    hide Limit.Full;
    var es := r.dataBlock;
    forall m | 0 < m < |es + [e]| ensures !l.Full((es + [e])[..m]) {
      assert (es + [e])[..m] == if m == |es| then es else es[..m];
    }
  }

  lemma CutFlushed(l: Limit, r: Rep, g: Shape, early: set<nat>, stored: nat)
    requires CutBySize(l, r, g, early) && BlocksOk(r, g)
    ensures CutBySize(l, Flushed(r, stored), Closed(r, g),
                      if l.Full(r.dataBlock) then early - {|g.offsets|} else early + {|g.offsets|})
  {
    hide Limit.Full, Limit.JustFull;
    var q, h := Flushed(r, stored), Closed(r, g);
    forall i | 0 <= i < |g.offsets| ensures q.file[h.offsets[i]] == r.file[g.offsets[i]] { assert BlockAt(r, g, i); }
    JustFullEmpty(l);
  }

  lemma JustFullEmpty(l: Limit)
    ensures l.JustFull([])
  {
  }

  class TableBuilder {
    const policy: Policy
    const hasFilter: bool
    const blockSize: nat
    /** CurrentSizeEstimate of a data block, and the bytes it takes in the file. */
    const estimate: seq<TEntry> -> nat
    const stored: seq<TEntry> -> nat
    const filter: FilterBlockBuilder
    var r: Rep
    ghost var g: Shape
    /** The blocks that Flush ended before they were full. */
    ghost var early: set<nat>

    constructor (policy: Policy, hasFilter: bool, blockSize: nat,
                 estimate: seq<TEntry> -> nat, stored: seq<TEntry> -> nat)
      ensures Valid() && IsOpen() && fresh(filter) && g.all == [] && early == {}
      ensures this.policy == policy && this.hasFilter == hasFilter && this.blockSize == blockSize
      ensures this.estimate == estimate && this.stored == stored
    {
      this.policy, this.hasFilter, this.blockSize := policy, hasFilter, blockSize;
      this.estimate, this.stored := estimate, stored;
      filter := new FilterBlockBuilder(policy);
      r, g := Rep(0, [], [], map[], IKey([], 0), 0, false, 0), Shape([], [0], []);
      early := {};
      new;
      hide Layout, FilterCovers;
      EmptyLayout(r, g, Groups());
      if hasFilter {
        filter.StartBlock(0);
      }
    }

    /** The finished groups and the keys waiting for the next filter. */
    ghost function Groups(): seq<seq<Key>>
      reads filter
    {
      filter.groups + [filter.pending]
    }

    ghost predicate Valid()
      reads this, filter
    {
      && Layout(r, g) && filter.Valid() && filter.policy == policy && CutBySize(Limit(estimate, blockSize), r, g, early)
      && (hasFilter ==> |filter.groups| == r.offset / BASE && FilterCovers(r, g, Groups()))
    }

    /** There is room in the data block. */
    predicate IsOpen()
      reads this
    {
      r.dataBlock == [] || estimate(r.dataBlock) < blockSize
    }

    /** The block is flushed exactly when the entry fills it. */
    method Add(key: IKey, value: seq<Byte>)
      requires Valid() && IsOpen() && (r.numEntries > 0 ==> ILess(r.lastKey, key))
      modifies this, filter
      ensures Valid() && IsOpen() && g.all == old(g.all) + [TEntry(key, value)]
      ensures var open := old(r.dataBlock) + [TEntry(key, value)];
              if estimate(open) >= blockSize then r.dataBlock == [] && |g.offsets| == old(|g.offsets|) + 1
              else r.dataBlock == open && g.offsets == old(g.offsets)
      ensures early == old(early) - {old(|g.offsets|)} || early == old(early)
    {
      hide EntriesOk, BlocksOk, KeysOk, FilterCovers, CutBySize;
      AddFilterKey(key.user);
      var e := TEntry(key, value);
      AddEntry(e);
      if estimate(r.dataBlock) >= blockSize {
        Flush();
      }
    }

    /** filter_block->AddKey. */
    method AddFilterKey(user: Key)
      requires Valid()
      modifies filter
      ensures Valid() && (hasFilter ==> InGroup(user, r.offset, Groups()))
    {
      hide Layout, CutBySize;
      if hasFilter {
        ghost var before := Groups();
        filter.AddKey(user);
        FilterGrows(r, g, before, Groups());
      }
    }

    /** Index the pending block if there is one, then put the entry into the data block. */
    method AddEntry(e: TEntry)
      requires Valid() && (r.numEntries > 0 ==> ILess(r.lastKey, e.key))
      requires (hasFilter ==> InGroup(e.key.user, r.offset, Groups())) && IsOpen()
      modifies this
      ensures Valid() && r.offset == old(r.offset) && r.dataBlock == old(r.dataBlock) + [e] && g == Append(old(g), e)
      ensures early == old(early)
    {
      hide InGroup, EntriesOk, BlocksOk, KeysOk, FilterCovers, ILess, IAtMost, CutBySize;
      ghost var l := Limit(estimate, blockSize);
      if r.pending {
        PendingHasEntries(r, g);
        var sep := Separator(r.lastKey, e.key);
        IndexedKeys(r, g, e, sep);
        AddedEntries(r, g, e, Indexed(r, sep));
        AddedBlocks(r, g, e, Indexed(r, sep));
        CutMore(l, r, g, early, e, Indexed(r, sep));
        if hasFilter { AddedFilter(r, g, e, Indexed(r, sep), Groups()); }
        r := Added(Indexed(r, sep), e);
      } else {
        AddedKeys(r, g, e);
        AddedEntries(r, g, e, r);
        AddedBlocks(r, g, e, r);
        CutMore(l, r, g, early, e, r);
        if hasFilter { AddedFilter(r, g, e, r, Groups()); }
        r := Added(r, e);
      }
      g := Append(g, e);
    }

    method Flush()
      requires Valid()
      modifies this, filter
      ensures Valid() && r.dataBlock == [] && g.all == old(g.all) && r.lastKey == old(r.lastKey)
      ensures |g.offsets| == old(|g.offsets|) + if old(r.dataBlock) == [] then 0 else 1
      ensures early == if old(r.dataBlock) == [] then old(early)
                       else if estimate(old(r.dataBlock)) >= blockSize then old(early) - {old(|g.offsets|)}
                       else old(early) + {old(|g.offsets|)}
    {
      hide CutBySize, EntriesOk, KeysOk, FilterCovers;
      if r.dataBlock == [] {
        return;
      }
      var size := stored(r.dataBlock);
      FlushedLayout(r, g, size);
      CutFlushed(Limit(estimate, blockSize), r, g, early, size);
      early := if estimate(r.dataBlock) >= blockSize then early - {|g.offsets|} else early + {|g.offsets|};
      if hasFilter { FlushedFilter(r, g, size, Groups()); }
      hide Layout, FilterCovers;
      ghost var before := Groups();
      g := Closed(r, g);
      r := Flushed(r, size);
      if hasFilter {
        OffsetGrows(|filter.groups|, r.offset);
        filter.StartBlock(r.offset);
        StartedGrows(before, Groups());
        FilterGrows(r, g, before, Groups());
      }
    }

    /** Finish. The table has the layout the lookup needs, and its filter covers every key. */
    method Finish() returns (t: Table, ghost bounds: seq<nat>, ghost groups: seq<seq<Key>>)
      requires Valid()
      modifies this, filter
      ensures g.all == old(g.all) && ISorted(g.all) && IndexOk(g.all, bounds, t.index, t.file, |g.all|)
      ensures t.filter.Some? <==> hasFilter
      ensures CutBySize(Limit(estimate, blockSize), r, g, early) && bounds == g.bounds && t.file == r.file
      ensures early <= old(early) + {old(|g.offsets|)}
      ensures NoFalseNegatives(policy) && |Filters(policy, groups, |groups|)| < 0x1_0000_0000 ==>
                FilterOk(t, policy, g.all, bounds, groups)
    {
      hide NoFalseNegatives, CutBySize;
      Flush();
      bounds := g.bounds;
      var filterBlock: Option<seq<Byte>> := None;
      groups := [];
      if hasFilter {
        ghost var pending, finished := filter.pending, filter.groups;
        if pending == [] { LastGroup(finished, pending, r, g); }
        var contents := filter.Finish();
        filterBlock := Some(contents);
        groups := filter.groups;
      }
      var index := FinishIndex();
      t := Table(r.file, index, filterBlock);
    }

    method FinishIndex() returns (index: seq<IndexEntry>)
      requires Layout(r, g) && r.dataBlock == []
      ensures IndexOk(g.all, g.bounds, index, r.file, |g.all|) && OffsetsOf(index) == g.offsets
    {
      if r.pending {
        var succ := Successor(r.lastKey);
        FinishedIndex(r, g, succ);
        return Indexed(r, succ).index;
      }
      FinishedIndex(r, g, r.lastKey);
      return r.index;
    }
  }

  lemma EmptyLayout(r: Rep, g: Shape, groups: seq<seq<Key>>)
    requires r == Rep(0, [], [], map[], IKey([], 0), 0, false, 0) && g == Shape([], [0], [])
    ensures Layout(r, g) && FilterCovers(r, g, groups)
  {
  }

  lemma PendingHasEntries(r: Rep, g: Shape)
    requires EntriesOk(r, g) && r.pending
    ensures r.numEntries > 0
  {
    hide ISorted;
    assert g.bounds[0] < g.bounds[|g.offsets|];
  }

  lemma OffsetGrows(n: nat, offset: nat)
    requires exists smaller: nat :: smaller <= offset && n == smaller / BASE
    ensures offset / BASE >= n
  {
  }

  lemma StartedGrows(before: seq<seq<Key>>, after: seq<seq<Key>>)
    requires before <= after || (|after| > 0 && before <= after[..|after| - 1])
    ensures Grow(before, after)
  {
  }
}
