/** Table files: the builder's blocks, index and filter, and the point lookup that goes through all three. */
module Tables {
  import opened Words
  import opened Wrappers
  import opened Separators
  import opened FilterBlocks

  datatype TEntry = TEntry(key: IKey, value: seq<Byte>)
  datatype IndexEntry = IndexEntry(key: IKey, offset: nat)

  /** A finished table: data blocks by offset, index block, filter block. */
  datatype Table = Table(file: map<nat, seq<TEntry>>, index: seq<IndexEntry>, filter: Option<seq<Byte>>)

  ghost predicate ISorted(es: seq<TEntry>) { forall i, j :: 0 <= i < j < |es| ==> ILess(es[i].key, es[j].key) }

  /** `p` is the first position with a key at or after `k`: what a scan of the whole table would find. */
  ghost predicate ScanFinds(es: seq<TEntry>, k: IKey, p: nat) {
    p <= |es| && (forall j :: 0 <= j < p ==> ILess(es[j].key, k)) && (p < |es| ==> IAtMost(k, es[p].key))
  }

  /** Block `i` holds the entries from `bounds[i]` to `bounds[i + 1]`. */
  ghost predicate Bounded(bounds: seq<nat>, n: nat, size: nat) {
    && |bounds| == n + 1 && bounds[0] == 0 && bounds[n] == size
    && forall i, j :: 0 <= i < j <= n ==> bounds[i] < bounds[j]
  }

  /** The index key of a block that ends at `b`: at or after its last key, before the next one; a shortened key is
      before the next user key. */
  ghost predicate Separates(all: seq<TEntry>, b: nat, key: IKey)
    requires 0 < b <= |all|
  {
    && IAtMost(all[b - 1].key, key)
    && (b < |all| ==> ILess(key, all[b].key) && (key == all[b - 1].key || Lt(key.user, all[b].key.user)))
  }

  ghost predicate IndexOk(all: seq<TEntry>, bounds: seq<nat>, index: seq<IndexEntry>, file: map<nat, seq<TEntry>>,
                          size: nat)
    requires size <= |all|
  {
    && Bounded(bounds, |index|, size)
    && (forall i :: 0 <= i < |index| ==>
         index[i].offset in file && file[index[i].offset] == all[bounds[i]..bounds[i + 1]])
    && (forall i :: 0 <= i < |index| ==> Separates(all, bounds[i + 1], index[i].key))
  }

  /** Every key of a block is in the filter group of the block's offset. */
  ghost predicate Covered(all: seq<TEntry>, bounds: seq<nat>, offsets: seq<nat>, groups: seq<seq<Key>>) {
    && |bounds| == |offsets| + 1
    && forall i, j :: 0 <= i < |offsets| && bounds[i] <= j < bounds[i + 1] && j < |all| ==>
       InGroup(all[j].key.user, offsets[i], groups)
  }

  /** The key is in the filter group of the offset. */
  ghost predicate InGroup(k: Key, offset: nat, groups: seq<seq<Key>>) {
    offset / BASE < |groups| && k in groups[offset / BASE]
  }

  ghost function OffsetsOf(index: seq<IndexEntry>): seq<nat> {
    seq(|index|, i requires 0 <= i < |index| => index[i].offset)
  }

  ghost predicate FilterOk(t: Table, policy: Policy, all: seq<TEntry>, bounds: seq<nat>, groups: seq<seq<Key>>) {
    t.filter.Some? ==>
      (&& t.filter.value == Contents(policy, groups) && |Filters(policy, groups, |groups|)| < 0x1_0000_0000
       && NoFalseNegatives(policy) && Covered(all, bounds, OffsetsOf(t.index), groups))
  }

  method Seek(es: seq<TEntry>, k: IKey) returns (p: nat)
    ensures ScanFinds(es, k, p)
  {
    p := 0;
    while p < |es| && ILess(es[p].key, k)
      invariant p <= |es| && forall j :: 0 <= j < p ==> ILess(es[j].key, k)
    {
      p := p + 1;
    }
  }

  method SeekIndex(index: seq<IndexEntry>, k: IKey) returns (i: nat)
    ensures i <= |index| && (forall j :: 0 <= j < i ==> ILess(index[j].key, k))
    ensures (i < |index| ==> IAtMost(k, index[i].key))
  {
    i := 0;
    while i < |index| && ILess(index[i].key, k)
      invariant i <= |index| && forall j :: 0 <= j < i ==> ILess(index[j].key, k)
    {
      i := i + 1;
    }
  }

  /** Everything up to a key before `k` is before `k`. */
  lemma AllBefore(all: seq<TEntry>, b: nat, key: IKey, k: IKey)
    requires ISorted(all) && 0 < b <= |all| && IAtMost(all[b - 1].key, key) && ILess(key, k)
    ensures forall j :: 0 <= j < b ==> ILess(all[j].key, k)
  {
    forall j | 0 <= j < b ensures ILess(all[j].key, k) {
      ITotal(all[j].key, all[b - 1].key);
      ITotal(key, k);
      ITrans(all[j].key, all[b - 1].key, key);
      ITrans(all[j].key, key, k);
    }
  }

  /** The blocks before the one the index picks hold nothing at or after `k`. */
  lemma BeforeBlock(all: seq<TEntry>, bounds: seq<nat>, index: seq<IndexEntry>, file: map<nat, seq<TEntry>>, k: IKey,
                    i: nat)
    requires ISorted(all) && IndexOk(all, bounds, index, file, |all|) && i <= |index|
    requires forall j :: 0 <= j < i ==> ILess(index[j].key, k)
    ensures forall j :: 0 <= j < bounds[i] ==> ILess(all[j].key, k)
  {
    if i > 0 {
      assert Separates(all, bounds[i], index[i - 1].key);
      AllBefore(all, bounds[i], index[i - 1].key, k);
    }
  }

  /** When the picked block holds nothing at or after `k`, the next entry has another user key. */
  lemma NextIsOther(all: seq<TEntry>, b: nat, key: IKey, k: IKey)
    requires 0 < b < |all| && Separates(all, b, key) && ILess(all[b - 1].key, k) && IAtMost(k, key)
    ensures all[b].key.user != k.user && IAtMost(k, all[b].key)
  {
    ITotal(all[b - 1].key, k);
    ITotal(k, key);
    LtTotal(k.user, key.user);
    if Lt(k.user, key.user) { LtTrans(k.user, key.user, all[b].key.user); }
    LtTotal(k.user, all[b].key.user);
    ITotal(k, all[b].key);
  }

  lemma ScanUnique(all: seq<TEntry>, k: IKey, p: nat, q: nat)
    requires ScanFinds(all, k, p) && ScanFinds(all, k, q)
    ensures p == q
  {
  }

  /** The scan position from the position inside the picked block. */
  lemma BlockScan(all: seq<TEntry>, k: IKey, a: nat, b: nat, j: nat)
    requires a <= b <= |all| && (forall q :: 0 <= q < a ==> ILess(all[q].key, k)) && ScanFinds(all[a..b], k, j)
    ensures j < b - a ==> ScanFinds(all, k, a + j)
    ensures j == b - a ==> forall q :: 0 <= q < b ==> ILess(all[q].key, k)
  {
    forall q | 0 <= q < a + j ensures ILess(all[q].key, k) {
      if q >= a { assert all[q] == all[a..b][q - a]; }
    }
    if j < b - a { assert all[a..b][j] == all[a + j]; }
  }

  /** Index entry `i` is the first at or after the key. */
  ghost predicate FirstIndex(index: seq<IndexEntry>, k: IKey, i: nat) {
    i < |index| && (forall j :: 0 <= j < i ==> ILess(index[j].key, k)) && IAtMost(k, index[i].key)
  }

  /** The filter of the block's group lets the key pass. */
  ghost predicate FilterPasses(t: Table, policy: Policy, groups: seq<seq<Key>>, i: nat, user: Key)
    requires i < |t.index|
  {
    var g := t.index[i].offset / BASE;
    t.filter.Some? && g < |groups| ==> policy.matches(user, FilterOf(policy, groups[g]))
  }

  /** Entry `p` is in the block that the index leads to, and the filter lets the key pass. */
  ghost predicate Reachable(t: Table, policy: Policy, bounds: seq<nat>, groups: seq<seq<Key>>, k: IKey, p: nat)
    requires |bounds| == |t.index| + 1
  {
    exists i: nat :: FirstIndex(t.index, k, i) && bounds[i] <= p < bounds[i + 1]
                     && FilterPasses(t, policy, groups, i, k.user)
  }

  lemma FirstIndexOnce(index: seq<IndexEntry>, k: IKey, i: nat, j: nat)
    requires FirstIndex(index, k, i) && FirstIndex(index, k, j)
    ensures i == j
  {
  }

  lemma ReachableIff(t: Table, policy: Policy, bounds: seq<nat>, groups: seq<seq<Key>>, k: IKey, p: nat, i: nat)
    requires |bounds| == |t.index| + 1 && FirstIndex(t.index, k, i)
    ensures Reachable(t, policy, bounds, groups, k, p) <==>
              bounds[i] <= p < bounds[i + 1] && FilterPasses(t, policy, groups, i, k.user)
  {
    hide FilterPasses;
    if Reachable(t, policy, bounds, groups, k, p) {
      var j: nat :| FirstIndex(t.index, k, j) && bounds[j] <= p < bounds[j + 1]
                    && FilterPasses(t, policy, groups, j, k.user);
      FirstIndexOnce(t.index, k, i, j);
    }
  }

  lemma NotReachable(t: Table, policy: Policy, bounds: seq<nat>, groups: seq<seq<Key>>, k: IKey, p: nat)
    requires |bounds| == |t.index| + 1 && forall j :: 0 <= j < |t.index| ==> ILess(t.index[j].key, k)
    ensures !Reachable(t, policy, bounds, groups, k, p)
  {
    forall i: nat | i < |t.index| ensures !FirstIndex(t.index, k, i) { ITotal(t.index[i].key, k); }
  }

  /** Table::InternalGet. What it hands to the callback is what a scan finds, exactly when the index leads to it and the
      filter lets the key pass. It hands over everything a reader of `k` needs: if the scan finds an entry with the
      user key of `k`, that entry is handed over. */
  method InternalGet(t: Table, policy: Policy, k: IKey, ghost all: seq<TEntry>, ghost bounds: seq<nat>,
                     ghost groups: seq<seq<Key>>, ghost p: nat)
    returns (r: Option<TEntry>)
    requires ISorted(all) && IndexOk(all, bounds, t.index, t.file, |all|) && FilterOk(t, policy, all, bounds, groups)
    requires ScanFinds(all, k, p)
    ensures |bounds| == |t.index| + 1
    ensures r == if p < |all| && Reachable(t, policy, bounds, groups, k, p) then Some(all[p]) else None
    ensures p < |all| && all[p].key.user == k.user ==> r == Some(all[p])
  {
    hide Bounded, Separates, ISorted, FilterOk, FirstIndex, Reachable, Contents;
    var i := SeekIndex(t.index, k);
    BeforeBlock(all, bounds, t.index, t.file, k, i);
    BoundsFacts(bounds, |t.index|, |all|, i);
    if i == |t.index| {
      NotReachable(t, policy, bounds, groups, k, p);
      return None;
    }
    FirstIndexIs(t.index, k, i);
    ReachableIff(t, policy, bounds, groups, k, p, i);
    FilterFacts(t, policy, all, bounds, groups);
    var offset := t.index[i].offset;
    var match_ := true;
    if t.filter.Some? {
      match_ := KeyMayMatch(policy, t.filter.value, offset, k.user, groups);
    }
    var block := t.file[offset];
    var j := Seek(block, k);
    PickedBlock(all, bounds, t.index, t.file, k, i, j, p);
    if p < |all| && all[p].key.user == k.user { Matches(t, policy, all, bounds, groups, i, p); }
    if !match_ || j == |block| {
      return None;
    }
    return Some(block[j]);
  }

  lemma FirstIndexIs(index: seq<IndexEntry>, k: IKey, i: nat)
    requires i < |index| && (forall j :: 0 <= j < i ==> ILess(index[j].key, k)) && IAtMost(k, index[i].key)
    ensures FirstIndex(index, k, i)
  {
  }

  lemma FilterFacts(t: Table, policy: Policy, all: seq<TEntry>, bounds: seq<nat>, groups: seq<seq<Key>>)
    requires FilterOk(t, policy, all, bounds, groups)
    ensures t.filter.Some? ==>
              t.filter.value == Contents(policy, groups) && |Filters(policy, groups, |groups|)| < 0x1_0000_0000
  {
    hide Contents, NoFalseNegatives;
  }

  lemma BoundsFacts(bounds: seq<nat>, n: nat, size: nat, i: nat)
    requires Bounded(bounds, n, size) && i <= n
    ensures |bounds| == n + 1 && bounds[i] <= size && (i == n ==> bounds[i] == size)
    ensures (i < n ==> bounds[i] < bounds[i + 1] <= size)
  {
  }

  lemma PickedBlock(all: seq<TEntry>, bounds: seq<nat>, index: seq<IndexEntry>, file: map<nat, seq<TEntry>>, k: IKey,
                    i: nat, j: nat, p: nat)
    requires ISorted(all) && IndexOk(all, bounds, index, file, |all|) && i < |index| && ScanFinds(all, k, p)
    requires (forall q :: 0 <= q < bounds[i] ==> ILess(all[q].key, k)) && IAtMost(k, index[i].key)
    requires ScanFinds(file[index[i].offset], k, j)
    ensures j < |file[index[i].offset]| ==>
              p == bounds[i] + j && p < bounds[i + 1] <= |all| && file[index[i].offset][j] == all[p]
    ensures j == |file[index[i].offset]| ==> p >= bounds[i + 1] && (p < |all| ==> all[p].key.user != k.user)
  {
    var a, b := bounds[i], bounds[i + 1];
    BoundsFacts(bounds, |index|, |all|, i);
    hide Bounded, ISorted;
    BlockScan(all, k, a, b, j);
    if j < b - a {
      ScanUnique(all, k, p, a + j);
    } else if b < |all| {
      NextIsOther(all, b, index[i].key, k);
      ScanUnique(all, k, p, b);
    }
  }

  lemma Matches(t: Table, policy: Policy, all: seq<TEntry>, bounds: seq<nat>, groups: seq<seq<Key>>, i: nat, p: nat)
    requires FilterOk(t, policy, all, bounds, groups) && i < |t.index| && |bounds| == |t.index| + 1
    requires bounds[i] <= p < bounds[i + 1] && p < |all|
    ensures t.filter.Some? ==>
              (&& t.filter.value == Contents(policy, groups) && |Filters(policy, groups, |groups|)| < 0x1_0000_0000
               && NoFalseNegatives(policy)
               && InGroup(all[p].key.user, t.index[i].offset, groups))
  {
    hide Contents, NoFalseNegatives;
    assert t.filter.Some? ==> OffsetsOf(t.index)[i] == t.index[i].offset;
  }
}
