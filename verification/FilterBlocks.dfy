/** The filter block of a table: one filter per 2 KiB of data-block offsets. */
module FilterBlocks {
  import opened Words
  import opened Coding
  import opened Separators

  const BASE_LG := 11
  const BASE := 2048

  /** A filter policy as the table sees it. */
  datatype Policy = Policy(create: seq<Key> -> seq<Byte>, matches: (Key, seq<Byte>) -> bool)

  ghost predicate NoFalseNegatives(p: Policy) {
    forall keys: seq<Key>, k :: k in keys ==> p.matches(k, p.create(keys))
  }

  /** The filter of one group of keys; none for an empty group. */
  function FilterOf(p: Policy, group: seq<Key>): seq<Byte> { if |group| == 0 then [] else p.create(group) }

  function Filters(p: Policy, groups: seq<seq<Key>>, n: nat): seq<Byte>
    requires n <= |groups|
  {
    if n == 0 then [] else Filters(p, groups, n - 1) + FilterOf(p, groups[n - 1])
  }

  lemma {:induction false} FiltersPrefix(p: Policy, groups: seq<seq<Key>>, more: seq<seq<Key>>, n: nat)
    requires n <= |groups|
    ensures Filters(p, groups + more, n) == Filters(p, groups, n)
  {
    if n > 0 { FiltersPrefix(p, groups, more, n - 1); }
  }

  /** The array of offsets: where each filter starts, and where the last one ends. */
  function Offsets(p: Policy, groups: seq<seq<Key>>, n: nat): seq<Byte>
    requires n <= |groups| + 1
    ensures |Offsets(p, groups, n)| == 4 * n
  {
    if n == 0 then [] else Offsets(p, groups, n - 1) + Fixed32(|Filters(p, groups, n - 1)|)
  }

  function Contents(p: Policy, groups: seq<seq<Key>>): seq<Byte> {
    Filters(p, groups, |groups|) + Offsets(p, groups, |groups| + 1) + [BASE_LG]
  }

  class FilterBlockBuilder {
    const policy: Policy
    /** Flattened keys and where each starts. */
    var keys: seq<Byte>
    var start: seq<nat>
    var result: seq<Byte>
    var filterOffsets: seq<nat>
    ghost var pending: seq<Key>
    ghost var groups: seq<seq<Key>>

    constructor (policy: Policy)
      ensures this.policy == policy && Valid() && pending == [] && groups == []
    {
      this.policy := policy;
      keys, start, result, filterOffsets, pending, groups := [], [], [], [], [], [];
    }

    ghost predicate Valid()
      reads this
    {
      && keys == Flat(pending, |pending|) && |start| == |pending|
      && (forall i :: 0 <= i < |start| ==> start[i] == |Flat(pending, i)|)
      && result == Filters(policy, groups, |groups|) && |filterOffsets| == |groups|
      && (forall i :: 0 <= i < |groups| ==> filterOffsets[i] == |Filters(policy, groups, i)|)
    }

    method AddKey(key: Key)
      requires Valid()
      modifies this
      ensures Valid() && pending == old(pending) + [key] && groups == old(groups)
    {
      forall i | 0 <= i <= |pending|
        ensures Flat(pending + [key], i) == Flat(pending, i)
      {
        FlatPrefix(pending, [key], i);
      }
      start := start + [|keys|];
      keys := keys + key;
      pending := pending + [key];
    }

    /** GenerateFilter: the pending keys become the next group. */
    method GenerateFilter()
      requires Valid()
      modifies this
      ensures Valid() && pending == [] && groups == old(groups) + [old(pending)]
    {
      var tmpKeys := TempKeys();
      forall i | 0 <= i <= |groups| ensures Filters(policy, groups + [pending], i) == Filters(policy, groups, i) {
        FiltersPrefix(policy, groups, [pending], i);
      }
      filterOffsets := filterOffsets + [|result|];
      if |start| > 0 {
        result := result + policy.create(tmpKeys);
      }
      groups := groups + [pending];
      keys, start, pending := [], [], [];
    }

    /** Rebuild the list of keys from the flattened form. */
    method TempKeys() returns (tmpKeys: seq<Key>)
      requires Valid()
      ensures tmpKeys == pending
    {
      var bounds := start + [|keys|];
      tmpKeys := [];
      for i := 0 to |start|
        invariant tmpKeys == pending[..i]
      {
        KeySlice(pending, i);
        assert bounds[i] == |Flat(pending, i)| && bounds[i + 1] == |Flat(pending, i + 1)|;
        tmpKeys := tmpKeys + [keys[bounds[i]..bounds[i + 1]]];
      }
    }

    method StartBlock(blockOffset: nat)
      requires Valid() && blockOffset / BASE >= |groups|
      modifies this
      ensures Valid() && |groups| == blockOffset / BASE
      ensures if blockOffset / BASE == |old(groups)| then groups == old(groups) && pending == old(pending)
              else pending == [] && old(groups) + [old(pending)] <= groups
      ensures forall i :: |old(groups)| < i < |groups| ==> groups[i] == []
    {
      var index := blockOffset / BASE;
      while index > |filterOffsets|
        invariant Valid() && |groups| <= index
        invariant if |groups| == |old(groups)| then groups == old(groups) && pending == old(pending)
                  else pending == [] && old(groups) + [old(pending)] <= groups
        invariant forall i :: |old(groups)| < i < |groups| ==> groups[i] == []
        decreases index - |filterOffsets|
      {
        GenerateFilter();
      }
    }

    method Finish() returns (contents: seq<Byte>)
      requires Valid()
      modifies this
      ensures Valid() && groups == (if |old(pending)| > 0 then old(groups) + [old(pending)] else old(groups))
      ensures contents == Contents(policy, groups)
    {
      if |start| > 0 {
        GenerateFilter();
      }
      contents := AppendOffsets(result);
      contents := contents + [BASE_LG];
    }

    /** Append the array of offsets. */
    method AppendOffsets(dst: seq<Byte>) returns (contents: seq<Byte>)
      requires Valid() && dst == result
      ensures contents == Filters(policy, groups, |groups|) + Offsets(policy, groups, |groups| + 1)
    {
      hide Fixed32, FilterOf;
      contents := dst;
      ghost var filters := Filters(policy, groups, |groups|);
      var i := 0;
      while i < |filterOffsets|
        invariant 0 <= i <= |groups| && contents == filters + Offsets(policy, groups, i)
      {
        Assoc(filters, Offsets(policy, groups, i), Fixed32(filterOffsets[i]));
        contents := contents + Fixed32(filterOffsets[i]);
        i := i + 1;
      }
      Assoc(filters, Offsets(policy, groups, i), Fixed32(|result|));
      contents := contents + Fixed32(|result|);
    }
  }

  function Flat(keys: seq<Key>, n: nat): seq<Byte>
    requires n <= |keys|
  {
    if n == 0 then [] else Flat(keys, n - 1) + keys[n - 1]
  }

  lemma {:induction false} FlatPrefix(keys: seq<Key>, more: seq<Key>, n: nat)
    requires n <= |keys|
    ensures Flat(keys + more, n) == Flat(keys, n)
  {
    if n > 0 { FlatPrefix(keys, more, n - 1); }
  }

  lemma {:induction false} FlatIsPrefix(keys: seq<Key>, i: nat, n: nat)
    requires i <= n <= |keys|
    ensures Flat(keys, i) <= Flat(keys, n)
    decreases n
  {
    if i < n { FlatIsPrefix(keys, i, n - 1); }
  }

  lemma KeySlice(keys: seq<Key>, i: nat)
    requires i < |keys|
    ensures var all := Flat(keys, |keys|);
            |Flat(keys, i)| <= |Flat(keys, i + 1)| <= |all| && all[|Flat(keys, i)|..|Flat(keys, i + 1)|] == keys[i]
  {
    FlatIsPrefix(keys, i + 1, |keys|);
    assert Flat(keys, i + 1) == Flat(keys, i) + keys[i];
  }

  lemma {:induction false} FilterAt(p: Policy, groups: seq<seq<Key>>, i: nat, n: nat)
    requires i < n <= |groups|
    ensures At(Filters(p, groups, n), |Filters(p, groups, i)|, FilterOf(p, groups[i]))
    ensures |Filters(p, groups, i)| + |FilterOf(p, groups[i])| == |Filters(p, groups, i + 1)| <= |Filters(p, groups, n)|
    decreases n
  {
    hide FilterOf;
    if i == n - 1 {
      AtEnd(Filters(p, groups, i), FilterOf(p, groups[i]));
    } else {
      FilterAt(p, groups, i, n - 1);
      AtPrefix(Filters(p, groups, n - 1), FilterOf(p, groups[n - 1]), |Filters(p, groups, i)|, FilterOf(p, groups[i]));
    }
  }

  lemma {:induction false} OffsetAt(p: Policy, groups: seq<seq<Key>>, i: nat, n: nat)
    requires i < n <= |groups| + 1
    ensures At(Offsets(p, groups, n), 4 * i, Fixed32(|Filters(p, groups, i)|))
    decreases n
  {
    hide Fixed32, FilterOf;
    if i == n - 1 {
      AtEnd(Offsets(p, groups, i), Fixed32(|Filters(p, groups, i)|));
    } else {
      OffsetAt(p, groups, i, n - 1);
      AtPrefix(Offsets(p, groups, n - 1), Fixed32(|Filters(p, groups, n - 1)|), 4 * i,
               Fixed32(|Filters(p, groups, i)|));
    }
  }

  lemma AtShift(a: seq<Byte>, b: seq<Byte>, p: nat, bytes: seq<Byte>)
    requires At(b, p, bytes)
    ensures At(a + b, |a| + p, bytes)
  {
    forall i | 0 <= i < |bytes| ensures (a + b)[|a| + p + i] == bytes[i] { assert (a + b)[|a| + p + i] == b[p + i]; }
  }

  /** The words of the offset array, read back from the block. */
  lemma ContentsWord(p: Policy, groups: seq<seq<Key>>, i: nat)
    requires i <= |groups| && |Filters(p, groups, |groups|)| < 0x1_0000_0000
    ensures var c := Contents(p, groups);
            var a := |Filters(p, groups, |groups|)|;
            |c| == a + 4 * |groups| + 5 && DecodeFixed32(c, a + 4 * i) == |Filters(p, groups, i)|
  {
    hide Fixed32, FilterOf, DecodeFixed32, At, Contents;
    WordIn(p, groups, i);
    if i < |groups| { FilterAt(p, groups, i, |groups|); }
    Fixed32At(Contents(p, groups), |Filters(p, groups, |groups|)| + 4 * i, |Filters(p, groups, i)|);
  }

  lemma WordIn(p: Policy, groups: seq<seq<Key>>, i: nat)
    requires i <= |groups|
    ensures var a := |Filters(p, groups, |groups|)|;
            |Contents(p, groups)| == a + 4 * |groups| + 5
              && At(Contents(p, groups), a + 4 * i, Fixed32(|Filters(p, groups, i)|))
  {
    hide Fixed32, FilterOf, At;
    var filters, offsets := Filters(p, groups, |groups|), Offsets(p, groups, |groups| + 1);
    var word := Fixed32(|Filters(p, groups, i)|);
    OffsetAt(p, groups, i, |groups| + 1);
    AtShift(filters, offsets, 4 * i, word);
    AtPrefix(filters + offsets, [BASE_LG], |filters| + 4 * i, word);
  }

  lemma ContentsFilter(p: Policy, groups: seq<seq<Key>>, i: nat)
    requires i < |groups|
    ensures var s, l := |Filters(p, groups, i)|, |Filters(p, groups, i + 1)|;
            s <= l <= |Filters(p, groups, |groups|)| <= |Contents(p, groups)|
              && Contents(p, groups)[s..l] == FilterOf(p, groups[i])
  {
    var filters, offsets := Filters(p, groups, |groups|), Offsets(p, groups, |groups| + 1);
    FilterAt(p, groups, i, |groups|);
    hide FilterOf;
    AtPrefix(filters, offsets + [BASE_LG], |Filters(p, groups, i)|, FilterOf(p, groups[i]));
    assert filters + (offsets + [BASE_LG]) == Contents(p, groups);
    AtSlice(Contents(p, groups), |Filters(p, groups, i)|, FilterOf(p, groups[i]));
  }

  /** FilterBlockReader: constructor and KeyMayMatch. On a filter block the answer is the policy's for the filter of the
      offset's group, which is the empty string for a group without keys; past the last group it is yes. A key of a
      group is never turned away from that group's blocks. */
  method KeyMayMatch(policy: Policy, contents: seq<Byte>, blockOffset: nat, key: Key,
                     ghost groups: seq<seq<Key>>) returns (r: bool)
    ensures contents == Contents(policy, groups) && |Filters(policy, groups, |groups|)| < 0x1_0000_0000 ==>
              (NoFalseNegatives(policy) && blockOffset / BASE < |groups| && key in groups[blockOffset / BASE] ==> r)
    ensures contents == Contents(policy, groups) && |Filters(policy, groups, |groups|)| < 0x1_0000_0000 ==>
              r == (blockOffset / BASE < |groups| ==>
                      policy.matches(key, FilterOf(policy, groups[blockOffset / BASE])))
  {
    hide Contents, DecodeFixed32, NoFalseNegatives, FilterOf;
    var n := |contents|;
    ghost var good := contents == Contents(policy, groups) && |Filters(policy, groups, |groups|)| < 0x1_0000_0000;
    if good { BlockShape(policy, groups, blockOffset); }
    if n < 5 {
      return true;
    }
    var baseLg: nat, lastWord := contents[n - 1], DecodeFixed32(contents, n - 5);
    if lastWord > n - 5 {
      return true;
    }
    var num := (n - 5 - lastWord) / 4;
    var index := Shr(blockOffset, baseLg);
    if index < num {
      var start := DecodeFixed32(contents, lastWord + index * 4);
      var limit := DecodeFixed32(contents, lastWord + index * 4 + 4);
      if good {
        ContentsWord(policy, groups, index);
        ContentsWord(policy, groups, index + 1);
        ContentsFilter(policy, groups, index);
        if NoFalseNegatives(policy) && key in groups[index] { MatchesOwn(policy, groups[index], key); }
      }
      if start <= limit && limit <= lastWord {
        r := policy.matches(key, contents[start..limit]);
        return;
      } else if start == limit {
        return false;
      }
    }
    return true;
  }

  lemma MatchesOwn(p: Policy, group: seq<Key>, key: Key)
    requires NoFalseNegatives(p) && key in group
    ensures p.matches(key, FilterOf(p, group))
  {
  }

  lemma BlockShape(p: Policy, groups: seq<seq<Key>>, blockOffset: nat)
    requires |Filters(p, groups, |groups|)| < 0x1_0000_0000
    ensures var c := Contents(p, groups);
            var n := |c|;
            && n >= 5 && c[n - 1] == BASE_LG && DecodeFixed32(c, n - 5) == |Filters(p, groups, |groups|)| <= n - 5
            && (n - 5 - DecodeFixed32(c, n - 5)) / 4 == |groups| && Shr(blockOffset, c[n - 1]) == blockOffset / BASE
  {
    ContentsWord(p, groups, |groups|);
    ShrEleven(blockOffset);
  }

  lemma ShrStep(w: nat, k: nat, half: nat)
    requires k > 0 && half == w / 2
    ensures Shr(w, k) == Shr(half, k - 1)
  {
  }

  /** Eleven shifts, one at a time. */
  lemma ShrEleven(w: nat)
    ensures Shr(w, BASE_LG) == w / BASE
  {
    ShrStep(w, 11, w / 2);
    ShrStep(w / 2, 10, w / 4);
    ShrStep(w / 4, 9, w / 8);
    ShrStep(w / 8, 8, w / 16);
    ShrStep(w / 16, 7, w / 32);
    ShrStep(w / 32, 6, w / 64);
    ShrStep(w / 64, 5, w / 128);
    ShrStep(w / 128, 4, w / 256);
    ShrStep(w / 256, 3, w / 512);
    ShrStep(w / 512, 2, w / 1024);
    ShrStep(w / 1024, 1, w / 2048);
  }
}
