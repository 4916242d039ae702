/** Block::Iter over a block made by BlockBuilder. */
module BlockIter {
  import opened Words
  import opened Coding
  import opened Blocks

  /** A comparator: every total preorder on byte strings is the order of some ranking into the reals. */
  type Rank = Key -> real

  ghost predicate Increasing(es: seq<KV>, rank: Rank) {
    |es| > 1 ==> Increasing(es[..|es| - 1], rank) && rank(es[|es| - 2].key) < rank(es[|es| - 1].key)
  }

  lemma {:induction false} IncreasingAt(es: seq<KV>, rank: Rank, i: nat, j: nat)
    requires Increasing(es, rank) && i < j < |es|
    ensures rank(es[i].key) < rank(es[j].key)
    decreases |es|
  {
    var front := es[..|es| - 1];
    if j < |es| - 1 {
      IncreasingAt(front, rank, i, j);
    } else if i < |es| - 2 {
      IncreasingAt(front, rank, i, j - 1);
    }
  }

  lemma RestartAt(data: seq<Byte>, z: Shape, k: nat)
    requires IsBlock(data, z) && k < |z.rs|
    ensures var ro := z.offs[|z.es|];
            && ro + 4 * k + 4 <= |data| && DecodeFixed32(data, ro + 4 * k) == RestartOffset(z, k)
            && z.rs[k] <= |z.es| && RestartOffset(z, k) == z.offs[z.rs[k]] <= ro
            && (k > 0 ==> z.rs[k] < |z.es|)
  {
    assert RestartOk(z, k);
    OffsetsIncrease(data, z, z.rs[k], |z.es|);
    Fixed32At(data, z.offs[|z.es|] + 4 * k, RestartOffset(z, k));
  }

  /** Block::Block finds the restart array of a finished block. */
  lemma FindsRestarts(data: seq<Byte>, z: Shape)
    requires IsBlock(data, z)
    ensures |data| >= 8
    ensures var n := DecodeFixed32(data, |data| - 4);
            n == |z.rs| && n <= (|data| - 4) / 4 && |data| - (1 + n) * 4 == z.offs[|z.es|]
  {
    hide Fixed32, DecodeFixed32;
    Fixed32At(data, |data| - 4, |z.rs|);
  }

  /** Where entry `i`'s bytes are found, and what comes after. */
  lemma EntryAt(data: seq<Byte>, z: Shape, i: nat)
    requires IsBlock(data, z) && i < |z.es|
    ensures var ro := z.offs[|z.es|];
            && z.offs[i] + 3 <= z.offs[i + 1] <= ro <= |data| && z.sh[i] <= |z.es[i].key|
            && DecodeEntry(data, z.offs[i], ro).Some?
            && var h := DecodeEntry(data, z.offs[i], ro).value;
               && h.shared == z.sh[i] && h.nonShared == |z.es[i].key| - z.sh[i] && h.valueLength == |z.es[i].value|
               && At(data, h.delta, z.es[i].key[z.sh[i]..]) && At(data, h.delta + h.nonShared, z.es[i].value)
               && h.delta + h.nonShared + h.valueLength == z.offs[i + 1]
  {
    assert EntryOk(data, z, i);
    OffsetsIncrease(data, z, i + 1, |z.es|);
    DecodeAt(data, z.offs[i], z.offs[|z.es|], z.es[i], z.sh[i]);
  }

  class Iter {
    const rank: Rank
    const data: seq<Byte>
    const restarts: nat
    const numRestarts: nat
    ghost const z: Shape
    var current: nat
    var restartIndex: nat
    var key: Key
    var valueAt: nat
    var valueLength: nat
    /** Index of the current entry; |z.es| when the iterator is not valid. */
    ghost var idx: nat

    constructor (rank: Rank, data: seq<Byte>, ghost z: Shape)
      requires IsBlock(data, z) && Increasing(z.es, rank)
      ensures this.data == data && this.z == z && this.rank == rank && Inv() && idx == |z.es|
    {
      FindsRestarts(data, z);
      this.rank, this.data, this.z := rank, data, z;
      var n: nat := DecodeFixed32(data, |data| - 4);
      var ro := |data| - (1 + n) * 4;
      numRestarts, restarts, current, restartIndex := n, ro, ro, n;
      key, valueAt, valueLength, idx := [], 0, 0, |z.es|;
    }

    ghost predicate Frame()
      reads this
    {
      IsBlock(data, z) && Increasing(z.es, rank) && restarts == z.offs[|z.es|] && numRestarts == |z.rs|
    }

    /** On entry idx, in the restart region of restartIndex, or lagging one region behind at its first entry. */
    ghost predicate OnEntry()
      reads this
      requires Frame() && idx < |z.es|
    {
      && current == z.offs[idx] && key == z.es[idx].key
      && valueAt + valueLength == z.offs[idx + 1] && valueLength == |z.es[idx].value|
      && At(data, valueAt, z.es[idx].value)
      && restartIndex < numRestarts && z.rs[restartIndex] <= idx
      && (restartIndex + 1 < numRestarts ==> idx <= z.rs[restartIndex + 1])
    }

    ghost predicate Inv()
      reads this
    {
      && Frame() && idx <= |z.es|
      && (if idx < |z.es| then OnEntry() else current == restarts && restartIndex == numRestarts)
    }

    /** Valid(): the model's index agrees with the offset test. */
    predicate IsValid()
      reads this
      requires Inv()
    {
      current < restarts
    }

    lemma ValidIff()
      requires Inv()
      ensures IsValid() <==> idx < |z.es|
    {
      if idx < |z.es| { OffsetsIncrease(data, z, idx, |z.es|); }
    }

    /** key() and value() of the current entry are the added ones. */
    lemma Yields()
      requires Inv() && idx < |z.es|
      ensures key == z.es[idx].key && valueAt + valueLength <= |data|
      ensures data[valueAt..valueAt + valueLength] == z.es[idx].value
    {
      AtSlice(data, valueAt, z.es[idx].value);
    }

    method GetRestartPoint(k: nat) returns (offset: nat)
      requires Frame() && k < numRestarts
      ensures z.rs[k] <= |z.es| && offset == z.offs[z.rs[k]] && (k > 0 ==> z.rs[k] < |z.es|)
    {
      RestartAt(data, z, k);
      offset := DecodeFixed32(data, restarts + 4 * k);
    }

    /** The bytes after the current value start entry `i`, and the saved key has what entry `i` shares. */
    ghost predicate Ready(i: nat)
      reads this
      requires Frame()
    {
      && i <= |z.es| && valueAt + valueLength == z.offs[i]
      && restartIndex < numRestarts && z.rs[restartIndex] <= i
      && (i < |z.es| ==> z.sh[i] <= |key| && z.sh[i] <= |z.es[i].key| && key[..z.sh[i]] == z.es[i].key[..z.sh[i]])
    }

    method SeekToRestartPoint(k: nat)
      requires Frame() && k < numRestarts
      modifies this`key, this`restartIndex, this`valueAt, this`valueLength
      ensures z.rs[k] <= |z.es| && Ready(z.rs[k]) && restartIndex == k
    {
      key := [];
      restartIndex := k;
      var offset := GetRestartPoint(k);
      valueAt, valueLength := offset, 0;
      assert RestartOk(z, k);
    }

    method ParseNextKey(ghost i: nat) returns (more: bool)
      requires Frame() && Ready(i)
      modifies this
      ensures Inv() && idx == i && (more <==> i < |z.es|)
    {
      current := valueAt + valueLength;
      OffsetsIncrease(data, z, i, |z.es|);
      idx := i;
      if current >= restarts {
        current, restartIndex := restarts, numRestarts;
        return false;
      }
      ParseEntry(i);
      AdvanceRestart();
      return true;
    }

    /** Decode entry `i` at the current offset; its key starts with what it shares with the saved one. */
    method ParseEntry(ghost i: nat)
      requires Frame() && i < |z.es| && current == z.offs[i]
      requires z.sh[i] <= |key| && z.sh[i] <= |z.es[i].key| && key[..z.sh[i]] == z.es[i].key[..z.sh[i]]
      modifies this`key, this`valueAt, this`valueLength
      ensures key == z.es[i].key && valueLength == |z.es[i].value|
      ensures valueAt + valueLength == z.offs[i + 1] && At(data, valueAt, z.es[i].value)
    {
      hide IsBlock, Increasing, DecodeEntry, At;
      ParsedEntry(data, z, i, key);
      var h := DecodeEntry(data, current, restarts).value;
      key := key[..h.shared] + data[h.delta..h.delta + h.nonShared];
      valueAt, valueLength := h.delta + h.nonShared, h.valueLength;
    }

    /** Move restartIndex past every restart point before the current entry. */
    method AdvanceRestart()
      requires Frame() && idx < |z.es| && current == z.offs[idx] && restartIndex < numRestarts
      requires z.rs[restartIndex] <= idx
      modifies this`restartIndex
      ensures restartIndex < numRestarts && z.rs[restartIndex] <= idx
      ensures restartIndex + 1 < numRestarts ==> idx <= z.rs[restartIndex + 1]
    {
      while restartIndex + 1 < numRestarts
        invariant restartIndex < numRestarts && z.rs[restartIndex] <= idx
        decreases numRestarts - restartIndex
      {
        var next := GetRestartPoint(restartIndex + 1);
        var r := z.rs[restartIndex + 1];
        if next >= current {
          if r < idx { OffsetsIncrease(data, z, r, idx); }
          return;
        }
        if idx < r { OffsetsIncrease(data, z, idx, r); }
        restartIndex := restartIndex + 1;
      }
    }

    method SeekToFirst()
      requires Inv()
      modifies this
      ensures Inv() && idx == 0
    {
      assert RestartOk(z, 0);
      SeekToRestartPoint(0);
      var _ := ParseNextKey(0);
    }

    method Next()
      requires Inv() && idx < |z.es|
      modifies this
      ensures Inv() && idx == old(idx) + 1
    {
      ReadyNext();
      var _ := ParseNextKey(idx + 1);
    }

    /** After the current entry the next one can be parsed. */
    lemma ReadyNext()
      requires Inv() && idx < |z.es|
      ensures Ready(idx + 1)
    {
      if idx + 1 < |z.es| {
        assert EntryOk(data, z, idx + 1);
        assert z.sh[idx + 1] == 0 ==> key[..0] == z.es[idx + 1].key[..0];
      }
    }

    method SeekToLast()
      requires Inv()
      modifies this
      ensures Inv() && idx == if |z.es| == 0 then 0 else |z.es| - 1
    {
      RestartsIncrease(data, z, 0, numRestarts - 1);
      SeekToRestartPoint(numRestarts - 1);
      assert RestartOk(z, numRestarts - 1);
      var more := ParseNextKey(z.rs[numRestarts - 1]);
      if more { ParseUntil(restarts, |z.es| - 1); }
    }

    /** `while (ParseNextKey() && NextEntryOffset() < limit)`, where `limit` ends entry `last`. */
    method ParseUntil(limit: nat, ghost last: nat)
      requires Inv() && idx <= last < |z.es| && limit == z.offs[last + 1]
      modifies this
      ensures Inv() && idx == last
    {
      OffsetsIncrease(data, z, idx + 1, last + 1);
      while valueAt + valueLength < limit
        invariant Inv() && idx <= last && valueAt + valueLength == z.offs[idx + 1]
        decreases last - idx
      {
        if idx == last { assert false; }
        ReadyNext();
        var _ := ParseNextKey(idx + 1);
      }
      if idx < last { OffsetsIncrease(data, z, idx + 1, last); OffsetsIncrease(data, z, last, last + 1); }
    }

    method Prev()
      requires Inv() && idx < |z.es|
      modifies this
      ensures Inv() && idx == if old(idx) == 0 then |z.es| else old(idx) - 1
    {
      var original := current;
      ghost var i := idx;
      var found := RestartBefore(original, i);
      if !found {
        current, restartIndex, idx := restarts, numRestarts, |z.es|;
        return;
      }
      SeekToRestartPoint(restartIndex);
      var _ := ParseNextKey(z.rs[restartIndex]);
      ParseUntil(original, i - 1);
    }

    /** Scan back to a restart point before the current entry. */
    method RestartBefore(original: nat, ghost i: nat) returns (found: bool)
      requires Frame() && i < |z.es| && original == z.offs[i] && restartIndex < numRestarts && z.rs[restartIndex] <= i
      modifies this`restartIndex
      ensures found ==> restartIndex < numRestarts && z.rs[restartIndex] < i
      ensures !found ==> i == 0
    {
      while true
        invariant restartIndex < numRestarts && z.rs[restartIndex] <= i
        decreases restartIndex
      {
        var point := GetRestartPoint(restartIndex);
        if point < original {
          return true;
        }
        OffsetsIncrease(data, z, z.rs[restartIndex], i);
        if restartIndex == 0 {
          assert RestartOk(z, 0);
          return false;
        }
        RestartsIncrease(data, z, restartIndex - 1, restartIndex);
        restartIndex := restartIndex - 1;
      }
    }

    /** Everything before entry `i` ranks below the target. */
    ghost predicate BelowUpTo(target: Key, i: nat)
      reads this
      requires Frame() && i <= |z.es|
    {
      forall j :: 0 <= j < i ==> rank(z.es[j].key) < rank(target)
    }

    lemma BelowUpToEntry(target: Key, i: nat)
      requires Frame() && i < |z.es| && rank(z.es[i].key) < rank(target)
      ensures BelowUpTo(target, i + 1)
    {
      forall j | 0 <= j < i ensures rank(z.es[j].key) < rank(target) { IncreasingAt(z.es, rank, j, i); }
    }

    /** Binary search over the restart keys: the result is `left` or a restart point below the target. */
    method SearchRestarts(target: Key, left0: nat, right0: nat) returns (left: nat)
      requires Frame() && left0 <= right0 < numRestarts
      requires z.rs[left0] <= |z.es| && BelowUpTo(target, z.rs[left0])
      ensures left0 <= left <= right0 && z.rs[left] <= |z.es| && BelowUpTo(target, z.rs[left])
    {
      left := left0;
      var right := right0;
      while left < right
        invariant left0 <= left <= right <= right0
        invariant z.rs[left] <= |z.es| && BelowUpTo(target, z.rs[left])
        decreases right - left
      {
        var mid := (left + right + 1) / 2;
        var midKey := RestartKey(mid);
        if rank(midKey) < rank(target) {
          left := mid;
          BelowUpToEntry(target, z.rs[mid]);
          BelowLess(target, z.rs[mid]);
        } else {
          right := mid - 1;
        }
      }
    }

    lemma BelowLess(target: Key, i: nat)
      requires Frame() && i < |z.es| && BelowUpTo(target, i + 1)
      ensures BelowUpTo(target, i)
    {
    }

    /** The full key stored at a restart point: nothing is shared there. */
    method RestartKey(k: nat) returns (midKey: Key)
      requires Frame() && 0 < k < numRestarts
      ensures z.rs[k] < |z.es| && midKey == z.es[z.rs[k]].key
    {
      var offset := GetRestartPoint(k);
      assert RestartOk(z, k);
      ghost var i := z.rs[k];
      EntryAt(data, z, i);
      var h := DecodeEntry(data, offset, restarts).value;
      AtSlice(data, h.delta, z.es[i].key[0..]);
      midKey := data[h.delta..h.delta + h.nonShared];
    }

    /** Seek lands on the first key at or after the target, whatever entry the iterator was on. */
    method Seek(target: Key)
      requires Inv()
      modifies this
      ensures Inv()
      ensures BelowUpTo(target, idx) && (idx < |z.es| ==> rank(target) <= rank(z.es[idx].key))
    {
      var left, right := 0, numRestarts - 1;
      var compare := 0;
      ValidIff();
      assert RestartOk(z, 0);
      if IsValid() {
        if rank(key) < rank(target) {
          compare, left := -1, restartIndex;
          BelowUpToEntry(target, idx);
        } else if rank(key) > rank(target) {
          compare, right := 1, restartIndex;
        } else {
          forall j | 0 <= j < idx ensures rank(z.es[j].key) < rank(target) { IncreasingAt(z.es, rank, j, idx); }
          return;
        }
      }
      left := SearchRestarts(target, left, right);
      ghost var i;
      if left == restartIndex && compare < 0 {
        ReadyNext();
        i := idx + 1;
      } else {
        SeekToRestartPoint(left);
        i := z.rs[left];
      }
      ScanFor(target, i);
    }

    /** Linear search for the first key at or after the target. */
    method ScanFor(target: Key, ghost i: nat)
      requires Frame() && Ready(i) && BelowUpTo(target, i)
      modifies this
      ensures Inv()
      ensures BelowUpTo(target, idx) && (idx < |z.es| ==> rank(target) <= rank(z.es[idx].key))
    {
      var more := ParseNextKey(i);
      while more && rank(key) < rank(target)
        invariant Inv() && (more <==> idx < |z.es|) && BelowUpTo(target, idx)
        decreases |z.es| - idx
      {
        BelowUpToEntry(target, idx);
        ReadyNext();
        more := ParseNextKey(idx + 1);
      }
    }
  }

  /** What the bytes of entry `i` and the previous key give. */
  lemma ParsedEntry(data: seq<Byte>, z: Shape, i: nat, prev: Key)
    requires IsBlock(data, z) && i < |z.es| && z.sh[i] <= |prev| && z.sh[i] <= |z.es[i].key|
    requires prev[..z.sh[i]] == z.es[i].key[..z.sh[i]]
    ensures z.offs[|z.es|] <= |data| && DecodeEntry(data, z.offs[i], z.offs[|z.es|]).Some?
    ensures var h := DecodeEntry(data, z.offs[i], z.offs[|z.es|]).value;
            && h.shared <= |prev| && h.delta + h.nonShared + h.valueLength == z.offs[i + 1] <= |data|
            && prev[..h.shared] + data[h.delta..h.delta + h.nonShared] == z.es[i].key
            && h.valueLength == |z.es[i].value| && At(data, h.delta + h.nonShared, z.es[i].value)
  {
    EntryAt(data, z, i);
    hide IsBlock, DecodeEntry;
    var h := DecodeEntry(data, z.offs[i], z.offs[|z.es|]).value;
    JoinKey(data, h.delta, prev, z.es[i].key, z.sh[i]);
  }

  lemma JoinKey(data: seq<Byte>, p: nat, prev: Key, key: Key, shared: nat)
    requires shared <= |prev| && shared <= |key| && prev[..shared] == key[..shared] && At(data, p, key[shared..])
    ensures prev[..shared] + data[p..p + |key| - shared] == key
  {
    AtSlice(data, p, key[shared..]);
    assert key == key[..shared] + key[shared..];
  }
}
