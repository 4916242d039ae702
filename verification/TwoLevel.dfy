/** The two-level iterator: an index over blocks behaves as one cursor over the concatenation of the blocks. */
module TwoLevel {
  import opened Wrappers
  import opened Merger

  datatype IndexEntry = IndexEntry(key: int, handle: int)

  /** block_function_: the entries of the block a handle names. */
  type BlockFunction = int -> seq<Pair>

  ghost function Concat(index: seq<IndexEntry>, block: BlockFunction): seq<Pair> {
    if |index| == 0 then [] else Concat(index[..|index| - 1], block) + block(index[|index| - 1].handle)
  }

  /** How many entries precede block `i`. */
  ghost function Offset(index: seq<IndexEntry>, block: BlockFunction, i: nat): nat
    requires i <= |index|
  {
    |Concat(index[..i], block)|
  }

  lemma OffsetStep(index: seq<IndexEntry>, block: BlockFunction, i: nat)
    requires i < |index|
    ensures Offset(index, block, i + 1) == Offset(index, block, i) + |block(index[i].handle)|
  {
    assert index[..i + 1][..i] == index[..i];
  }

  /** Block `i` starts at its offset. */
  lemma {:induction false} BlockAt(index: seq<IndexEntry>, block: BlockFunction, i: nat, p: nat)
    requires i < |index| && p < |block(index[i].handle)|
    ensures Offset(index, block, i) + p < |Concat(index, block)|
    ensures Concat(index, block)[Offset(index, block, i) + p] == block(index[i].handle)[p]
  {
    var n := |index| - 1;
    if i == n {
      assert index[..i] == index[..n];
    } else {
      BlockAt(index[..n], block, i, p);
      assert index[..n][..i] == index[..i];
    }
  }

  lemma {:induction false} Locate(index: seq<IndexEntry>, block: BlockFunction, q: nat) returns (i: nat, p: nat)
    requires q < |Concat(index, block)|
    ensures i < |index| && p < |block(index[i].handle)| && q == Offset(index, block, i) + p
    ensures Concat(index, block)[q] == block(index[i].handle)[p]
  {
    var n := |index| - 1;
    if q < |Concat(index[..n], block)| {
      i, p := Locate(index[..n], block, q);
      assert index[..n][..i] == index[..i];
    } else {
      i, p := n, q - |Concat(index[..n], block)|;
    }
  }

  /** Index keys separate the blocks: at or after every key of their block, before every later key. */
  ghost predicate Separates(index: seq<IndexEntry>, block: BlockFunction) {
    && (forall i, j :: 0 <= i < j < |index| ==> index[i].key < index[j].key)
    && (forall i, e :: 0 <= i < |index| && e in block(index[i].handle) ==> e.key <= index[i].key)
    && (forall i, j, e :: 0 <= i < j < |index| && e in block(index[j].handle) ==> index[i].key < e.key)
  }

  class TwoLevelIterator {
    const index: seq<IndexEntry>
    const block: BlockFunction
    /** Position of the index iterator; its length if not valid. */
    var indexPos: nat
    /** The handle of the open block and the position in it; the block's length if that iterator is not valid. */
    var data: Option<(int, nat)>

    constructor (index: seq<IndexEntry>, block: BlockFunction)
      ensures this.index == index && this.block == block && Valid() && At() == |All()|
    {
      this.index, this.block := index, block;
      indexPos, data := |index|, None;
    }

    ghost function All(): seq<Pair> { Concat(index, block) }

    /** The open block is the one the index iterator points at. */
    ghost predicate Shaped()
      reads this
    {
      && indexPos <= |index|
      && (data.None? <==> indexPos == |index|)
      && (data.Some? ==> data.value.0 == index[indexPos].handle && data.value.1 <= |block(data.value.0)|)
    }

    predicate DataValid()
      reads this
    {
      data.Some? && data.value.1 < |block(data.value.0)|
    }

    function Key(): Pair
      reads this
      requires DataValid()
    {
      block(data.value.0)[data.value.1]
    }

    ghost predicate Valid()
      reads this
    {
      Shaped() && (data.Some? ==> DataValid())
    }

    /** The cursor: the position in the concatenation; its length if not valid. */
    ghost function At(): nat
      reads this
      requires Shaped()
    {
      if data.None? then |All()| else Offset(index, block, indexPos) + data.value.1
    }

    /** A valid iterator stands on the entry at its cursor. */
    lemma KeyIsCursor()
      requires Valid()
      ensures data.None? <==> At() == |All()|
      ensures data.Some? ==> At() < |All()| && Key() == All()[At()]
    {
      if data.Some? { BlockAt(index, block, indexPos, data.value.1); }
    }

    /** InitDataBlock: open the block under the index iterator unless it is open already. */
    method InitDataBlock()
      requires indexPos <= |index| && (data.Some? ==> data.value.1 <= |block(data.value.0)|)
      modifies this`data
      ensures Shaped()
    {
      if indexPos == |index| {
        data := None;
      } else {
        var handle := index[indexPos].handle;
        if data.Some? && handle == data.value.0 {
        } else {
          data := Some((handle, |block(handle)|));
        }
      }
    }

    /** data_iter_.SeekToFirst(), if there is one. */
    method DataToFirst()
      requires Shaped()
      modifies this`data
      ensures Shaped() && (data.Some? ==> data.value.1 == 0)
    {
      if data.Some? { data := Some((data.value.0, 0)); }
    }

    method DataToLast()
      requires Shaped()
      modifies this`data
      ensures Shaped()
      ensures (data.Some? ==> data.value.1 == if |block(data.value.0)| > 0 then |block(data.value.0)| - 1 else 0)
    {
      if data.Some? {
        var n := |block(data.value.0)|;
        data := Some((data.value.0, if n > 0 then n - 1 else 0));
      }
    }

    method SkipEmptyDataBlocksForward()
      requires Shaped()
      modifies this
      ensures Valid() && At() == old(At())
    {
      while data.None? || !DataValid()
        invariant Shaped() && At() == old(At())
        decreases |index| - indexPos, data.Some?
      {
        if indexPos == |index| {
          data := None;
          return;
        }
        OffsetStep(index, block, indexPos);
        assert index[..|index|] == index;
        indexPos := indexPos + 1;
        InitDataBlock();
        DataToFirst();
      }
    }

    /** How many entries lie at or before the cursor, counting none of the open block when its iterator is not valid. */
    ghost function UpTo(): nat
      reads this
      requires Shaped()
    {
      if data.None? then 0 else Offset(index, block, indexPos) + if DataValid() then data.value.1 + 1 else 0
    }

    method SkipEmptyDataBlocksBackward()
      requires Shaped()
      modifies this
      ensures Valid() && At() == if old(UpTo()) == 0 then |All()| else old(UpTo()) - 1
    {
      while data.None? || !DataValid()
        invariant Shaped() && UpTo() == old(UpTo())
        decreases if data.None? then 0 else indexPos + 1
      {
        if indexPos == |index| {
          data := None;
          return;
        }
        if indexPos > 0 { OffsetStep(index, block, indexPos - 1); }
        indexPos := if indexPos > 0 then indexPos - 1 else |index|;
        InitDataBlock();
        DataToLast();
      }
    }

    method SeekToFirst()
      requires Valid()
      modifies this
      ensures Valid() && At() == 0
    {
      indexPos := 0;
      InitDataBlock();
      DataToFirst();
      SkipEmptyDataBlocksForward();
    }

    method SeekToLast()
      requires Valid()
      modifies this
      ensures Valid() && At() == if |All()| > 0 then |All()| - 1 else 0
    {
      assert index[..|index|] == index;
      if |index| > 0 { OffsetStep(index, block, |index| - 1); }
      indexPos := if |index| > 0 then |index| - 1 else 0;
      InitDataBlock();
      DataToLast();
      SkipEmptyDataBlocksBackward();
    }

    method Next()
      requires Valid() && data.Some?
      modifies this
      ensures Valid() && At() == old(At()) + 1
    {
      data := Some((data.value.0, data.value.1 + 1));
      SkipEmptyDataBlocksForward();
    }

    method Prev()
      requires Valid() && data.Some?
      modifies this
      ensures Valid() && At() == if old(At()) > 0 then old(At()) - 1 else |All()|
    {
      data := Some((data.value.0, Back(block(data.value.0), data.value.1)));
      SkipEmptyDataBlocksBackward();
    }

    /** index_iter_.Seek(): the first index entry at or after the target. */
    method IndexSeek(target: int)
      requires Separates(index, block)
      modifies this`indexPos
      ensures indexPos <= |index|
      ensures forall i :: 0 <= i < indexPos ==> index[i].key < target
      ensures indexPos < |index| ==> index[indexPos].key >= target
    {
      indexPos := 0;
      while indexPos < |index| && index[indexPos].key < target
        invariant indexPos <= |index| && forall i :: 0 <= i < indexPos ==> index[i].key < target
      {
        indexPos := indexPos + 1;
      }
    }

    method Seek(target: int)
      requires Valid() && Separates(index, block) && Ascending(All())
      modifies this
      ensures Valid() && AtSeek(All(), target, At())
    {
      IndexSeek(target);
      InitDataBlock();
      if data.Some? {
        BlockAscending(indexPos);
        var p := LowerBound(block(data.value.0), target);
        data := Some((data.value.0, p));
      }
      SeekLands(target);
      SkipEmptyDataBlocksForward();
    }

    lemma BlockAscending(i: nat)
      requires Ascending(All()) && i < |index|
      ensures Ascending(block(index[i].handle))
    {
      var b := block(index[i].handle);
      forall p, q | 0 <= p < q < |b| ensures b[p].key < b[q].key {
        BlockAt(index, block, i, p);
        BlockAt(index, block, i, q);
      }
    }

    lemma SeekLands(target: int)
      requires Shaped() && Separates(index, block) && Ascending(All())
      requires forall i :: 0 <= i < indexPos ==> index[i].key < target
      requires indexPos < |index| ==> index[indexPos].key >= target && AtSeek(block(data.value.0), target, data.value.1)
      ensures AtSeek(All(), target, At())
    {
      forall q | 0 <= q < |All()|
        ensures q < At() <==> All()[q].key < target
      {
        var i, p := Locate(index, block, q);
        assert block(index[i].handle)[p] in block(index[i].handle);
        OffsetsAscend(i, indexPos);
        OffsetsAscend(indexPos, i);
      }
      assert index[..|index|] == index;
      if data.Some? {
        OffsetStep(index, block, indexPos);
        OffsetsAscend(indexPos + 1, |index|);
      }
    }

    lemma {:induction false} OffsetsAscend(i: nat, j: nat)
      requires i <= |index| && j <= |index|
      ensures i < j ==> Offset(index, block, i) + |block(index[i].handle)| <= Offset(index, block, j)
      ensures i == j ==> Offset(index, block, i) == Offset(index, block, j)
      decreases j
    {
      if i < j {
        OffsetStep(index, block, j - 1);
        OffsetsAscend(i, j - 1);
      }
    }
  }
}
