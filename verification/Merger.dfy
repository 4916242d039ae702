/** The merging iterator: several sorted children behave as one cursor over their sorted union. */
module Merger {
  import opened Wrappers

  /** A key is its rank under the comparator. */
  datatype Pair = Pair(key: int, value: seq<nat>)

  ghost predicate Ascending(es: seq<Pair>) {
    forall i, j :: 0 <= i < j < |es| ==> es[i].key < es[j].key
  }

  /** `p` is the first position with a key at or after `k`. */
  ghost predicate AtSeek(es: seq<Pair>, k: int, p: nat) {
    && p <= |es|
    && (forall j :: 0 <= j < p ==> es[j].key < k)
    && (forall j :: p <= j < |es| ==> es[j].key >= k)
  }

  /** `p` is the last position with a key before `k`; the end of the sequence if there is none. */
  ghost predicate AtBefore(es: seq<Pair>, k: int, p: nat) {
    && p <= |es|
    && (p < |es| ==> es[p].key < k)
    && (forall j :: (if p < |es| then p + 1 else 0) <= j < |es| ==> es[j].key >= k)
  }

  /** The children's keys are pairwise distinct. */
  ghost predicate Distinct(children: seq<seq<Pair>>) {
    forall i, j, a, b :: 0 <= i < j < |children| && a in children[i] && b in children[j] ==> a.key != b.key
  }

  ghost predicate InSome(children: seq<seq<Pair>>, e: Pair) { exists i :: 0 <= i < |children| && e in children[i] }

  ghost predicate IsMerge(children: seq<seq<Pair>>, merged: seq<Pair>) {
    Ascending(merged) && forall e :: e in merged <==> InSome(children, e)
  }

  /** Merging is possible: the sorted union exists. */
  ghost function Insert(es: seq<Pair>, e: Pair): (r: seq<Pair>)
    requires Ascending(es) && forall x :: x in es ==> x.key != e.key
    ensures Ascending(r) && forall x :: x in r <==> x == e || x in es
  {
    if |es| == 0 then [e]
    else
      assert es == [es[0]] + es[1..];
      if e.key < es[0].key then [e] + es
      else
        var rest := Insert(es[1..], e);
        assert forall x :: x in rest ==> es[0].key < x.key;
        ConsAscending(es[0], rest);
        [es[0]] + rest
  }

  lemma ConsAscending(x: Pair, rest: seq<Pair>)
    requires Ascending(rest) && forall y :: y in rest ==> x.key < y.key
    ensures Ascending([x] + rest)
  {
  }

  ghost function Union(a: seq<Pair>, b: seq<Pair>): (r: seq<Pair>)
    requires Ascending(a) && Ascending(b) && forall x, y :: x in a && y in b ==> x.key != y.key
    ensures Ascending(r) && forall x :: x in r <==> x in a || x in b
    decreases |b|
  {
    if |b| == 0 then a
    else
      assert b == [b[0]] + b[1..];
      Union(Insert(a, b[0]), b[1..])
  }

  ghost function Merge(children: seq<seq<Pair>>): (r: seq<Pair>)
    requires Distinct(children) && forall i :: 0 <= i < |children| ==> Ascending(children[i])
    ensures IsMerge(children, r)
  {
    if |children| == 0 then []
    else
      var n := |children| - 1;
      var front := Merge(children[..n]);
      FrontApart(children, front);
      var r := Union(front, children[n]);
      UnionIsMerge(children, front, r);
      r
  }

  lemma FrontApart(children: seq<seq<Pair>>, front: seq<Pair>)
    requires |children| > 0 && Distinct(children) && IsMerge(children[..|children| - 1], front)
    ensures forall x, y :: x in front && y in children[|children| - 1] ==> x.key != y.key
  {
    forall x, y | x in front && y in children[|children| - 1] ensures x.key != y.key {
      var i :| 0 <= i < |children| - 1 && x in children[..|children| - 1][i];
    }
  }

  lemma UnionIsMerge(children: seq<seq<Pair>>, front: seq<Pair>, r: seq<Pair>)
    requires |children| > 0 && IsMerge(children[..|children| - 1], front)
    requires Ascending(r) && forall x :: x in r <==> x in front || x in children[|children| - 1]
    ensures IsMerge(children, r)
  {
    var n := |children| - 1;
    forall e ensures InSome(children, e) <==> InSome(children[..n], e) || e in children[n] {
      assert children == children[..n] + [children[n]];
    }
  }

  method LowerBound(es: seq<Pair>, k: int) returns (p: nat)
    requires Ascending(es)
    ensures AtSeek(es, k, p)
  {
    p := 0;
    while p < |es| && es[p].key < k
      invariant p <= |es| && forall j :: 0 <= j < p ==> es[j].key < k
    {
      p := p + 1;
    }
  }

  class MergingIterator {
    const children: seq<seq<Pair>>
    /** What the iterator ranges over. */
    ghost const merged: seq<Pair>
    /** Position of each child; its length if the child is not valid. */
    var pos: seq<nat>
    var current: Option<nat>
    var forward: bool
    /** Position in `merged`; its length if the iterator is not valid. */
    ghost var at: nat

    constructor (children: seq<seq<Pair>>)
      requires Distinct(children) && forall i :: 0 <= i < |children| ==> Ascending(children[i])
      ensures Valid() && this.children == children && at == |merged|
    {
      this.children, merged := children, Merge(children);
      pos := seq(|children|, i requires 0 <= i < |children| => |children[i]|);
      current, forward, at := None, true, |Merge(children)|;
    }

    ghost predicate Shaped()
      reads this
    {
      && Distinct(children) && (forall i :: 0 <= i < |children| ==> Ascending(children[i]))
      && IsMerge(children, merged)
      && |pos| == |children| && forall i :: 0 <= i < |pos| ==> pos[i] <= |children[i]|
    }

    predicate ChildValid(i: nat)
      reads this
      requires |pos| == |children| && i < |children|
    {
      pos[i] < |children[i]|
    }

    function ChildEntry(i: nat): Pair
      reads this
      requires |pos| == |children| && i < |children| && ChildValid(i)
    {
      children[i][pos[i]]
    }

    ghost predicate AllAtSeek(k: int)
      reads this
      requires |pos| == |children|
    {
      forall i :: 0 <= i < |children| ==> AtSeek(children[i], k, pos[i])
    }

    ghost predicate AllAtBefore(k: int)
      reads this
      requires |pos| == |children|
    {
      forall i :: 0 <= i < |children| ==> AtBefore(children[i], k, pos[i])
    }

    /** The current entry is the one at the cursor. */
    ghost predicate AtCursor()
      reads this
      requires |pos| == |children|
    {
      match current
      case None => at == |merged|
      case Some(c) => c < |children| && ChildValid(c) && at < |merged| && merged[at] == ChildEntry(c)
    }

    /** Where the other children stand depends on the direction. */
    ghost predicate OthersPlaced()
      reads this
      requires |pos| == |children| && AtCursor()
    {
      current.Some? ==>
        forall i :: 0 <= i < |children| && i != current.value ==>
          var k := ChildEntry(current.value).key;
          if forward then AtSeek(children[i], k, pos[i]) else AtBefore(children[i], k, pos[i])
    }

    ghost predicate Valid()
      reads this
    {
      Shaped() && AtCursor() && OthersPlaced()
    }

    /** The smallest key at which a child stands is the next one of the union. */
    lemma SmallestIsNext(k: int, c: nat, q: nat)
      requires Shaped() && AllAtSeek(k) && IsSmallest(c) && q < |merged| && merged[q] == ChildEntry(c)
      ensures AtSeek(merged, k, q)
    {
      hide Distinct;
      SmallestKeepsSeek(k, c);
      forall j | 0 <= j < q ensures merged[j].key < k {
        assert merged[j] in merged && merged[j].key < merged[q].key;
        var i :| 0 <= i < |children| && merged[j] in children[i];
        var t :| 0 <= t < |children[i]| && children[i][t] == merged[j];
        assert t < pos[i];
      }
    }

    lemma SmallestKeepsSeek(k: int, c: nat)
      requires Shaped() && AllAtSeek(k) && IsSmallest(c)
      ensures AllAtSeek(ChildEntry(c).key)
    {
      forall i | 0 <= i < |children| ensures AtSeek(children[i], ChildEntry(c).key, pos[i]) {
        assert forall t :: pos[i] <= t < |children[i]| ==> children[i][pos[i]].key <= children[i][t].key;
      }
    }

    ghost predicate NoneValid()
      reads this
      requires |pos| == |children|
    {
      forall i :: 0 <= i < |children| ==> pos[i] >= |children[i]|
    }

    lemma NoneIsEnd(k: int)
      requires Shaped() && AllAtSeek(k) && NoneValid()
      ensures AtSeek(merged, k, |merged|)
    {
      forall j | 0 <= j < |merged| ensures merged[j].key < k {
        assert merged[j] in merged;
        var i :| 0 <= i < |children| && merged[j] in children[i];
        var t :| 0 <= t < |children[i]| && children[i][t] == merged[j];
      }
    }

    lemma IndexOf(c: nat) returns (q: nat)
      requires Shaped() && c < |children| && ChildValid(c)
      ensures q < |merged| && merged[q] == ChildEntry(c)
    {
      assert InSome(children, ChildEntry(c));
      q :| 0 <= q < |merged| && merged[q] == ChildEntry(c);
    }

    /** `c` is a valid child with the smallest key of all valid children. */
    ghost predicate IsSmallest(c: nat)
      reads this
      requires |pos| == |children|
    {
      && c < |children| && ChildValid(c)
      && forall i :: 0 <= i < |children| && pos[i] < |children[i]| ==> ChildEntry(c).key <= children[i][pos[i]].key
    }

    method Smallest() returns (smallest: Option<nat>)
      requires Shaped()
      ensures if smallest.None? then NoneValid() else IsSmallest(smallest.value)
    {
      hide Distinct, IsMerge, Ascending;
      smallest := None;
      for i := 0 to |children|
        invariant smallest.Some? ==> smallest.value < |children| && ChildValid(smallest.value)
        invariant forall j :: 0 <= j < i && pos[j] < |children[j]| ==>
                    smallest.Some? && ChildEntry(smallest.value).key <= children[j][pos[j]].key
      {
        if ChildValid(i) {
          if smallest.None? || ChildEntry(i).key < ChildEntry(smallest.value).key {
            smallest := Some(i);
          }
        }
      }
    }

    method FindSmallest(ghost k: int)
      requires Shaped() && AllAtSeek(k)
      modifies this`current, this`at, this`forward
      ensures Valid() && forward && AtSeek(merged, k, at)
    {
      hide Distinct, IsMerge, Ascending;
      var smallest := Smallest();
      ghost var q := |merged|;
      if smallest.None? {
        NoneIsEnd(k);
      } else {
        q := IndexOf(smallest.value);
        SmallestIsNext(k, smallest.value, q);
        SmallestKeepsSeek(k, smallest.value);
      }
      current, forward, at := smallest, true, q;
    }

    lemma LargestIsPrevious(k: int, c: nat, q: nat)
      requires Shaped() && AllAtBefore(k) && IsLargest(c) && q < |merged| && merged[q] == ChildEntry(c)
      ensures AtBefore(merged, k, q)
    {
      hide Distinct;
      UpToHere(c);
      forall j | q < j < |merged| ensures merged[j].key >= k {
        assert merged[j] in merged && merged[q].key < merged[j].key;
        var i :| 0 <= i < |children| && merged[j] in children[i];
        var t :| 0 <= t < |children[i]| && children[i][t] == merged[j];
        assert AtBefore(children[i], k, pos[i]);
      }
    }

    lemma UpToHere(c: nat)
      requires Shaped() && IsLargest(c)
      ensures forall i, t :: 0 <= i < |children| && 0 <= t <= pos[i] < |children[i]| ==>
                children[i][t].key <= ChildEntry(c).key
    {
      forall i, t | 0 <= i < |children| && 0 <= t <= pos[i] < |children[i]|
        ensures children[i][t].key <= ChildEntry(c).key
      {
        assert children[i][t].key <= children[i][pos[i]].key;
      }
    }

    lemma LargestKeepsBefore(k: int, c: nat)
      requires Shaped() && AllAtBefore(k) && IsLargest(c)
      ensures forall i :: 0 <= i < |children| && i != c ==> AtBefore(children[i], ChildEntry(c).key, pos[i])
    {
      forall i | 0 <= i < |children| && i != c ensures AtBefore(children[i], ChildEntry(c).key, pos[i]) {
        assert ChildEntry(c) in children[c];
        assert pos[i] < |children[i]| ==>
               children[i][pos[i]] in children[i] && children[i][pos[i]].key != ChildEntry(c).key;
      }
    }

    lemma NoneIsStart(k: int)
      requires Shaped() && AllAtBefore(k) && NoneValid()
      ensures AtBefore(merged, k, |merged|)
    {
      forall j | 0 <= j < |merged| ensures merged[j].key >= k {
        assert merged[j] in merged;
        var i :| 0 <= i < |children| && merged[j] in children[i];
        var t :| 0 <= t < |children[i]| && children[i][t] == merged[j];
      }
    }

    ghost predicate IsLargest(c: nat)
      reads this
      requires |pos| == |children|
    {
      && c < |children| && ChildValid(c)
      && forall i :: 0 <= i < |children| && pos[i] < |children[i]| ==> ChildEntry(c).key >= children[i][pos[i]].key
    }

    method Largest() returns (largest: Option<nat>)
      requires Shaped()
      ensures if largest.None? then NoneValid() else IsLargest(largest.value)
    {
      hide Distinct, IsMerge, Ascending;
      largest := None;
      var i := |children|;
      while i > 0
        invariant 0 <= i <= |children|
        invariant largest.Some? ==> largest.value < |children| && ChildValid(largest.value)
        invariant forall j :: i <= j < |children| && pos[j] < |children[j]| ==>
                    largest.Some? && ChildEntry(largest.value).key >= children[j][pos[j]].key
      {
        i := i - 1;
        if ChildValid(i) {
          if largest.None? || ChildEntry(i).key > ChildEntry(largest.value).key {
            largest := Some(i);
          }
        }
      }
    }

    method FindLargest(ghost k: int)
      requires Shaped() && AllAtBefore(k)
      modifies this`current, this`at, this`forward
      ensures Valid() && !forward && AtBefore(merged, k, at)
    {
      hide Distinct, IsMerge, Ascending;
      var largest := Largest();
      ghost var q := |merged|;
      if largest.None? {
        NoneIsStart(k);
      } else {
        q := IndexOf(largest.value);
        LargestIsPrevious(k, largest.value, q);
        LargestKeepsBefore(k, largest.value);
      }
      current, forward, at := largest, false, q;
    }

    lemma InMerged(i: nat, t: nat)
      requires Shaped() && i < |children| && t < |children[i]|
      ensures |merged| > 0 && merged[0].key <= children[i][t].key <= merged[|merged| - 1].key
    {
      assert children[i][t] in children[i] && InSome(children, children[i][t]);
      var q :| 0 <= q < |merged| && merged[q] == children[i][t];
    }

    /** A child's first entry is where it stands for the first key of the union. */
    lemma FirstAtSeek(i: nat, k: int)
      requires Shaped() && i < |children| && k == if |merged| > 0 then merged[0].key else 0
      ensures AtSeek(children[i], k, 0)
    {
      forall t | 0 <= t < |children[i]| ensures children[i][t].key >= k { InMerged(i, t); }
    }

    method SeekToFirst()
      requires Valid()
      modifies this
      ensures Valid() && at == 0
    {
      ghost var k := if |merged| > 0 then merged[0].key else 0;
      var i := 0;
      while i < |children|
        invariant 0 <= i <= |children| && Shaped()
        invariant forall j :: 0 <= j < i ==> AtSeek(children[j], k, pos[j])
      {
        FirstAtSeek(i, k);
        pos := pos[i := 0];
        i := i + 1;
      }
      FindSmallest(k);
    }

    /** A child's last entry is where it stands before the end of the union. */
    lemma LastBefore(i: nat, k: int)
      requires Shaped() && i < |children| && k == if |merged| > 0 then merged[|merged| - 1].key + 1 else 0
      ensures AtBefore(children[i], k, if |children[i]| > 0 then |children[i]| - 1 else 0)
    {
      if |children[i]| > 0 { InMerged(i, |children[i]| - 1); }
    }

    method SeekToLast()
      requires Valid()
      modifies this
      ensures Valid() && at == if |merged| > 0 then |merged| - 1 else 0
    {
      ghost var k := if |merged| > 0 then merged[|merged| - 1].key + 1 else 0;
      var i := 0;
      while i < |children|
        invariant 0 <= i <= |children| && Shaped()
        invariant forall j :: 0 <= j < i ==> AtBefore(children[j], k, pos[j])
      {
        LastBefore(i, k);
        pos := pos[i := if |children[i]| > 0 then |children[i]| - 1 else 0];
        i := i + 1;
      }
      FindLargest(k);
      BeforeEnd(merged, at);
    }

    method Seek(target: int)
      requires Valid()
      modifies this
      ensures Valid() && AtSeek(merged, target, at)
    {
      var i := 0;
      while i < |children|
        invariant 0 <= i <= |children| && Shaped()
        invariant forall j :: 0 <= j < i ==> AtSeek(children[j], target, pos[j])
      {
        var p := LowerBound(children[i], target);
        pos := pos[i := p];
        i := i + 1;
      }
      FindSmallest(target);
    }

    ghost predicate OthersAtSeek(c: nat, k: int)
      reads this
      requires |pos| == |children|
    {
      forall i :: 0 <= i < |children| && i != c ==> AtSeek(children[i], k, pos[i])
    }

    /** Forward, every other child already stands after the current key, since keys are distinct. */
    lemma OthersAfter(c: nat)
      requires Shaped() && c < |children| && ChildValid(c) && OthersAtSeek(c, ChildEntry(c).key)
      ensures OthersAtSeek(c, ChildEntry(c).key + 1)
    {
      hide IsMerge, Ascending;
      forall i, t | 0 <= i < |children| && i != c && 0 <= t < |children[i]|
        ensures children[i][t].key != ChildEntry(c).key
      {
        assert children[i][t] in children[i] && ChildEntry(c) in children[c];
      }
    }

    /** current_->Next(). */
    method AdvanceCurrent(c: nat)
      requires Shaped() && c < |children| && ChildValid(c) && OthersAtSeek(c, ChildEntry(c).key + 1)
      modifies this`pos
      ensures Shaped() && AllAtSeek(old(ChildEntry(c)).key + 1)
    {
      SeekAdvances(children[c], pos[c]);
      hide Distinct, IsMerge, Ascending, AtSeek;
      pos := pos[c := pos[c] + 1];
    }

    /** Reposition the other children after the current key. */
    method SwitchForward(c: nat)
      requires Shaped() && c < |children| && ChildValid(c)
      modifies this`pos
      ensures Shaped() && pos[c] == old(pos[c]) && OthersAtSeek(c, ChildEntry(c).key + 1)
    {
      hide Distinct, IsMerge;
      var key := ChildEntry(c).key;
      var i := 0;
      while i < |children|
        invariant 0 <= i <= |children| && Shaped() && pos[c] == old(pos[c])
        invariant forall j :: 0 <= j < i && j != c ==> AtSeek(children[j], key + 1, pos[j])
      {
        if i != c {
          var p := LowerBound(children[i], key);
          if p < |children[i]| && children[i][p].key == key {
            p := p + 1;
          }
          pos := pos[i := p];
        }
        i := i + 1;
      }
    }

    method Next()
      requires Valid() && current.Some?
      modifies this
      ensures Valid() && at == old(at) + 1
    {
      var c := current.value;
      ghost var key := ChildEntry(c).key;
      if !forward {
        SwitchForward(c);
      } else {
        OthersAfter(c);
      }
      AdvanceCurrent(c);
      FindSmallest(key + 1);
      SeekNext(merged, old(at), at);
    }

    /** Reposition the other children before the current key. */
    method SwitchBackward(c: nat)
      requires Shaped() && c < |children| && ChildValid(c)
      modifies this`pos
      ensures Shaped() && pos[c] == old(pos[c])
      ensures forall i :: 0 <= i < |children| && i != c ==> AtBefore(children[i], ChildEntry(c).key, pos[i])
    {
      hide Distinct, IsMerge;
      var key := ChildEntry(c).key;
      var i := 0;
      while i < |children|
        invariant 0 <= i <= |children| && Shaped() && pos[c] == old(pos[c])
        invariant forall j :: 0 <= j < i && j != c ==> AtBefore(children[j], key, pos[j])
      {
        if i != c {
          var p := SeekBefore(children[i], key);
          pos := pos[i := p];
        }
        i := i + 1;
      }
    }

    method Prev()
      requires Valid() && current.Some?
      modifies this
      ensures Valid() && at == if old(at) > 0 then old(at) - 1 else |merged|
    {
      var c := current.value;
      ghost var key := ChildEntry(c).key;
      if forward {
        SwitchBackward(c);
      }
      BackIsBefore(children[c], pos[c]);
      hide Distinct, IsMerge, Ascending, AtSeek, AtBefore;
      pos := pos[c := Back(children[c], pos[c])];
      FindLargest(key);
      BeforePrevious(merged, old(at), at);
    }
  }

  /** One step back; stepping back from the first entry invalidates. */
  function Back(es: seq<Pair>, p: nat): (r: nat)
    requires p < |es|
    ensures r <= |es|
  {
    if p > 0 then p - 1 else |es|
  }

  lemma BackIsBefore(es: seq<Pair>, p: nat)
    requires Ascending(es) && p < |es|
    ensures AtBefore(es, es[p].key, Back(es, p))
  {
  }

  /** Seek, then step back or, past the end, go to the last entry. */
  method SeekBefore(es: seq<Pair>, key: int) returns (p: nat)
    requires Ascending(es)
    ensures AtBefore(es, key, p)
  {
    p := LowerBound(es, key);
    if p < |es| {
      p := Back(es, p);
    } else {
      p := if |es| > 0 then |es| - 1 else 0;
    }
  }

  lemma BeforeEnd(es: seq<Pair>, q: nat)
    requires Ascending(es) && AtBefore(es, if |es| > 0 then es[|es| - 1].key + 1 else 0, q)
    ensures q == if |es| > 0 then |es| - 1 else 0
  {
  }

  lemma SeekAdvances(es: seq<Pair>, p: nat)
    requires Ascending(es) && p < |es|
    ensures AtSeek(es, es[p].key + 1, p + 1)
  {
  }

  lemma SeekNext(es: seq<Pair>, p: nat, q: nat)
    requires Ascending(es) && p < |es| && AtSeek(es, es[p].key + 1, q)
    ensures q == p + 1
  {
    assert p + 1 < |es| ==> es[p].key < es[p + 1].key;
  }

  lemma BeforePrevious(es: seq<Pair>, p: nat, q: nat)
    requires Ascending(es) && p < |es| && AtBefore(es, es[p].key, q)
    ensures q == Back(es, p)
  {
    assert p > 0 ==> es[p - 1].key < es[p].key;
  }
}
