/** The Xor filter's construction: peeling a 3-uniform hypergraph and assigning fingerprints in reverse. */
module XorPeel {
  import opened Words

  function RotateLeft21(v: Word64): Word64 { v % 0x800_0000_0000 * 0x20_0000 + v / 0x800_0000_0000 }

  function RotateLeft42(v: Word64): Word64 { v % 0x40_0000 * 0x400_0000_0000 + v / 0x40_0000 }

  /** GetPositions: one slot in each third of the table. */
  function Positions(h: Word64, block: Word32): (r: seq<nat>)
    ensures |r| == 3
  {
    [FastRange32(h % 0x1_0000_0000, block),
     block + FastRange32(RotateLeft21(h) % 0x1_0000_0000, block),
     2 * (block as int) + FastRange32(RotateLeft42(h) % 0x1_0000_0000, block)]
  }

  predicate Touches(h: Word64, p: nat, block: Word32) { p in Positions(h, block) }

  lemma PositionsDistinct(h: Word64, block: Word32)
    requires block > 0
    ensures Positions(h, block)[0] < block <= Positions(h, block)[1] < 2 * (block as int)
    ensures 2 * (block as int) <= Positions(h, block)[2] < 3 * (block as int)
  {
    FastRangeBound(h % 0x1_0000_0000, block);
    FastRangeBound(RotateLeft21(h) % 0x1_0000_0000, block);
    FastRangeBound(RotateLeft42(h) % 0x1_0000_0000, block);
  }

  // ---- the hypergraph ---------------------------------------------------------------------------

  /** How many members of `live` touch slot `p`. */
  function Degree(hs: seq<Word64>, live: set<Word64>, p: nat, block: Word32): nat {
    if |hs| == 0 then 0
    else
      var h := hs[|hs| - 1];
      Degree(hs[..|hs| - 1], live, p, block) + (if h in live && Touches(h, p, block) then 1 else 0)
  }

  /** The xor of the members of `live` that touch slot `p`. */
  function XorAt(hs: seq<Word64>, live: set<Word64>, p: nat, block: Word32): nat {
    if |hs| == 0 then 0
    else
      var h := hs[|hs| - 1];
      var rest := XorAt(hs[..|hs| - 1], live, p, block);
      if h in live && Touches(h, p, block) then Xor(rest, h) else rest
  }

  function Members(hs: seq<Word64>): set<Word64> { set h | h in hs }

  ghost predicate Distinct<T>(s: seq<T>) { forall i, j :: 0 <= i < j < |s| ==> s[i] != s[j] }

  /** No nonempty set of hashes leaves every slot it touches touched at least twice: the 2-core is empty. */
  ghost predicate EmptyCore(hs: seq<Word64>, block: Word32) {
    forall s: set<Word64> :: Core(hs, s, block) ==> s == {}
  }

  ghost predicate Core(hs: seq<Word64>, s: set<Word64>, block: Word32) {
    && (forall h :: h in s ==> h in hs)
    && (forall p: nat :: Degree(hs, s, p, block) != 1)
  }

  lemma {:induction false} DegreeMono(hs: seq<Word64>, a: set<Word64>, b: set<Word64>, p: nat, block: Word32)
    requires a <= b
    ensures Degree(hs, a, p, block) <= Degree(hs, b, p, block)
  {
    if |hs| > 0 { DegreeMono(hs[..|hs| - 1], a, b, p, block); }
  }

  lemma {:induction false} DegreePositive(hs: seq<Word64>, live: set<Word64>, h: Word64, p: nat, block: Word32)
    requires h in hs && h in live && Touches(h, p, block)
    ensures Degree(hs, live, p, block) >= 1
  {
    if h != hs[|hs| - 1] {
      assert hs == hs[..|hs| - 1] + [hs[|hs| - 1]];
      DegreePositive(hs[..|hs| - 1], live, h, p, block);
    }
  }

  lemma {:induction false} DegreeZero(hs: seq<Word64>, live: set<Word64>, p: nat, block: Word32)
    requires Degree(hs, live, p, block) == 0
    ensures XorAt(hs, live, p, block) == 0
    ensures forall h :: h in hs && h in live ==> !Touches(h, p, block)
  {
    if |hs| > 0 {
      DegreeZero(hs[..|hs| - 1], live, p, block);
      assert hs == hs[..|hs| - 1] + [hs[|hs| - 1]];
    }
  }

  /** A slot of degree one names its only hash by its xor. */
  lemma {:induction false} DegreeOne(hs: seq<Word64>, live: set<Word64>, p: nat, block: Word32)
    requires Degree(hs, live, p, block) == 1
    ensures var x := XorAt(hs, live, p, block);
            && (exists h :: h in hs && h == x && h in live && Touches(h, p, block))
            && (forall h :: h in hs && h in live && Touches(h, p, block) ==> h == x)
  {
    var front, last := hs[..|hs| - 1], hs[|hs| - 1];
    assert hs == front + [last];
    if last in live && Touches(last, p, block) {
      DegreeZero(front, live, p, block);
    } else {
      DegreeOne(front, live, p, block);
    }
  }

  /** Taking one hash out lowers exactly its own slots. */
  lemma {:induction false} DegreeRemove(hs: seq<Word64>, live: set<Word64>, h: Word64, p: nat, block: Word32)
    requires Distinct(hs) && h in live
    ensures Degree(hs, live, p, block) ==
              Degree(hs, live - {h}, p, block) + (if h in hs && Touches(h, p, block) then 1 else 0)
    ensures XorAt(hs, live - {h}, p, block) ==
            if h in hs && Touches(h, p, block) then Xor(XorAt(hs, live, p, block), h) else XorAt(hs, live, p, block)
  {
    if |hs| > 0 {
      var front, last := hs[..|hs| - 1], hs[|hs| - 1];
      assert hs == front + [last] && last !in front;
      DegreeRemove(front, live, h, p, block);
      var r := XorAt(front, live, p, block);
      if last == h {
        XorCancel(r, h);
      } else if last in live && Touches(last, p, block) {
        XorAssoc(r, last, h);
        XorComm(last, h);
        XorAssoc(r, h, last);
      }
    }
  }

  // ---- peeling ----------------------------------------------------------------------------------

  datatype PeelEntry = PeelEntry(hash: Word64, selected: nat)

  /** The counters describe the live hashes. */
  ghost predicate Tallies(hs: seq<Word64>, live: set<Word64>, counts: seq<nat>, xors: seq<nat>, block: Word32) {
    && |counts| == |xors| == 3 * block
    && forall p: nat :: p < |counts| ==> counts[p] == Degree(hs, live, p, block) && xors[p] == XorAt(hs, live, p, block)
  }

  /** The first loop: every hash adds itself to its three slots. */
  method CountHashes(hs: seq<Word64>, block: Word32) returns (counts: seq<nat>, xors: seq<nat>)
    requires block > 0
    ensures Tallies(hs, Members(hs), counts, xors, block)
  {
    ghost var live := Members(hs);
    var n: nat := 3 * (block as int);
    counts, xors := seq(n, _ => 0), seq(n, _ => 0);
    for i := 0 to |hs|
      invariant Tallies(hs[..i], live, counts, xors, block)
    {
      assert hs[..i + 1][..i] == hs[..i];
      counts, xors := AddHash(hs[..i + 1], live, counts, xors, block);
    }
    assert hs[..|hs|] == hs;
  }

  method AddHash(hs: seq<Word64>, ghost live: set<Word64>, counts: seq<nat>, xors: seq<nat>, block: Word32)
    returns (counts': seq<nat>, xors': seq<nat>)
    requires block > 0 && |hs| > 0 && hs[|hs| - 1] in live
    requires Tallies(hs[..|hs| - 1], live, counts, xors, block)
    ensures Tallies(hs, live, counts', xors', block)
  {
    var h := hs[|hs| - 1];
    var ps := Positions(h, block);
    PositionsDistinct(h, block);
    counts', xors' := counts, xors;
    for j := 0 to 3
      invariant |counts'| == |xors'| == |counts|
      invariant forall p: nat :: p < |counts| ==>
                  if p in ps[..j] then counts'[p] == counts[p] + 1 && xors'[p] == Xor(xors[p], h)
                  else counts'[p] == counts[p] && xors'[p] == xors[p]
    {
      var p := ps[j];
      assert ps[..j + 1] == ps[..j] + [p] && p !in ps[..j];
      counts', xors' := counts'[p := counts'[p] + 1], xors'[p := Xor(xors'[p], h)];
    }
    assert ps[..3] == ps;
  }

  /** Queued slots: distinct, at most one live hash each; every slot of degree one outside `due` is waiting. */
  ghost predicate Waiting(queue: seq<nat>, at: nat, counts: seq<nat>, due: seq<nat>) {
    && at <= |queue| && Distinct(queue)
    && (forall i :: 0 <= i < |queue| ==> queue[i] < |counts| && counts[queue[i]] <= 1)
    && (forall p: nat :: p < |counts| && counts[p] == 1 && p !in due ==> p in queue[at..])
  }

  ghost predicate QueueOk(queue: seq<nat>, at: nat, counts: seq<nat>) { Waiting(queue, at, counts, []) }

  /** One slot of the peeled hash: lower it, queue it if it is down to one. */
  lemma LowerWaiting(queue: seq<nat>, at: nat, counts: seq<nat>, due: seq<nat>)
    requires |due| > 0 && due[0] < |counts| && counts[due[0]] >= 1 && Waiting(queue, at, counts, due)
    ensures var counts' := counts[due[0] := counts[due[0]] - 1];
            Waiting(if counts'[due[0]] == 1 then queue + [due[0]] else queue, at, counts', due[1..])
  {
    var p := due[0];
    assert due == [p] + due[1..];
    assert (queue + [p])[at..] == queue[at..] + [p];
  }

  /** Each peeled hash owns its selected slot among itself, the later peeled hashes and the live ones. */
  ghost predicate PeelOk(peel: seq<PeelEntry>, live: set<Word64>, block: Word32) {
    && (forall i :: 0 <= i < |peel| ==> Touches(peel[i].hash, peel[i].selected, block))
    && (forall i, j :: 0 <= i < j < |peel| ==> !Touches(peel[j].hash, peel[i].selected, block))
    && (forall i, h :: 0 <= i < |peel| && h in live ==> !Touches(h, peel[i].selected, block))
  }

  /** Live and peeled hashes partition the input, and every core is still live. */
  ghost predicate SplitOk(hs: seq<Word64>, peel: seq<PeelEntry>, live: set<Word64>, block: Word32) {
    && live <= Members(hs)
    && |live| + |peel| == |hs|
    && (forall h :: h in hs ==> h in live || exists i :: 0 <= i < |peel| && peel[i].hash == h)
    && (forall i :: 0 <= i < |peel| ==> peel[i].hash in hs && peel[i].hash !in live)
    && (forall s: set<Word64> :: Core(hs, s, block) ==> s <= live)
  }

  lemma {:induction false} MembersCard(hs: seq<Word64>)
    requires Distinct(hs)
    ensures |Members(hs)| == |hs|
  {
    if |hs| > 0 {
      var front, last := hs[..|hs| - 1], hs[|hs| - 1];
      MembersCard(front);
      assert Members(hs) == Members(front) + {last};
    }
  }

  function Below(n: nat): (r: set<nat>)
    ensures |r| == n && forall x: nat :: x in r <==> x < n
  {
    if n == 0 then {} else Below(n - 1) + {n - 1}
  }

  function ValuesOf(s: seq<nat>): set<nat> { set x | x in s }

  lemma {:induction false} DistinctCard(s: seq<nat>)
    requires Distinct(s)
    ensures |ValuesOf(s)| == |s|
  {
    if |s| > 0 {
      var front, last := s[..|s| - 1], s[|s| - 1];
      DistinctCard(front);
      assert ValuesOf(s) == ValuesOf(front) + {last};
    }
  }

  lemma DistinctBounded(s: seq<nat>, n: nat)
    requires Distinct(s) && forall i :: 0 <= i < |s| ==> s[i] < n
    ensures |s| <= n
  {
    DistinctCard(s);
    assert Below(n) == ValuesOf(s) + (Below(n) - ValuesOf(s));
  }

  /** Peeling hash `h` at a slot of degree one keeps the partition. */
  lemma PeelSplit(hs: seq<Word64>, peel: seq<PeelEntry>, live: set<Word64>, block: Word32, h: Word64, p: nat)
    requires SplitOk(hs, peel, live, block) && h in live && h in hs && Touches(h, p, block)
    requires Degree(hs, live, p, block) == 1
    ensures SplitOk(hs, peel + [PeelEntry(h, p)], live - {h}, block)
  {
    var peel' := peel + [PeelEntry(h, p)];
    forall x | x in hs ensures x in live - {h} || exists i :: 0 <= i < |peel'| && peel'[i].hash == x {
      if x == h {
        assert peel'[|peel|].hash == x;
      } else if x !in live {
        var i :| 0 <= i < |peel| && peel[i].hash == x;
        assert peel'[i].hash == x;
      }
    }
    forall s: set<Word64> | Core(hs, s, block) ensures s <= live - {h} {
      if h in s {
        DegreeMono(hs, s, live, p, block);
        DegreePositive(hs, s, h, p, block);
      }
    }
  }

  lemma PeelOrder(hs: seq<Word64>, peel: seq<PeelEntry>, live: set<Word64>, block: Word32, h: Word64, p: nat)
    requires PeelOk(peel, live, block) && h in live && live <= Members(hs)
    requires Touches(h, p, block) && forall x :: x in hs && x in live && Touches(x, p, block) ==> x == h
    ensures PeelOk(peel + [PeelEntry(h, p)], live - {h}, block)
  {
    var peel' := peel + [PeelEntry(h, p)];
    forall i, x | 0 <= i < |peel'| && x in live - {h} ensures !Touches(x, peel'[i].selected, block) {
      if i == |peel| {
        assert x in hs;
      } else {
        assert peel'[i] == peel[i];
      }
    }
  }

  /** Lower the three slots of `h`, queueing each slot whose degree becomes one. */
  method RemoveHash(hs: seq<Word64>, ghost live: set<Word64>, h: Word64, counts: seq<nat>, xors: seq<nat>,
                    queue: seq<nat>, at: nat, block: Word32)
    returns (counts': seq<nat>, xors': seq<nat>, queue': seq<nat>)
    requires block > 0 && Distinct(hs) && h in hs && h in live
    requires Tallies(hs, live, counts, xors, block)
    requires Waiting(queue, at, counts, Positions(h, block))
    ensures Tallies(hs, live - {h}, counts', xors', block)
    ensures QueueOk(queue', at, counts')
  {
    counts', xors', queue' := counts, xors, queue;
    assert Midway(h, counts, xors, counts, xors, queue, at, block, 0) by {
      assert Positions(h, block)[0..] == Positions(h, block);
    }
    hide Midway, Tallies, Waiting;
    for j := 0 to 3
      invariant Midway(h, counts, xors, counts', xors', queue', at, block, j)
    {
      counts', xors', queue' := LowerSlot(hs, live, h, counts, xors, counts', xors', queue', at, block, j);
    }
    MidwayDone(hs, live, h, counts, xors, counts', xors', queue', at, block);
  }

  /** The first `j` of the hash's slots are lowered; the others are still due. */
  ghost predicate Midway(h: Word64, counts: seq<nat>, xors: seq<nat>, counts': seq<nat>, xors': seq<nat>,
                         queue: seq<nat>, at: nat, block: Word32, j: nat) {
    && j <= 3
    && Lowered(counts, xors, counts', xors', Positions(h, block)[..j], h)
    && Waiting(queue, at, counts', Positions(h, block)[j..])
  }

  lemma MidwayDone(hs: seq<Word64>, live: set<Word64>, h: Word64, counts: seq<nat>, xors: seq<nat>, counts': seq<nat>,
                   xors': seq<nat>, queue: seq<nat>, at: nat, block: Word32)
    requires Distinct(hs) && h in hs && h in live && Tallies(hs, live, counts, xors, block)
    requires Midway(h, counts, xors, counts', xors', queue, at, block, 3)
    ensures Tallies(hs, live - {h}, counts', xors', block) && QueueOk(queue, at, counts')
  {
    hide Tallies, Lowered;
    var ps := Positions(h, block);
    assert ps[..3] == ps && ps[3..] == [];
    LoweredTallies(hs, live, h, counts, xors, counts', xors', block);
  }

  /** Slot `j` still shows its full degree, so the source's skip of empty slots is never taken. */
  method LowerSlot(hs: seq<Word64>, ghost live: set<Word64>, h: Word64, ghost counts: seq<nat>, ghost xors: seq<nat>,
                   counts': seq<nat>, xors': seq<nat>, queue: seq<nat>, at: nat, block: Word32, j: nat)
    returns (counts'': seq<nat>, xors'': seq<nat>, queue': seq<nat>)
    requires block > 0 && h in hs && h in live && Tallies(hs, live, counts, xors, block) && j < 3
    requires Midway(h, counts, xors, counts', xors', queue, at, block, j)
    ensures Midway(h, counts, xors, counts'', xors'', queue', at, block, j + 1)
  {
    hide Waiting, Lowered, Tallies, Positions;
    var ps := Positions(h, block);
    var p := ps[j];
    LowerStep(hs, live, h, counts, xors, counts', xors', block, j);
    LowerWaiting(queue, at, counts', ps[j..]);
    assert ps[j..][1..] == ps[j + 1..];
    counts'', xors'', queue' := counts'[p := counts'[p] - 1], xors'[p := Xor(xors'[p], h)], queue;
    if counts''[p] == 1 {
      queue' := queue + [p];
    }
  }

  ghost predicate Lowered(counts: seq<nat>, xors: seq<nat>, counts': seq<nat>, xors': seq<nat>, ps: seq<nat>,
                          h: Word64) {
    && |counts| == |xors| == |counts'| == |xors'|
    && forall p: nat :: p < |counts| ==>
         if p in ps then counts'[p] + 1 == counts[p] && xors'[p] == Xor(xors[p], h)
         else counts'[p] == counts[p] && xors'[p] == xors[p]
  }

  /** The first `j` slots of the peeled hash are lowered, the others still show their full degree. */
  lemma LowerStep(hs: seq<Word64>, live: set<Word64>, h: Word64, counts: seq<nat>, xors: seq<nat>, counts': seq<nat>,
                  xors': seq<nat>, block: Word32, j: nat)
    requires block > 0 && h in hs && h in live && Tallies(hs, live, counts, xors, block) && j < 3
    requires Lowered(counts, xors, counts', xors', Positions(h, block)[..j], h)
    ensures var p := Positions(h, block)[j];
            && p < |counts'| == |xors'| && counts'[p] >= 1
            && Lowered(counts, xors, counts'[p := counts'[p] - 1], xors'[p := Xor(xors'[p], h)],
                       Positions(h, block)[..j + 1], h)
  {
    var ps := Positions(h, block);
    PositionsDistinct(h, block);
    var p := ps[j];
    assert ps[..j + 1] == ps[..j] + [p] && p !in ps[..j];
    DegreePositive(hs, live, h, p, block);
  }

  lemma LoweredTallies(hs: seq<Word64>, live: set<Word64>, h: Word64, counts: seq<nat>, xors: seq<nat>,
                       counts': seq<nat>, xors': seq<nat>, block: Word32)
    requires Distinct(hs) && h in hs && h in live && Tallies(hs, live, counts, xors, block)
    requires Lowered(counts, xors, counts', xors', Positions(h, block), h)
    ensures Tallies(hs, live - {h}, counts', xors', block)
  {
    forall p: nat | p < |counts'|
      ensures counts'[p] == Degree(hs, live - {h}, p, block) && xors'[p] == XorAt(hs, live - {h}, p, block)
    {
      DegreeRemove(hs, live, h, p, block);
    }
  }

  /** The first queue: the slots of degree one. */
  method InitialQueue(counts: seq<nat>) returns (queue: seq<nat>)
    ensures QueueOk(queue, 0, counts)
  {
    queue := [];
    for p := 0 to |counts|
      invariant Distinct(queue) && (forall i :: 0 <= i < |queue| ==> queue[i] < p && counts[queue[i]] <= 1)
      invariant forall q :: 0 <= q < p && counts[q] == 1 ==> q in queue
    {
      if counts[p] == 1 { queue := queue + [p]; }
    }
    assert queue[0..] == queue;
  }

  /** The peeled hashes are the given ones. */
  ghost predicate PeelsAll(hs: seq<Word64>, peel: seq<PeelEntry>) {
    forall h :: h in hs <==> exists i :: 0 <= i < |peel| && peel[i].hash == h
  }

  /** The peeling loop: it empties the hypergraph exactly when the 2-core is empty. Every slot is queued at most once.
      */
  method Peel(hs: seq<Word64>, block: Word32) returns (peel: seq<PeelEntry>, queue: seq<nat>)
    requires block > 0 && Distinct(hs)
    ensures Distinct(queue) && |queue| <= 3 * block
    ensures |peel| == |hs| <==> EmptyCore(hs, block)
    ensures |peel| == |hs| ==> PeelOk(peel, {}, block) && PeelsAll(hs, peel)
  {
    var counts, xors := CountHashes(hs, block);
    queue := InitialQueue(counts);
    peel := [];
    ghost var live := Members(hs);
    MembersCard(hs);
    var at := 0;
    DistinctBounded(queue, |counts|);
    while at < |queue|
      invariant Tallies(hs, live, counts, xors, block) && QueueOk(queue, at, counts)
      invariant |queue| <= |counts|
      invariant PeelOk(peel, live, block) && SplitOk(hs, peel, live, block)
      decreases |counts| - at
    {
      peel, counts, xors, queue, live := PeelStep(hs, peel, counts, xors, queue, at, live, block);
      at := at + 1;
      DistinctBounded(queue, |counts|);
    }
    Finished(hs, peel, counts, xors, queue, live, block);
  }

  method PeelStep(hs: seq<Word64>, peel: seq<PeelEntry>, counts: seq<nat>, xors: seq<nat>, queue: seq<nat>, at: nat,
                  ghost live: set<Word64>, block: Word32)
    returns (peel': seq<PeelEntry>, counts': seq<nat>, xors': seq<nat>, queue': seq<nat>, ghost live': set<Word64>)
    requires block > 0 && Distinct(hs) && at < |queue|
    requires Tallies(hs, live, counts, xors, block) && QueueOk(queue, at, counts)
    requires PeelOk(peel, live, block) && SplitOk(hs, peel, live, block)
    ensures Tallies(hs, live', counts', xors', block) && QueueOk(queue', at + 1, counts')
    ensures PeelOk(peel', live', block) && SplitOk(hs, peel', live', block)
  {
    var selected := queue[at];
    assert queue[at..] == [selected] + queue[at + 1..];
    if counts[selected] != 1 {
      return peel, counts, xors, queue, live;
    }
    DegreeOne(hs, live, selected, block);
    var hash := xors[selected];
    assert Waiting(queue, at + 1, counts, Positions(hash, block));
    hide QueueOk, Waiting;
    PeelSplit(hs, peel, live, block, hash, selected);
    PeelOrder(hs, peel, live, block, hash, selected);
    peel', live' := peel + [PeelEntry(hash, selected)], live - {hash};
    counts', xors', queue' := RemoveHash(hs, live, hash, counts, xors, queue, at + 1, block);
  }

  /** With the queue exhausted, what is left is a core. */
  lemma Finished(hs: seq<Word64>, peel: seq<PeelEntry>, counts: seq<nat>, xors: seq<nat>, queue: seq<nat>,
                 live: set<Word64>, block: Word32)
    requires block > 0 && Tallies(hs, live, counts, xors, block) && QueueOk(queue, |queue|, counts)
    requires SplitOk(hs, peel, live, block)
    ensures |peel| == |hs| <==> EmptyCore(hs, block)
    ensures |peel| == |hs| ==> live == {} && forall h :: h in hs ==> exists i :: 0 <= i < |peel| && peel[i].hash == h
  {
    forall p: nat ensures Degree(hs, live, p, block) != 1 {
      if p < |counts| {
        assert queue[|queue|..] == [];
      } else {
        DegreeOutside(hs, live, p, block);
      }
    }
    assert Core(hs, live, block);
  }

  lemma {:induction false} DegreeOutside(hs: seq<Word64>, live: set<Word64>, p: nat, block: Word32)
    requires block > 0 && p >= 3 * block
    ensures Degree(hs, live, p, block) == 0
  {
    if |hs| > 0 {
      PositionsDistinct(hs[|hs| - 1], block);
      DegreeOutside(hs[..|hs| - 1], live, p, block);
    }
  }
}
