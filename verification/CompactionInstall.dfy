/** Installing a compaction: with the inputs the selection picks, the new version is valid again. */
module CompactionInstall {
  import opened Dbformat
  import opened Reads
  import opened Compactions
  import opened CompactionReads
  import opened LsmRuns
  import opened InputSelection

  /** Files in the order SaveTo writes them. */
  ghost predicate BySmallest(files: Level) {
    forall i, j :: 0 <= i < j < |files| ==> Less(files[i].smallest, files[j].smallest)
  }

  lemma ApartSorted(files: Level)
    requires AllValid(files) && Apart(files) && BySmallest(files)
    ensures DisjointSorted(files)
  {
    forall i | 0 <= i < |files| ensures files[i].Valid() { assert files[i] in files; }
    forall i, j | 0 <= i < j < |files| ensures Less(files[i].largest, files[j].smallest) {
      assert files[i] in files && files[j] in files;
      KeysAscend(files[j]);
    }
  }

  lemma {:induction false} WithoutSorted(files: Level, gone: set<nat>)
    requires DisjointSorted(files)
    ensures DisjointSorted(Without(files, gone))
  {
    if |files| > 0 {
      var rest := Without(files[1..], gone);
      WithoutOnly(files[1..], gone);
      WithoutSorted(files[1..], gone);
      forall i | 0 <= i < |rest| ensures Less(files[0].largest, rest[i].smallest) {
        assert rest[i] in files[1..];
      }
      assert files[0].Valid();
      hide DisjointSorted, File.Valid;
      FirstSorted(files[0], rest);
    }
  }

  lemma FirstSorted(f: File, rest: Level)
    requires f.Valid() && DisjointSorted(rest) && forall i :: 0 <= i < |rest| ==> Less(f.largest, rest[i].smallest)
    ensures DisjointSorted([f] + rest)
  {
    hide File.Valid;
  }

  /** All keys of the inputs lie on one side of `g`. */
  ghost predicate Clear(inputs: Level, g: File) {
    (forall f :: f in inputs ==> Less(f.largest, g.smallest))
      || (forall f :: f in inputs ==> Less(g.largest, f.smallest))
  }

  /** A file of the next level that is not an input lies wholly before or wholly after all inputs. */
  lemma LeftoverIsClear(files: Level, inputs0: Level, lo: InternalKey, hi: InternalKey, g: File)
    requires AllValid(files) && Apart(files) && AllValid(inputs0) && HullOf(inputs0, lo, hi)
    requires g in files && g !in Overlapping(files, UserRange(lo, hi))
    ensures Clear(inputs0 + Overlapping(files, UserRange(lo, hi)), g)
  {
    var r := UserRange(lo, hi);
    var inputs := inputs0 + Overlapping(files, r);
    forall f | f in inputs ensures OnSide(f, g, g.smallest.user > hi.user) {
      if f in inputs0 {
        InputOnSide(lo, hi, f, g);
      } else {
        OverlapOnSide(lo, hi, f, g);
      }
    }
    hide AllValid, Apart, HullOf;
  }

  predicate OnSide(f: File, g: File, before: bool) {
    if before then Less(f.largest, g.smallest) else Less(g.largest, f.smallest)
  }

  lemma InputOnSide(lo: InternalKey, hi: InternalKey, f: File, g: File)
    requires f.Valid() && g.Valid() && AtMost(lo, f.smallest) && AtMost(f.largest, hi)
    requires !UserRange(lo, hi).Overlaps(g)
    ensures OnSide(f, g, g.smallest.user > hi.user)
  {
    KeysAscend(f);
    KeysAscend(g);
  }

  lemma OverlapOnSide(lo: InternalKey, hi: InternalKey, f: File, g: File)
    requires f.Valid() && g.Valid() && UserRange(lo, hi).Overlaps(f) && !UserRange(lo, hi).Overlaps(g)
    requires Less(f.largest, g.smallest) || Less(g.largest, f.smallest)
    ensures OnSide(f, g, g.smallest.user > hi.user)
  {
    KeysAscend(f);
    KeysAscend(g);
  }

  /** An output holds only input keys, so it lies on the same side. */
  lemma OutputIsClear(inputs: Level, g: File, o: File)
    requires AllValid(inputs) && Clear(inputs, g) && o.Valid() && Contents(o.entries) <= FilesContents(inputs)
    ensures Less(o.largest, g.smallest) || Less(g.largest, o.smallest)
  {
    var first, last := o.entries[0], o.entries[|o.entries| - 1];
    assert first in Contents(o.entries) && last in Contents(o.entries);
    var f :| f in inputs && first in f.entries;
    var h :| h in inputs && last in h.entries;
    InValidFile(f, first);
    InValidFile(h, last);
  }

  /** The next level after the compaction: leftovers and outputs, all apart. */
  lemma NextLevelApart(rest: Level, outs: Level, files: Level)
    requires Apart(rest) && AllValid(rest) && Apart(outs) && AllValid(outs) && UnionOf(files, rest, outs)
    requires forall g, o :: g in rest && o in outs ==> Less(o.largest, g.smallest) || Less(g.largest, o.smallest)
    ensures Apart(files) && AllValid(files)
  {
  }

  lemma NextLevelValid(v: Version, level: nat, c: Picked, outs: Level, files: Level)
    requires Chosen(v, level, c) && DisjointSorted(outs) && BySmallest(files)
    requires FilesContents(outs) <= FilesContents(c.inputs0) + FilesContents(c.inputs1)
    requires UnionOf(files, Without(v[level + 1], InputSelection.Numbers(c.inputs1)), outs)
    ensures DisjointSorted(files)
  {
    hide Chosen, HullOf, Apart, AllValid, DisjointSorted, BySmallest, FilesContents, UnionOf, InputSelection.Numbers;
    NextFacts(v, level, c);
    var rest := Without(v[level + 1], InputSelection.Numbers(c.inputs1));
    var lo, hi := NextInputsAreFiles(v, level, c);
    SortedApart(outs);
    WithoutOnly(v[level + 1], InputSelection.Numbers(c.inputs1));
    SubsetApart(v[level + 1], rest);
    forall g, o | g in rest && o in outs ensures Less(o.largest, g.smallest) || Less(g.largest, o.smallest) {
      LeftoverAndOutput(v[level + 1], c, lo, hi, outs, g, o);
    }
    NextLevelApart(rest, outs, files);
    ApartSorted(files);
  }

  lemma SubsetApart(files: Level, some: Level)
    requires AllValid(files) && Apart(files) && forall f :: f in some ==> f in files
    ensures AllValid(some) && Apart(some)
  {
  }

  lemma LeftoverAndOutput(files: Level, c: Picked, lo: InternalKey, hi: InternalKey, outs: Level, g: File, o: File)
    requires AllValid(files) && Apart(files) && AllValid(c.inputs0) && HullOf(c.inputs0, lo, hi)
    requires c.inputs1 == Overlapping(files, UserRange(lo, hi)) && AllValid(outs) && g in files && o in outs
    requires g.number !in InputSelection.Numbers(c.inputs1)
    requires FilesContents(outs) <= FilesContents(c.inputs0) + FilesContents(c.inputs1)
    ensures Less(o.largest, g.smallest) || Less(g.largest, o.smallest)
  {
    NotAnInput(c.inputs1, g);
    BothValid(files, c.inputs0, c.inputs1);
    OutputContents(c.inputs0, c.inputs1, outs, o);
    assert o.Valid();
    hide HullOf, Apart, FilesContents, Contents, InputSelection.Numbers, File.Valid, AllValid, Clear;
    LeftoverIsClear(files, c.inputs0, lo, hi, g);
    OutputIsClear(c.inputs0 + c.inputs1, g, o);
  }

  lemma NotAnInput(inputs: Level, g: File)
    requires g.number !in InputSelection.Numbers(inputs)
    ensures g !in inputs
  {
  }

  lemma BothValid(files: Level, inputs0: Level, inputs1: Level)
    requires AllValid(files) && AllValid(inputs0) && forall f :: f in inputs1 ==> f in files
    ensures AllValid(inputs0 + inputs1)
  {
  }

  lemma OutputContents(inputs0: Level, inputs1: Level, outs: Level, o: File)
    requires o in outs && FilesContents(outs) <= FilesContents(inputs0) + FilesContents(inputs1)
    ensures Contents(o.entries) <= FilesContents(inputs0 + inputs1)
  {
    forall e | e in Contents(o.entries) ensures e in FilesContents(inputs0 + inputs1) {
      assert e in FilesContents(outs);
      assert forall f :: f in inputs0 || f in inputs1 ==> f in inputs0 + inputs1;
    }
  }

  /** With no flush in between, a compaction of the picked inputs leaves a valid version. */
  lemma CompactionStaysValid(v: Version, level: nat, c: Picked, outs: Level, v': Version)
    requires Chosen(v, level, c) && DisjointSorted(outs) && Replaces(v, level, c, outs, v')
    requires FilesContents(outs) <= FilesContents(c.inputs0) + FilesContents(c.inputs1)
    ensures ValidVersion(v')
  {
    NextLevelValid(v, level, c, outs, v'[level + 1]);
    if level > 0 { WithoutSorted(v[level], InputSelection.Numbers(c.inputs0)); }
    WithoutOnly(v[level], InputSelection.Numbers(c.inputs0));
    LevelFacts(v, level);
    assert ValidVersion(v);
    hide Chosen, FilesContents, UnionOf, BySmallest, DisjointSorted, ValidVersion, File.Valid;
    LevelsValid(v, level, v');
  }

  lemma LevelsValid(v: Version, level: nat, v': Version)
    requires ValidVersion(v) && |v'| == |v| && level + 1 < |v|
    requires forall l :: 0 <= l < |v| && l != level && l != level + 1 ==> v'[l] == v[l]
    requires DisjointSorted(v'[level + 1]) && if level == 0 then AllValid(v'[0]) else DisjointSorted(v'[level])
    ensures ValidVersion(v')
  {
    hide DisjointSorted, File.Valid;
    forall l | 1 <= l < |v'| ensures DisjointSorted(v'[l]) {
      assert DisjointSorted(v[l]);
    }
    forall i | 0 <= i < |v'[0]| ensures v'[0][i].Valid() {
      assert level == 0 ==> v'[0][i] in v'[0];
    }
  }

  lemma OnlyInputs(files: Level, inputs: Level)
    requires NumbersIdentify(files) && forall f :: f in inputs ==> f in files
    ensures FilesContents(Only(files, InputSelection.Numbers(inputs))) == FilesContents(inputs)
  {
    WithoutOnly(files, InputSelection.Numbers(inputs));
    assert forall f :: f in Only(files, InputSelection.Numbers(inputs)) <==> f in inputs;
  }

  /** The files written by the loop, one per output. */
  ghost predicate FilesOf(outs: Level, outputs: seq<Output>) {
    && |outs| == |outputs|
    && forall i :: 0 <= i < |outs| ==> outs[i].smallest == outputs[i].smallest && outs[i].largest == outputs[i].largest
                                       && outs[i].entries == outputs[i].entries && outputs[i].Valid()
  }

  /** Outputs cut from a sorted sequence are valid files in order, and hold exactly that sequence. */
  lemma {:induction false} OutputsSorted(outs: Level, outputs: seq<Output>)
    requires FilesOf(outs, outputs) && Sorted(Concat(outputs))
    ensures DisjointSorted(outs) && FilesContents(outs) == Contents(Concat(outputs))
  {
    if |outs| > 0 {
      var n := |outs| - 1;
      var front, all := Concat(outputs[..n]), Concat(outputs);
      assert all == front + outs[n].entries;
      CutSorted(front, outs[n].entries);
      hide Sorted;
      OutputsSorted(outs[..n], outputs[..n]);
      hide DisjointSorted, FilesContents;
      LastOutput(outs[..n], outs[n], front);
      assert outs == outs[..n] + [outs[n]];
    }
  }

  lemma CutSorted(a: seq<Entry>, b: seq<Entry>)
    requires Sorted(a + b)
    ensures Sorted(a) && Sorted(b)
  {
    assert forall i :: 0 <= i < |a| ==> (a + b)[i] == a[i];
    assert forall i :: 0 <= i < |b| ==> (a + b)[|a| + i] == b[i];
  }

  lemma LastOutput(outs: Level, f: File, front: seq<Entry>)
    requires DisjointSorted(outs) && FilesContents(outs) == Contents(front) && f.Valid() && Sorted(front + f.entries)
    ensures DisjointSorted(outs + [f]) && FilesContents(outs + [f]) == Contents(front + f.entries)
  {
    FilesUnion(outs + [f], outs, [f]);
    assert FilesContents([f]) == Contents(f.entries) by { assert f in [f]; }
    forall i | 0 <= i < |outs| ensures Less(outs[i].largest, f.smallest) {
      BeforeLast(outs, i, f, front);
    }
    hide Sorted, FilesContents, File.Valid;
    assert forall i :: 0 <= i < |outs| ==> (outs + [f])[i] == outs[i];
  }

  lemma BeforeLast(outs: Level, i: nat, f: File, front: seq<Entry>)
    requires i < |outs| && outs[i].Valid() && FilesContents(outs) == Contents(front) && f.Valid()
    requires Sorted(front + f.entries)
    ensures Less(outs[i].largest, f.smallest)
  {
    var e := outs[i].entries[|outs[i].entries| - 1];
    assert outs[i] in outs && e in outs[i].entries;
    assert e in FilesContents(outs);
    assert e in front;
    var j :| 0 <= j < |front| && front[j] == e;
    assert (front + f.entries)[j] == e && (front + f.entries)[|front|] == f.entries[0];
  }

  /** A compaction of `c`: its inputs merged, the loop's outputs written as files, and these installed. */
  ghost predicate Installs(a: Db, level: nat, c: Picked, input: seq<Entry>, snapshot: nat, outputs: seq<Output>,
                           outs: Level, b: Db) {
    && Chosen(a.version, level, c) && snapshot <= a.last && (forall s :: s in a.snapshots ==> snapshot <= s)
    && Sorted(input) && Contents(input) == FilesContents(c.inputs0) + FilesContents(c.inputs1)
    && Concat(outputs) == Survivors(input, |input|, snapshot, a.version, level) && FilesOf(outs, outputs)
    && b == a.(version := b.version) && Replaces(a.version, level, c, outs, b.version)
  }

  /** The version SaveTo writes: the inputs are gone and the outputs are at the next level. */
  ghost predicate Replaces(v: Version, level: nat, c: Picked, outs: Level, v': Version)
    requires level + 1 < |v|
  {
    && |v'| == |v| && (forall l :: 0 <= l < |v| && l != level && l != level + 1 ==> v'[l] == v[l])
    && v'[level] == Without(v[level], InputSelection.Numbers(c.inputs0))
    && UnionOf(v'[level + 1], Without(v[level + 1], InputSelection.Numbers(c.inputs1)), outs)
    && BySmallest(v'[level + 1])
  }

  /** What the loop's contract says of its outputs is all an installation needs to know of them. */
  lemma LoopOutputs(outs: Level, outputs: seq<Output>, input: seq<Entry>, snapshot: nat, v: Version, level: nat)
    requires Sorted(input) && FilesOf(outs, outputs)
    requires Concat(outputs) == Survivors(input, |input|, snapshot, v, level)
    ensures DisjointSorted(outs) && FilesContents(outs) == Kept(input, snapshot, v, level) <= Contents(input)
  {
    SurvivorsSorted(input, |input|, snapshot, v, level);
    hide Sorted, DisjointSorted, FilesContents, Contents, FilesOf;
    OutputsSorted(outs, outputs);
    KeptIsInput(input, snapshot, v, level);
  }

  lemma InstallIsStep(a: Db, level: nat, c: Picked, input: seq<Entry>, snapshot: nat, outputs: seq<Output>, outs: Level,
                      b: Db)
    requires Installs(a, level, c, input, snapshot, outputs, outs, b)
    ensures CompactStep(a, level, InputSelection.Numbers(c.inputs0), InputSelection.Numbers(c.inputs1), input, snapshot,
                        outs, b)
  {
    hide Chosen, DisjointSorted, FilesContents, Kept, UnionOf, BySmallest, Sorted, ValidVersion, LeftIsNewer, Contents,
         FilesOf, NextClosed;
    ChosenFacts(a.version, level, c);
    ClosedInputsIff(a.version, level, c, input);
    LoopOutputs(outs, outputs, input, snapshot, a.version, level);
    CompactionStaysValid(a.version, level, c, outs, b.version);
  }

  lemma ChosenFacts(v: Version, level: nat, c: Picked)
    requires Chosen(v, level, c)
    ensures |v| == NUM_LEVELS && level + 1 < |v|
    ensures FilesContents(Only(v[level], InputSelection.Numbers(c.inputs0))) == FilesContents(c.inputs0)
    ensures FilesContents(Only(v[level + 1], InputSelection.Numbers(c.inputs1))) == FilesContents(c.inputs1)
  {
    var lo, hi := NextInputsAreFiles(v, level, c);
    hide FilesContents, LevelOrdered, UniqueSequences, DisjointSorted;
    OnlyInputs(v[level], c.inputs0);
    OnlyInputs(v[level + 1], c.inputs1);
  }

  /** The selection, the loop and the installation together: a compaction of picked inputs keeps the invariant in every
      case. It keeps every read at or above the oldest snapshot if no next-level file continues the last user key it
      takes. */
  lemma PickedCompactionPreservesReads(a: Db, level: nat, c: Picked, input: seq<Entry>, snapshot: nat,
                                       outputs: seq<Output>, outs: Level, b: Db)
    requires Inv(a) && Installs(a, level, c, input, snapshot, outputs, outs, b)
    ensures Inv(b)
    ensures NextClosed(a.version[level + 1], c.inputs1) ==>
              forall k, s :: snapshot <= s ==> Read(a.All(), k, s) == Read(b.All(), k, s)
  {
    ClosedInputsIff(a.version, level, c, input);
    hide Installs, NextClosed, Inv, CompactStep, LeftIsNewer, Db.All;
    var gone0, gone1 := InputSelection.Numbers(c.inputs0), InputSelection.Numbers(c.inputs1);
    InstallIsStep(a, level, c, input, snapshot, outputs, outs, b);
    CompactKeepsInv(a, level, gone0, gone1, input, snapshot, outs, b);
    if NextClosed(a.version[level + 1], c.inputs1) {
      forall k, s | snapshot <= s ensures Read(a.All(), k, s) == Read(b.All(), k, s) {
        CompactPreservesReads(a, level, gone0, gone1, input, snapshot, outs, b, k, s);
      }
    }
  }

  /** A trivial move: one file was picked and the next level has nothing in its range. */
  ghost predicate Moves(a: Db, level: nat, c: Picked, f: File, b: Db) {
    && Chosen(a.version, level, c) && c.inputs0 == [f] && c.inputs1 == []
    && b == a.(version := b.version) && Replaces(a.version, level, c, [f], b.version)
  }

  /** The selection gives all that a move needs. */
  lemma MoveIsStep(a: Db, level: nat, c: Picked, f: File, b: Db)
    requires Moves(a, level, c, f, b)
    ensures MoveStep(a, level, f, b)
  {
    hide Chosen, DisjointSorted, FilesContents, UnionOf, BySmallest, ValidVersion, LeftIsNewer, File.Valid,
         File.CoversUser;
    PickedFile(a.version, level, c, f);
    NothingCovers(a.version, level, c, f);
    MovedIsNewer(a.version, level, c, f);
    NothingGone(a.version[level + 1]);
    NumbersOfOne(f);
    CompactionStaysValid(a.version, level, c, [f], b.version);
  }

  lemma NumbersOfOne(f: File)
    ensures InputSelection.Numbers([f]) == {f.number} && InputSelection.Numbers([]) == {}
  {
    assert f in [f];
  }

  lemma PickedFile(v: Version, level: nat, c: Picked, f: File)
    requires Chosen(v, level, c) && c.inputs0 == [f]
    ensures |v| == NUM_LEVELS && level + 1 < |v| && f in v[level] && f.Valid() && DisjointSorted([f])
    ensures forall g :: g in v[level] && g.number == f.number ==> g == f
  {
    LevelFacts(v, level);
    assert f in c.inputs0;
  }

  lemma NothingCovers(v: Version, level: nat, c: Picked, f: File)
    requires Chosen(v, level, c) && c.inputs0 == [f] && c.inputs1 == []
    ensures forall g, e :: g in v[level + 1] && e in f.entries ==> !g.CoversUser(e.key.user)
  {
    hide Chosen, DisjointSorted, FilesContents, ValidVersion, File.Valid;
    PickedFile(v, level, c, f);
    var lo, hi := NextInputsAreFiles(v, level, c);
    assert f in c.inputs0;
    assert lo.user <= f.smallest.user && f.largest.user <= hi.user;
    hide HullOf;
    forall g, e | g in v[level + 1] && e in f.entries ensures !g.CoversUser(e.key.user) {
      InValidFile(f, e);
      assert g !in Overlapping(v[level + 1], UserRange(lo, hi));
    }
  }

  lemma MovedIsNewer(v: Version, level: nat, c: Picked, f: File)
    requires Chosen(v, level, c) && c.inputs0 == [f] && c.inputs1 == []
    ensures LeftIsNewer(v[level], {f.number}, f.entries)
  {
    hide Chosen, FilesContents, Contents, LeftIsNewer, NextClosed;
    OneFile(f);
    NumbersOfOne(f);
    PickedFile(v, level, c, f);
    ClosedInputsIff(v, level, c, f.entries);
  }

  lemma OneFile(f: File)
    ensures FilesContents([f]) == Contents(f.entries) && FilesContents([]) == {}
  {
    assert f in [f];
  }

  lemma {:induction false} NothingGone(files: Level)
    ensures Without(files, {}) == files
  {
    if |files| > 0 { NothingGone(files[1..]); }
  }
}
