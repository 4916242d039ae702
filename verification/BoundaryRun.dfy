/** A run from the empty database that loses a deletion: a snapshot makes a compaction keep two entries of one key,
    which its outputs split, and the snapshot is released before the compaction that takes only one of the two files. */
module BoundaryRun {
  import opened Dbformat
  import opened Reads
  import opened Compactions
  import opened CompactionReads
  import opened LsmRuns
  import opened InputSelection
  import opened CompactionInstall
  import opened BoundaryLoss

  /** The flushed memtable, and the two files the first compaction cuts it into. */
  const whole := File(4, 1, old5.key, put7.key, [old5, del7, put7])
  const left1 := left.(number := 5)
  const right1 := right.(number := 6)
  const merged := [old5, del7, put7]

  const empty: Version := [[], [], [], [], [], [], []]
  const flushed: Version := [[whole], [], [], [], [], [], []]
  const once: Version := [[], [left1, right1], [], [], [], [], []]
  const twice: Version := [[], [], [left, right], [], [], [], []]

  ghost function States(): seq<Db> {
    [Db({}, empty, 0, {}), Db({old5, put7}, empty, 4, {}), Db({old5, put7}, empty, 4, {4}),
     Db({old5, put7, del7}, empty, 9, {4}), Db({}, flushed, 9, {4}), Db({}, once, 9, {4}), Db({}, twice, 9, {4}),
     Db({}, twice, 9, {}), Db({put5}, twice, 10, {}), Db({}, version, 10, {})]
  }

  ghost function Steps(): seq<Step> {
    [Write({old5, put7}), TakeSnapshot, Write({del7}), Flush(0, whole), Compact(0, {4}, {}, merged, 4, [left1, right1]),
     Compact(1, {5, 6}, {}, merged, 4, [left, right]), ReleaseSnapshot(4), Write({put5}), Flush(1, upper)]
  }

  lemma RunFiles()
    ensures whole.Valid() && left1.Valid() && right1.Valid() && Sorted(merged)
    ensures DisjointSorted([left1, right1]) && DisjointSorted([whole])
  {
    Files();
  }

  lemma RunVersions()
    ensures ValidVersion(empty) && ValidVersion(flushed) && ValidVersion(once) && ValidVersion(twice)
  {
    Files();
    RunFiles();
    forall v | v == empty || v == flushed || v == once || v == twice ensures ValidVersion(v) {
      forall l | 1 <= l < |v| ensures DisjointSorted(v[l]) {
        assert v[l] == [] || v[l] == [left1, right1] || v[l] == [left, right];
      }
    }
  }

  lemma MergedContents()
    ensures Contents(merged) == {old5, del7, put7} && Contents(whole.entries) == {old5, del7, put7}
    ensures Contents(upper.entries) == {put5}
  {
    assert merged[0] == old5 && merged[1] == del7 && merged[2] == put7;
  }

  /** While the snapshot is live, nothing is dropped. */
  lemma NothingDropped(v: Version, level: nat)
    ensures Kept(merged, 4, v, level) == {old5, del7, put7}
  {
    assert merged[0] == old5 && merged[1] == del7 && merged[2] == put7;
    forall i | 0 <= i < |merged| ensures !Dropped(merged, i, 4, v, level) {
      forall j | 0 <= j < i ensures !Visible(merged[j], merged[i].key.user, 4) {
      }
    }
    InKept(merged, 4, v, level);
    MergedContents();
  }

  lemma OneFile(f: File)
    ensures FilesContents([f]) == Contents(f.entries)
  {
    assert f in [f];
  }

  lemma TwoFiles(f: File, g: File)
    ensures FilesContents([f, g]) == Contents(f.entries) + Contents(g.entries)
  {
    assert f in [f, g] && g in [f, g];
  }

  lemma EntriesOf()
    ensures Contents(left1.entries) == {old5, del7} == Contents(left.entries)
    ensures Contents(right1.entries) == {put7} == Contents(right.entries)
  {
    assert left1.entries[0] == old5 && left1.entries[1] == del7 && right1.entries[0] == put7;
  }

  lemma PairContents()
    ensures FilesContents([left1, right1]) == {old5, del7, put7} == FilesContents([left, right])
    ensures FilesContents([whole]) == {old5, del7, put7} && FilesContents([]) == {}
  {
    MergedContents();
    EntriesOf();
    OneFile(whole);
    TwoFiles(left1, right1);
    TwoFiles(left, right);
  }

  lemma {:induction false} AllTaken(files: Level, gone: set<nat>)
    requires forall f :: f in files ==> f.number in gone
    ensures Without(files, gone) == [] && Only(files, gone) == files
  {
    if |files| > 0 {
      assert files == [files[0]] + files[1..];
      AllTaken(files[1..], gone);
    }
  }

  /** Nothing left: whatever was taken is closed. */
  lemma EmptyIsNewer(files: Level, gone: set<nat>, input: seq<Entry>)
    requires Without(files, gone) == []
    ensures LeftIsNewer(files, gone, input)
  {
  }

  /** The parts of a compaction of a whole level, while the snapshot is live, into an empty one. */
  lemma TakenInputs(v: Version, level: nat, gone: set<nat>)
    requires |v| == NUM_LEVELS && level + 1 < NUM_LEVELS && (forall f :: f in v[level] ==> f.number in gone)
    requires v[level + 1] == [] && FilesContents(v[level]) == {old5, del7, put7}
    ensures Without(v[level], gone) == [] && Without(v[level + 1], {}) == []
    ensures Contents(merged) == FilesContents(Only(v[level], gone)) + FilesContents(Only(v[level + 1], {}))
    ensures LeftIsNewer(v[level], gone, merged)
  {
    hide LeftIsNewer, Contents;
    MergedContents();
    PairContents();
    hide FilesContents;
    AllTaken(v[level], gone);
    AllTaken([], {});
    EmptyIsNewer(v[level], gone, merged);
  }

  lemma TakeAll(v: Version, w: Version, level: nat, gone: set<nat>, outs: Level)
    requires |v| == NUM_LEVELS == |w| && level + 1 < NUM_LEVELS && ValidVersion(w)
    requires (forall f :: f in v[level] ==> f.number in gone) && v[level + 1] == [] && w[level] == []
    requires w[level + 1] == outs
    requires forall l :: 0 <= l < NUM_LEVELS && l != level && l != level + 1 ==> w[l] == v[l]
    requires FilesContents(v[level]) == {old5, del7, put7} == FilesContents(outs)
    ensures CompactStep(Db({}, v, 9, {4}), level, gone, {}, merged, 4, outs, Db({}, w, 9, {4}))
  {
    hide ValidVersion, Sorted, Kept, FilesContents, LeftIsNewer, DisjointSorted, File.Valid, Contents, Without, Only;
    RunFiles();
    TakenInputs(v, level, gone);
    NothingDropped(v, level);
    Joins(w[level + 1], outs);
  }

  lemma Joins(files: Level, outs: Level)
    requires files == outs
    ensures UnionOf(files, [], outs)
  {
  }

  lemma Compacts()
    ensures StepOk(States()[4], Steps()[4], States()[5]) && StepOk(States()[5], Steps()[5], States()[6])
  {
    RunVersions();
    PairContents();
    hide ValidVersion, FilesContents, CompactStep;
    TakeAll(flushed, once, 0, {4}, [left1, right1]);
    TakeAll(once, twice, 1, {5, 6}, [left, right]);
  }

  lemma Flushes()
    ensures StepOk(States()[3], Steps()[3], States()[4]) && StepOk(States()[8], Steps()[8], States()[9])
  {
    RunVersions();
    RunFiles();
    Files();
    VersionIsValid();
    MergedContents();
    hide ValidVersion, Sorted, DisjointSorted, File.Valid, Contents;
    assert FlushStep(States()[3], 0, whole, States()[4]);
    assert FlushStep(States()[8], 1, upper, States()[9]);
  }

  lemma Writes()
    ensures StepOk(States()[0], Steps()[0], States()[1]) && StepOk(States()[1], Steps()[1], States()[2])
    ensures StepOk(States()[2], Steps()[2], States()[3])
    ensures StepOk(States()[6], Steps()[6], States()[7]) && StepOk(States()[7], Steps()[7], States()[8])
  {
    assert WriteStep(States()[0], {old5, put7}, States()[1]);
    assert WriteStep(States()[2], {del7}, States()[3]);
    assert WriteStep(States()[7], {put5}, States()[8]);
  }

  lemma EmptyInv()
    ensures Inv(States()[0]) && States()[0].All() == {}
  {
    RunVersions();
    assert forall l :: 0 <= l < |empty| ==> empty[l] == [];
    assert LevelsContents(empty) == {};
    hide ValidVersion;
  }

  lemma AllSteps()
    ensures Run(States(), Steps())
  {
    Writes();
    Flushes();
    Compacts();
    hide StepOk;
    forall i | 0 <= i < |Steps()| ensures StepOk(States()[i], Steps()[i], States()[i + 1]) {
    }
  }

  /** From the empty database to the version that loses the deletion. */
  lemma LossIsReachable()
    ensures Run(States(), Steps()) && Inv(States()[0]) && States()[0].All() == {}
    ensures States()[|States()| - 1] == Db({}, version, 10, {})
  {
    AllSteps();
    EmptyInv();
    hide Run, Inv;
  }

  // ---- The compaction that loses it ---------------------------------------------------------------

  const rewritten := File(7, 1, put5.key, put5.key, [put5])
  const lossy: Version := [[], [], [rewritten, right], [], [], [], []]
  const outputs := [Output(put5.key, put5.key, [put5])]

  ghost function Before(): Db { Db({}, version, 10, {}) }

  ghost function After(): Db { Db({}, lossy, 10, {}) }

  /** The loop keeps the new value of key 5 only. */
  lemma LoopDrops()
    ensures Survivors(input, 3, 10, version, 1) == [put5] == Concat(outputs)
  {
    assert input[0] == put5 && input[1] == old5 && input[2] == del7;
    assert Visible(put5, 5, 10);
    assert !Dropped(input, 0, 10, version, 1) && Dropped(input, 1, 10, version, 1);
    assert !CoveredFrom(version, 3, 7) by {
      assert forall l :: 3 <= l < |version| ==> version[l] == [];
    }
    assert Survivors(input, 0, 10, version, 1) == [];
    assert Survivors(input, 1, 10, version, 1) == [put5];
    assert outputs[..0] == [];
  }

  lemma LossReplaces()
    ensures Replaces(version, 1, picked, [rewritten], lossy) && FilesOf([rewritten], outputs)
  {
    assert InputSelection.Numbers([upper]) == {1} by { assert upper in [upper]; }
    assert InputSelection.Numbers([left]) == {2} by { assert left in [left]; }
    assert Without([upper], {1}) == [];
    LeftInNext();
  }

  lemma LeftInNext()
    ensures Without([left, right], {2}) == [right]
  {
    assert [left, right][1..] == [right] && [right][1..] == [];
    assert Without([right], {2}) == [right] + Without([], {2});
  }

  lemma LossInstalls()
    ensures Installs(Before(), 1, picked, input, 10, outputs, [rewritten], After())
  {
    IsChosen();
    Files();
    LevelContents();
    Sequences();
    LoopDrops();
    LossReplaces();
    hide Chosen, Sorted, FilesContents, Contents, Survivors, Concat, FilesOf, Replaces;
  }

  lemma RestIsOld()
    ensures Rest(Before(), 1, {1}, {2}) == {put7}
  {
    LevelContents();
    LeftInNext();
    assert Without([upper], {1}) == [];
    assert FilesContents([right]) == {put7} by { assert right in [right] && put7 in right.entries; }
    assert version[..1] == [[]] && version[3..] == [[], [], [], []];
    hide FilesContents, Without;
    assert LevelsContents(version[..1]) == {} && LevelsContents(version[3..]) == {};
  }

  lemma InputNumbers()
    ensures InputSelection.Numbers(picked.inputs0) == {1} && InputSelection.Numbers(picked.inputs1) == {2}
  {
    assert upper in [upper] && left in [left];
  }

  /** The selection, the loop and the installation together are a step of the run. */
  lemma LossIsStep()
    ensures CompactStep(Before(), 1, {1}, {2}, input, 10, [rewritten], After())
  {
    hide Installs, CompactStep, InputSelection.Numbers;
    InputNumbers();
    LossInstalls();
    InstallIsStep(Before(), 1, picked, input, 10, outputs, [rewritten], After());
  }

  lemma LossContents()
    ensures Before().All() == LevelsContents(version)
    ensures After().All() == {put7} + Kept(input, 10, version, 1)
  {
    hide CompactStep, Contents, Kept, LevelsContents, Rest;
    LossIsStep();
    CompactContents(Before(), 1, {1}, {2}, input, 10, [rewritten], After());
    RestIsOld();
  }

  /** One more compaction brings back the value that a deletion hid: no snapshot is live, and the latest read
      changes. */
  lemma LossHappens()
    ensures StepOk(Before(), Compact(1, {1}, {2}, input, 10, [rewritten]), After())
    ensures Read(Before().All(), 7, 10) == NotFound && Read(After().All(), 7, 10).Found?
  {
    hide CompactStep, Kept, LevelsContents, Db.All, FilesContents, Chosen, Sorted, Contents;
    LossIsStep();
    LossContents();
    DeletionIsLost();
  }
}
