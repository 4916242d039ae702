/** Boundary files are added at the compacted level only. A next level that splits one user key over two files can
    therefore lose a deletion: the concrete version below, whose inputs the selection code picks, brings a deleted value
    back. */
module BoundaryLoss {
  import opened Dbformat
  import opened Reads
  import opened CompactionReads
  import opened LsmRuns
  import opened InputSelection

  const put5 := Entry(InternalKey(5, 10, Value), [1])
  const old5 := Entry(InternalKey(5, 3, Value), [2])
  const del7 := Entry(InternalKey(7, 9, Deletion), [])
  const put7 := Entry(InternalKey(7, 4, Value), [3])

  const upper := File(1, 1, put5.key, put5.key, [put5])
  const left := File(2, 1, old5.key, del7.key, [old5, del7])
  const right := File(3, 1, put7.key, put7.key, [put7])

  const version: Version := [[], [upper], [left, right], [], [], [], []]
  const input := [put5, old5, del7]
  const picked := Picked([upper], [left], [], put5.key)

  lemma Files()
    ensures upper.Valid() && left.Valid() && right.Valid()
    ensures DisjointSorted([upper]) && DisjointSorted([left, right]) && DisjointSorted([])
    ensures Sorted(input)
  {
  }

  lemma VersionIsValid()
    ensures ValidVersion(version)
  {
    Files();
    forall l | 1 <= l < |version| ensures DisjointSorted(version[l]) {
      assert version[l] == [] || version[l] == [upper] || version[l] == [left, right];
    }
  }

  lemma LevelContents()
    ensures FilesContents([]) == {} && FilesContents([upper]) == {put5} && FilesContents([left]) == {old5, del7}
    ensures FilesContents([left, right]) == {old5, del7, put7}
  {
    assert put5 in upper.entries && put7 in right.entries && left.entries[0] == old5 && left.entries[1] == del7;
    assert upper in [upper] && left in [left] && [left, right][0] == left && [left, right][1] == right;
    assert forall e :: e in FilesContents([left]) <==> e in left.entries;
  }

  lemma VersionContents()
    ensures LevelsContents(version) == {put5, old5, del7, put7} && LevelOrdered(version)
  {
    LevelContents();
    hide FilesContents;
    assert version[1] in version && version[2] in version;
    forall l | 0 <= l < |version|
      ensures FilesContents(version[l]) == if l == 1 then {put5} else if l == 2 then {old5, del7, put7} else {}
    {
    }
  }

  lemma Selected()
    ensures HullOf([upper], put5.key, put5.key) && Finished(1, version[1], [upper])
    ensures Overlapping(version[2], UserRange(put5.key, put5.key)) == [left]
    ensures CoversNext(version, 1, [upper], [left])
  {
    Files();
    assert upper in [upper];
    OneFileSelectable(version[1], upper);
    assert HullOf([upper], put5.key, put5.key) && NoBoundary(version[1], put5.key);
    var r := UserRange(put5.key, put5.key);
    assert version[2][..1] == [left] && version[2][..1][..0] == [];
    assert Overlapping([left], r) == [left];
    assert r.Overlaps(left) && !r.Overlaps(right);
    CoversNextIntro(version, 1, [upper], [left], put5.key, put5.key);
  }

  lemma Sequences()
    ensures UniqueSequences({put5}) && UniqueSequences({old5, del7, put7}) && UniqueSequences({put5, old5, del7, put7})
    ensures Contents(input) == {put5, old5, del7}
    ensures NumbersIdentify([upper]) && NumbersIdentify([left, right])
  {
    assert input[0] == put5 && input[1] == old5 && input[2] == del7;
  }

  lemma IsChosen()
    ensures Chosen(version, 1, picked)
  {
    VersionIsValid();
    VersionContents();
    Selected();
    LevelContents();
    Sequences();
    hide ValidVersion, LevelOrdered, UniqueSequences, NumbersIdentify, Finished, CoversNext, FilesContents,
         LevelsContents;
  }

  lemma IsExposed()
    ensures Exposed({put7}, input, 10, version, 1, 7)
  {
    assert input[2] == del7;
    assert FirstVisible(input, 2, 7, 10);
    assert Newest({put7}, 7, 10, put7);
    forall l | 3 <= l < |version| ensures |version[l]| == 0 {
    }
  }

  /** The selection picks these inputs, the loop drops the deletion of key 7, and the old value reappears. */
  lemma DeletionIsLost()
    ensures Chosen(version, 1, picked) && Sorted(input)
    ensures Contents(input) == FilesContents(picked.inputs0) + FilesContents(picked.inputs1)
    ensures LevelsContents(version) == {put7} + Contents(input)
    ensures Read(LevelsContents(version), 7, 10) == NotFound
    ensures Read({put7} + Kept(input, 10, version, 1), 7, 10).Found?
  {
    Files();
    IsChosen();
    LevelContents();
    VersionContents();
    Sequences();
    IsExposed();
    hide FilesContents, LevelsContents, Contents, Kept, Exposed, UniqueSequences, Chosen, Sorted, DisjointSorted,
         File.Valid, LevelOrdered;
    assert {put7} + Contents(input) == {put5, old5, del7, put7};
    ExposedDiffers({put7}, input, 10, version, 1, 7);
  }
}
