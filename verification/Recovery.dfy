/** VersionSet::Recover: the manifest's records back to the version and counters they left behind. */
module Recovery {
  import opened Coding
  import opened Wrappers
  import opened WriteBatches
  import opened VersionEdits
  import opened VersionBuilder
  import opened RecoveryExact

  predicate FieldLevel(f: Field) {
    (f.CompactPointer? ==> f.level < Dbformat.NUM_LEVELS) && (f.DeletedFile? ==> f.level < Dbformat.NUM_LEVELS)
      && (f.NewFile? ==> f.level < Dbformat.NUM_LEVELS)
  }

  lemma FieldHasLevel(data: Bytes, p: nat)
    requires p <= |data| && GetField(data, p).Some?
    ensures FieldLevel(GetField(data, p).value.0)
  {
    hide GetVarint32, GetVarint64, GetLengthPrefixed, GetKey, GetFile;
  }

  lemma {:induction false} SetInsertIs(s: seq<(nat, nat)>, x: (nat, nat))
    ensures forall y :: y in SetInsert(s, x) ==> y in s || y == x
  {
    if |s| == 0 || PairLess(s[|s| - 1], x) || s[|s| - 1] == x {
    } else {
      SetInsertIs(s[..|s| - 1], x);
      assert s == s[..|s| - 1] + [s[|s| - 1]];
    }
  }

  lemma AbsorbLevels(e: Edit, f: Field)
    requires EditLevels(e) && FieldLevel(f)
    ensures EditLevels(Absorb(e, f))
  {
    if f.DeletedFile? {
      var x := (f.level, f.number);
      SetInsertIs(e.deleted, x);
      var d := SetInsert(e.deleted, x);
      forall i | 0 <= i < |d| ensures d[i].0 < Dbformat.NUM_LEVELS {
        assert d[i] in d;
        if d[i] != x {
          var j :| 0 <= j < |e.deleted| && e.deleted[j] == d[i];
        }
      }
    }
  }

  /** Every edit that decodes names levels that exist. */
  lemma {:induction false} DecodeLevels(data: Bytes, p: nat, e: Edit)
    requires p <= |data| && EditLevels(e) && Decode(data, p, e).Some?
    ensures EditLevels(Decode(data, p, e).value)
    decreases |data| - p
  {
    hide GetField, Absorb, EditLevels;
    if p < |data| {
      FieldHasLevel(data, p);
      var (f, q) := GetField(data, p).value;
      AbsorbLevels(e, f);
      DecodeLevels(data, q, Absorb(e, f));
    }
  }

  datatype Counters = Counters(logNumber: Option<nat>, prevLogNumber: Option<nat>, nextFile: Option<nat>,
                               lastSequence: Option<nat>)

  function Later(o: Option<nat>, n: Option<nat>): Option<nat> { if n.Some? then n else o }

  function Count(c: Counters, e: Edit): Counters {
    Counters(Later(c.logNumber, e.logNumber), Later(c.prevLogNumber, e.prevLogNumber),
             Later(c.nextFile, e.nextFileNumber), Later(c.lastSequence, e.lastSequence))
  }

  /** The counters after the first `n` edits: each edit overrides those it sets. */
  function CountersOf(edits: seq<Edit>, n: nat): Counters
    requires n <= |edits|
  {
    if n == 0 then Counters(None, None, None, None)
    else Count(CountersOf(edits, n - 1), edits[n - 1])
  }

  datatype Recovered = Recovered(version: seq<seq<Meta>>, manifestFileNumber: nat, nextFileNumber: nat,
                                 lastSequence: nat, logNumber: nat,
                                 prevLogNumber: nat, compactPointers: seq<Bytes>)

  /** The compact pointer of a level after the first `n` edits. */
  function PointerOf(edits: seq<Edit>, n: nat, level: nat): Bytes
    requires n <= |edits|
  {
    if n == 0 then []
    else PointerAfter(PointerOf(edits, n - 1, level), edits[n - 1].compactPointers, |edits[n - 1].compactPointers|,
                      level)
  }

  /** The manifest that writing these edits left. */
  ghost predicate ManifestOf(edits: seq<Edit>, records: seq<Bytes>) {
    |records| == |edits| && forall i :: 0 <= i < |edits| ==> ValidEdit(edits[i]) && records[i] == Encode(edits[i])
  }

  predicate NameOk(e: Edit, name: Bytes) { e.comparator.None? || e.comparator.value == name }

  ghost predicate SameComparator(edits: seq<Edit>, name: Bytes, n: nat)
    requires n <= |edits|
  {
    forall i :: 0 <= i < n ==> NameOk(edits[i], name)
  }

  /** The last log, manifest and sequence numbers were all recorded. */
  predicate Complete(c: Counters) { c.nextFile.Some? && c.logNumber.Some? && c.lastSequence.Some? }

  /** One manifest record: decode, check the comparator. */
  method ReadEdit(record: Bytes, name: Bytes, ghost edit: Edit) returns (r: Option<Edit>)
    ensures ValidEdit(edit) && record == Encode(edit) ==> r == if NameOk(edit, name) then Some(edit) else None
    ensures r.Some? ==> EditLevels(r.value)
  {
    hide ValidEdit, EditLevels;
    r := DecodeFrom(record);
    if ValidEdit(edit) && record == Encode(edit) { RoundTrip(edit); }
    if r.None? {
      return;
    }
    DecodedLevels(record);
    if r.value.comparator.Some? && r.value.comparator.value != name {
      r := None;
    }
  }

  /** The builder has taken in the first `n` edits. */
  ghost predicate Built(b: Builder, rank: Rank, edits: seq<Edit>, n: nat)
    requires n <= |edits|
    reads b
  {
    && b.Valid() && b.rank == rank
    && (forall l :: 0 <= l < Dbformat.NUM_LEVELS ==> b.levels[l] == Batch(rank, edits, l, n))
    && (forall l :: 0 <= l < Dbformat.NUM_LEVELS ==> b.compactPointers[l] == PointerOf(edits, n, l))
  }

  lemma NothingBuilt(b: Builder, edits: seq<Edit>)
    requires b.Valid() && b.levels == seq(Dbformat.NUM_LEVELS, _ => FRESH)
    requires b.compactPointers == seq(Dbformat.NUM_LEVELS, _ => [])
    ensures Built(b, b.rank, edits, 0)
  {
  }

  method ApplyEdit(b: Builder, edit: Edit, ghost edits: seq<Edit>, ghost n: nat)
    requires b.Valid() && EditLevels(edit)
    modifies b
    ensures b.Valid()
    ensures n < |edits| && edits[n] == edit && old(Built(b, b.rank, edits, n)) ==> Built(b, b.rank, edits, n + 1)
  {
    hide EditLevels, ApplyLevel;
    b.Apply(edit);
  }

  /** Apply every record, collecting the counters. */
  method ReplayManifest(b: Builder, name: Bytes, records: seq<Bytes>,
                        ghost edits: seq<Edit>) returns (c: Option<Counters>)
    requires b.Valid() && b.levels == seq(Dbformat.NUM_LEVELS, _ => FRESH)
    requires b.compactPointers == seq(Dbformat.NUM_LEVELS, _ => [])
    modifies b
    ensures b.Valid()
    ensures ManifestOf(edits, records) ==> (c.Some? <==> SameComparator(edits, name, |edits|))
    ensures ManifestOf(edits, records) && c.Some? ==>
              c.value == CountersOf(edits, |edits|) && Built(b, b.rank, edits, |edits|)
  {
    hide ValidEdit, EditLevels, NameOk, Built, Count;
    var counters := Counters(None, None, None, None);
    ghost var good := ManifestOf(edits, records);
    NothingBuilt(b, edits);
    for i := 0 to |records|
      invariant b.Valid()
      invariant good ==>
                  counters == CountersOf(edits, i) && SameComparator(edits, name, i) && Built(b, b.rank, edits, i)
    {
      var edit := ReadEdit(records[i], name, if good then edits[i] else EMPTY);
      if edit.None? {
        return None;
      }
      ApplyEdit(b, edit.value, edits, i);
      counters := Count(counters, edit.value);
    }
    return Some(counters);
  }

  /** A manifest of valid edits recovers exactly when the comparator matches and all counters are there; then the files
      are those of applying the edits one version at a time, and the counters the last recorded ones. */
  method Recover(rank: Rank, name: Bytes, records: seq<Bytes>, ghost edits: seq<Edit>) returns (r: Option<Recovered>)
    ensures ManifestOf(edits, records) ==>
              (r.Some? <==> SameComparator(edits, name, |edits|) && Complete(CountersOf(edits, |edits|)))
    ensures ManifestOf(edits, records) && r.Some? ==> RecoveredFrom(rank, edits, r.value)
  {
    hide ManifestOf, SameComparator;
    var builder := new Builder(rank, seq(Dbformat.NUM_LEVELS, _ => []), seq(Dbformat.NUM_LEVELS, _ => []));
    var counters := ReplayManifest(builder, name, records, edits);
    if counters.None? {
      return None;
    }
    var c := counters.value;
    if c.nextFile.None? || c.logNumber.None? || c.lastSequence.None? {
      return None;
    }
    var v := builder.SaveTo();
    if ManifestOf(edits, records) { SavedIsHistory(rank, edits, v); }
    return Some(Recovered(v, c.nextFile.value, c.nextFile.value + 1, c.lastSequence.value, c.logNumber.value,
                          if c.prevLogNumber.Some? then c.prevLogNumber.value else 0, builder.compactPointers));
  }

  ghost predicate RecoveredFrom(rank: Rank, edits: seq<Edit>, r: Recovered) {
    var c := CountersOf(edits, |edits|);
    && Complete(c) && r.manifestFileNumber == c.nextFile.value && r.nextFileNumber == c.nextFile.value + 1
    && r.lastSequence == c.lastSequence.value && r.logNumber == c.logNumber.value
    && r.prevLogNumber == (if c.prevLogNumber.Some? then c.prevLogNumber.value else 0)
    && |r.version| == Dbformat.NUM_LEVELS == |r.compactPointers|
    && (forall l :: 0 <= l < Dbformat.NUM_LEVELS ==> r.compactPointers[l] == PointerOf(edits, |edits|, l))
    && forall l :: 0 <= l < Dbformat.NUM_LEVELS && Guarded(rank, edits, l) ==>
       r.version[l] == History(rank, [], edits, l, |edits|)
  }

  lemma DecodedLevels(data: Bytes)
    requires Decode(data, 0, EMPTY).Some?
    ensures EditLevels(Decode(data, 0, EMPTY).value)
  {
    DecodeLevels(data, 0, EMPTY);
  }

  /** Every edit meets its guard at this level. */
  ghost predicate Guarded(rank: Rank, edits: seq<Edit>, level: nat) {
    forall i :: 0 <= i < |edits| ==> GuardAt(rank, edits, level, i)
  }

  lemma SavedIsHistory(rank: Rank, edits: seq<Edit>, v: seq<seq<Meta>>)
    requires |v| == Dbformat.NUM_LEVELS
    requires forall l :: 0 <= l < Dbformat.NUM_LEVELS ==> v[l] == Save(rank, [], Batch(rank, edits, l, |edits|))
    ensures forall l :: 0 <= l < Dbformat.NUM_LEVELS && Guarded(rank, edits, l) ==>
              v[l] == History(rank, [], edits, l, |edits|)
  {
    hide GuardAt, ApplyLevel;
    forall l | 0 <= l < Dbformat.NUM_LEVELS && Guarded(rank, edits, l)
      ensures v[l] == History(rank, [], edits, l, |edits|)
    {
      GuardsAgree(rank, edits, l, |edits|);
    }
  }
}
