/** Reads before and after a compaction: exactly when they agree. */
module CompactionReads {
  import opened Dbformat
  import opened Reads
  import opened Compactions

  ghost function Kept(input: seq<Entry>, snapshot: nat, v: Version, level: nat): set<Entry> {
    Contents(Survivors(input, |input|, snapshot, v, level))
  }

  /** What the compaction loop writes is what is kept, however it is cut into outputs. */
  lemma {:induction false} OutputsHoldKept(outputs: seq<Output>)
    ensures (set o, e | o in outputs && e in o.entries :: e) == Contents(Concat(outputs))
  {
    if |outputs| > 0 {
      var n := |outputs| - 1;
      OutputsHoldKept(outputs[..n]);
      assert outputs == outputs[..n] + [outputs[n]];
      assert Contents(Concat(outputs)) == Contents(Concat(outputs[..n])) + Contents(outputs[n].entries);
    }
  }

  /** Input `j` is the newest input entry of `k` that the oldest snapshot can see. */
  predicate FirstVisible(input: seq<Entry>, j: nat, k: UserKey, snapshot: nat) {
    && j < |input| && Visible(input[j], k, snapshot)
    && forall i :: 0 <= i < j ==> !Visible(input[i], k, snapshot)
  }

  /** The marker the loop removes for `k` is what hides an older value outside the inputs. */
  ghost predicate Exposed(rest: set<Entry>, input: seq<Entry>, snapshot: nat, v: Version, level: nat, k: UserKey) {
    && !CoveredFrom(v, level + 2, k)
    && exists j: nat, e ::
         && FirstVisible(input, j, k, snapshot) && input[j].key.kind.Deletion?
         && Newest(rest, k, snapshot, e) && e.key.kind.Value? && e.key.sequence < input[j].key.sequence
  }

  lemma InKept(input: seq<Entry>, snapshot: nat, v: Version, level: nat)
    ensures forall e :: e in Kept(input, snapshot, v, level) <==>
              exists i :: 0 <= i < |input| && input[i] == e && !Dropped(input, i, snapshot, v, level)
  {
    SurvivorsAre(input, |input|, snapshot, v, level);
  }

  /** Any later input of the same user key is older. */
  lemma LaterIsOlder(rest: set<Entry>, input: seq<Entry>, i: nat, j: nat)
    requires Sorted(input) && UniqueSequences(rest + Contents(input))
    requires i < |input| && j < |input| && input[i].key.user == input[j].key.user
    ensures i < j ==> input[j].key.sequence < input[i].key.sequence
    ensures input[j].key.sequence < input[i].key.sequence ==> i < j
  {
    assert input[i] in rest + Contents(input) && input[j] in rest + Contents(input);
    assert i < j ==> Less(input[i].key, input[j].key);
    assert j < i ==> Less(input[j].key, input[i].key);
  }

  /** Dropping changes no read at `s` unless the key is exposed. */
  lemma UnexposedAgrees(rest: set<Entry>, input: seq<Entry>, snapshot: nat, v: Version, level: nat, k: UserKey, s: nat)
    requires Sorted(input) && UniqueSequences(rest + Contents(input)) && snapshot <= s
    requires !Exposed(rest, input, snapshot, v, level, k)
    ensures Read(rest + Contents(input), k, s) == Read(rest + Kept(input, snapshot, v, level), k, s)
  {
    var before, after := rest + Contents(input), rest + Kept(input, snapshot, v, level);
    InKept(input, snapshot, v, level);
    NewestExists(before, k, s);
    if Absent(before, k, s) {
      ReadAbsent(before, k, s);
      ReadAbsent(after, k, s);
    } else {
      var e :| Newest(before, k, s, e);
      ReadNewest(before, k, s, e);
      if e in after {
        assert Newest(after, k, s, e);
        ReadNewest(after, k, s, e);
      } else {
        var i :| 0 <= i < |input| && input[i] == e && Dropped(input, i, snapshot, v, level);
        NewestNotHidden(rest, input, snapshot, k, s, i);
        RemovedMarkerReads(rest, input, snapshot, v, level, k, s, i);
      }
    }
  }

  lemma NewestNotHidden(rest: set<Entry>, input: seq<Entry>, snapshot: nat, k: UserKey, s: nat, i: nat)
    requires Sorted(input) && UniqueSequences(rest + Contents(input)) && snapshot <= s
    requires i < |input| && Newest(rest + Contents(input), k, s, input[i])
    ensures !Hidden(input, i, snapshot)
  {
    if j :| 0 <= j < i && Visible(input[j], input[i].key.user, snapshot) {
      LaterIsOlder(rest, input, j, i);
      assert input[j] in rest + Contents(input) && Visible(input[j], k, s);
    }
  }

  /** An input older than one the oldest snapshot sees is dropped. */
  lemma OlderIsDropped(rest: set<Entry>, input: seq<Entry>, snapshot: nat, v: Version, level: nat, i: nat, j: nat)
    requires Sorted(input) && UniqueSequences(rest + Contents(input)) && i < |input| && j < |input|
    requires Visible(input[i], input[j].key.user, snapshot) && input[j].key.sequence < input[i].key.sequence
    ensures Dropped(input, j, snapshot, v, level)
  {
    LaterIsOlder(rest, input, i, j);
  }

  lemma RemovedMarkerReads(rest: set<Entry>, input: seq<Entry>, snapshot: nat, v: Version, level: nat, k: UserKey,
                           s: nat, i: nat)
    requires Sorted(input) && UniqueSequences(rest + Contents(input)) && snapshot <= s
    requires i < |input| && Newest(rest + Contents(input), k, s, input[i])
    requires Dropped(input, i, snapshot, v, level) && !Hidden(input, i, snapshot)
    requires input[i] !in rest + Kept(input, snapshot, v, level)
    requires !Exposed(rest, input, snapshot, v, level, k)
    ensures Read(rest + Kept(input, snapshot, v, level), k, s) == NotFound
  {
    var after := rest + Kept(input, snapshot, v, level);
    InKept(input, snapshot, v, level);
    NewestExists(after, k, s);
    if Absent(after, k, s) {
      ReadAbsent(after, k, s);
    } else {
      var e :| Newest(after, k, s, e);
      ReadNewest(after, k, s, e);
      assert e in rest + Contents(input) && e.key.sequence < input[i].key.sequence;
      if e in Kept(input, snapshot, v, level) {
        var j :| 0 <= j < |input| && input[j] == e && !Dropped(input, j, snapshot, v, level);
        OlderIsDropped(rest, input, snapshot, v, level, i, j);
      }
      assert forall f :: f in rest && Visible(f, k, snapshot) ==> f in after && Visible(f, k, s);
      assert Newest(rest, k, snapshot, e);
      assert FirstVisible(input, i, k, snapshot);
    }
  }

  /** An exposed key reads differently at the oldest snapshot: the deleted value comes back. */
  lemma ExposedDiffers(rest: set<Entry>, input: seq<Entry>, snapshot: nat, v: Version, level: nat, k: UserKey)
    requires Sorted(input) && UniqueSequences(rest + Contents(input))
    requires Exposed(rest, input, snapshot, v, level, k)
    ensures Read(rest + Contents(input), k, snapshot) == NotFound
    ensures Read(rest + Kept(input, snapshot, v, level), k, snapshot).Found?
  {
    var j: nat, e :|
      && FirstVisible(input, j, k, snapshot) && input[j].key.kind.Deletion?
      && Newest(rest, k, snapshot, e) && e.key.kind.Value? && e.key.sequence < input[j].key.sequence;
    var before, after := rest + Contents(input), rest + Kept(input, snapshot, v, level);
    InKept(input, snapshot, v, level);
    assert FirstVisible(input, j, k, snapshot) && Newest(rest, k, snapshot, e);
    forall f | f in before && Visible(f, k, snapshot)
      ensures f.key.sequence <= input[j].key.sequence
      ensures f in Kept(input, snapshot, v, level) ==> f in rest
    {
      if f in Contents(input) {
        var i :| 0 <= i < |input| && input[i] == f;
        LaterIsOlder(rest, input, j, i);
        forall i' | 0 <= i' < |input| && input[i'] == f
          ensures Dropped(input, i', snapshot, v, level)
        {
          assert i' != j ==> Visible(input[j], input[i'].key.user, snapshot);
        }
      }
    }
    assert input[j] in Contents(input);
    assert Newest(before, k, snapshot, input[j]);
    ReadNewest(before, k, snapshot, input[j]);
    assert forall f :: f in after ==> f in before;
    assert Newest(after, k, snapshot, e);
    ReadNewest(after, k, snapshot, e);
  }

  /** Compaction preserves every read at or above the oldest snapshot if and only if no key is exposed. */
  lemma CompactionPreservesReadsIff(rest: set<Entry>, input: seq<Entry>, snapshot: nat, v: Version, level: nat)
    requires Sorted(input) && UniqueSequences(rest + Contents(input))
    ensures (forall k, s :: snapshot <= s ==>
               Read(rest + Contents(input), k, s) == Read(rest + Kept(input, snapshot, v, level), k, s))
       <==> (forall k :: !Exposed(rest, input, snapshot, v, level, k))
  {
    forall k, s | snapshot <= s && !Exposed(rest, input, snapshot, v, level, k)
      ensures Read(rest + Contents(input), k, s) == Read(rest + Kept(input, snapshot, v, level), k, s)
    {
      UnexposedAgrees(rest, input, snapshot, v, level, k, s);
    }
    forall k | Exposed(rest, input, snapshot, v, level, k)
      ensures Read(rest + Contents(input), k, snapshot) != Read(rest + Kept(input, snapshot, v, level), k, snapshot)
    {
      ExposedDiffers(rest, input, snapshot, v, level, k);
    }
  }
}
