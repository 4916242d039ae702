/** Internal keys, entries, files and versions: the values every LSM module works on.

    A user key is the rank of a key under the user's comparator: the engine only ever compares user
    keys, and any total order on the finitely many keys of one run is isomorphic to a set of integers. */
module Dbformat {
  type UserKey = int
  type Bytes = seq<nat>

  const MAX_SEQUENCE := 0xFF_FFFF_FFFF_FFFF
  const NUM_LEVELS := 7

  datatype ValueType = Deletion | Value

  function TypeCode(t: ValueType): nat { if t.Value? then 1 else 0 }

  datatype InternalKey = InternalKey(user: UserKey, sequence: nat, kind: ValueType) {
    /** The 64-bit trailer: sequence shifted left by eight, or-ed with the type. */
    function Tag(): nat { sequence * 256 + TypeCode(kind) }
  }

  /** InternalKeyComparator: increasing user key, then decreasing trailer. */
  predicate Less(a: InternalKey, b: InternalKey) {
    a.user < b.user || (a.user == b.user && a.Tag() > b.Tag())
  }

  predicate AtMost(a: InternalKey, b: InternalKey) { !Less(b, a) }

  /** The key that Get and Seek look for: the first possible key of `k` visible at `s`. */
  function LookupKey(k: UserKey, s: nat): InternalKey { InternalKey(k, s, Value) }

  datatype Entry = Entry(key: InternalKey, value: Bytes)

  predicate Sorted(es: seq<Entry>) {
    forall i, j :: 0 <= i < j < |es| ==> Less(es[i].key, es[j].key)
  }

  function Contents(es: seq<Entry>): set<Entry> { set e | e in es }

  /** A table file: its metadata and the entries stored in it. */
  datatype File = File(number: nat, fileSize: nat, smallest: InternalKey, largest: InternalKey, entries: seq<Entry>) {
    ghost predicate Valid() {
      && |entries| > 0
      && Sorted(entries)
      && smallest == entries[0].key
      && largest == entries[|entries| - 1].key
    }

    predicate CoversUser(k: UserKey) { smallest.user <= k <= largest.user }
  }

  type Level = seq<File>

  /** Levels above 0: files in key order, no two sharing an internal key range. */
  ghost predicate DisjointSorted(files: Level) {
    && (forall i :: 0 <= i < |files| ==> files[i].Valid())
    && (forall i, j :: 0 <= i < j < |files| ==> Less(files[i].largest, files[j].smallest))
  }

  type Version = seq<Level>

  ghost predicate ValidVersion(v: Version) {
    && |v| == NUM_LEVELS
    && (forall i :: 0 <= i < |v[0]| ==> v[0][i].Valid())
    && (forall l :: 1 <= l < |v| ==> DisjointSorted(v[l]))
  }

  function FilesContents(fs: seq<File>): set<Entry> {
    set f, e | f in fs && e in f.entries :: e
  }

  function LevelsContents(v: seq<Level>): set<Entry> {
    set l, e | l in v && e in FilesContents(l) :: e
  }

  lemma {:induction false} InValidFile(f: File, e: Entry)
    requires f.Valid() && e in f.entries
    ensures AtMost(f.smallest, e.key) && AtMost(e.key, f.largest)
    ensures f.CoversUser(e.key.user)
  {
    var i :| 0 <= i < |f.entries| && f.entries[i] == e;
    assert i > 0 ==> Less(f.entries[0].key, f.entries[i].key);
    assert i < |f.entries| - 1 ==> Less(f.entries[i].key, f.entries[|f.entries| - 1].key);
  }
}

/** What a read means: the newest entry of a user key with sequence at most the read's sequence. */
module Reads {
  import opened Dbformat

  datatype Lookup = NotFound | Found(value: Bytes)

  predicate Visible(e: Entry, k: UserKey, s: nat) { e.key.user == k && e.key.sequence <= s }

  predicate Newest(es: set<Entry>, k: UserKey, s: nat, e: Entry) {
    && e in es && Visible(e, k, s)
    && forall f :: f in es && Visible(f, k, s) ==> f.key.sequence <= e.key.sequence
  }

  ghost predicate Absent(es: set<Entry>, k: UserKey, s: nat) { forall e :: e in es ==> !Visible(e, k, s) }

  /** Every write has its own sequence number. */
  ghost predicate UniqueSequences(es: set<Entry>) {
    forall a, b :: a in es && b in es && a.key.user == b.key.user && a.key.sequence == b.key.sequence ==> a == b
  }

  function Answer(e: Entry): Lookup { if e.key.kind.Value? then Found(e.value) else NotFound }

  ghost function Read(es: set<Entry>, k: UserKey, s: nat): Lookup {
    if exists e :: Newest(es, k, s, e) then var e :| Newest(es, k, s, e); Answer(e) else NotFound
  }

  lemma {:induction false} NewestExists(es: set<Entry>, k: UserKey, s: nat)
    ensures Absent(es, k, s) || exists e :: Newest(es, k, s, e)
    decreases |es|
  {
    if x :| x in es {
      var rest := es - {x};
      NewestExists(rest, k, s);
      assert es == rest + {x};
      if Absent(rest, k, s) {
        assert Visible(x, k, s) ==> Newest(es, k, s, x);
      } else {
        var e :| Newest(rest, k, s, e);
        assert Newest(es, k, s, e) || Newest(es, k, s, x);
      }
    }
  }

  lemma ReadNewest(es: set<Entry>, k: UserKey, s: nat, e: Entry)
    requires UniqueSequences(es) && Newest(es, k, s, e)
    ensures Read(es, k, s) == Answer(e)
  {
    var x :| Newest(es, k, s, x) && Read(es, k, s) == Answer(x);
    assert Newest(es, k, s, x) && x in es && e in es;
    assert x.key.sequence == e.key.sequence;
  }

  lemma ReadAbsent(es: set<Entry>, k: UserKey, s: nat)
    requires Absent(es, k, s)
    ensures Read(es, k, s) == NotFound
  {
  }
}
