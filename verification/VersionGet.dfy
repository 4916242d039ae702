/** Point reads: the memtables, then level 0 newest file first, then at most one file per deeper level. */
module VersionGet {
  import opened Dbformat
  import opened Reads
  import opened LsmRuns
  import opened Wrappers

  /** What a search of `es` at (k, s) must return: its newest visible entry, if there is one. */
  ghost predicate Hit(es: set<Entry>, k: UserKey, s: nat, r: Option<Entry>) {
    match r
    case Some(e) => Newest(es, k, s, e)
    case None => Absent(es, k, s)
  }

  /** An entry of user key k is at or after the lookup key exactly when it is visible. */
  lemma LookupKeySplits(e: InternalKey, k: UserKey, s: nat)
    ensures Less(e, LookupKey(k, s)) <==> e.user < k || (e.user == k && e.sequence > s)
  {
  }

  /** Seek in a sorted run, as the memtable and table iterators do: the first entry at or after the target. */
  ghost predicate LowerBound(es: seq<Entry>, target: InternalKey, i: nat) {
    && i <= |es|
    && (forall j :: 0 <= j < i ==> Less(es[j].key, target))
    && (forall j :: i <= j < |es| ==> AtMost(target, es[j].key))
  }

  method Seek(es: seq<Entry>, target: InternalKey) returns (i: nat)
    requires Sorted(es)
    ensures LowerBound(es, target, i)
  {
    i := 0;
    while i < |es| && Less(es[i].key, target)
      invariant i <= |es| && forall j :: 0 <= j < i ==> Less(es[j].key, target)
    {
      i := i + 1;
    }
  }

  /** MemTable::Get and TableCache::Get: seek to the lookup key and compare the user key found. */
  method SortedGet(es: seq<Entry>, k: UserKey, s: nat) returns (r: Option<Entry>)
    requires Sorted(es)
    ensures Hit(Contents(es), k, s, r)
  {
    var i := Seek(es, LookupKey(k, s));
    forall e | e in es && Visible(e, k, s)
      ensures i < |es| && es[i].key.user == k && e.key.sequence <= es[i].key.sequence
    {
      var j :| 0 <= j < |es| && es[j] == e;
      assert j > i ==> Less(es[i].key, es[j].key);
    }
    if i < |es| && es[i].key.user == k {
      return Some(es[i]);
    }
    return None;
  }

  /** FindFile: the first file whose largest key is at or after `key`. */
  method FindFile(files: Level, key: InternalKey) returns (r: nat)
    requires DisjointSorted(files)
    ensures r <= |files|
    ensures forall i :: 0 <= i < r ==> Less(files[i].largest, key)
    ensures forall i :: r <= i < |files| ==> AtMost(key, files[i].largest)
  {
    var left := 0;
    r := |files|;
    while left < r
      invariant left <= r <= |files|
      invariant forall i :: 0 <= i < left ==> Less(files[i].largest, key)
      invariant forall i :: r <= i < |files| ==> AtMost(key, files[i].largest)
    {
      var mid := (left + r) / 2;
      if Less(files[mid].largest, key) {
        forall i | 0 <= i <= mid ensures Less(files[i].largest, key) { LargestAscend(files, i, mid); }
        left := mid + 1;
      } else {
        forall i | mid <= i < |files| ensures AtMost(key, files[i].largest) { LargestAscend(files, mid, i); }
        r := mid;
      }
    }
  }

  lemma LargestAscend(files: Level, i: nat, j: nat)
    requires DisjointSorted(files) && i <= j < |files|
    ensures AtMost(files[i].largest, files[j].largest)
  {
    if i < j {
      assert files[j].Valid();
      InValidFile(files[j], files[j].entries[|files[j].entries| - 1]);
    }
  }

  /** Entries of earlier files come first. */
  lemma FilesAscend(files: Level, i: nat, x: Entry, j: nat, y: Entry)
    requires DisjointSorted(files) && i < j < |files| && x in files[i].entries && y in files[j].entries
    ensures Less(x.key, y.key)
  {
    InValidFile(files[i], x);
    InValidFile(files[j], y);
  }

  /** Only the file FindFile returns can hold the newest visible entry of the level. */
  lemma OneFileDecides(files: Level, k: UserKey, s: nat, r: nat, found: Option<Entry>)
    requires DisjointSorted(files) && r < |files|
    requires forall i :: 0 <= i < r ==> Less(files[i].largest, LookupKey(k, s))
    requires AtMost(LookupKey(k, s), files[r].largest)
    requires Hit(Contents(files[r].entries), k, s, found)
    ensures Hit(FilesContents(files), k, s, found)
  {
    forall e | e in FilesContents(files) && Visible(e, k, s)
      ensures found.Some? && e.key.sequence <= found.value.key.sequence
    {
      var f :| f in files && e in f.entries;
      var j :| 0 <= j < |files| && files[j] == f;
      InValidFile(files[j], e);
      LookupKeySplits(e.key, k, s);
      assert j >= r;
      if j == r {
        assert e in Contents(files[r].entries);
      } else {
        var last := files[r].entries[|files[r].entries| - 1];
        FilesAscend(files, r, last, j, e);
        assert Visible(last, k, s) && last in Contents(files[r].entries);
        FilesAscend(files, r, found.value, j, e);
      }
    }
  }

  lemma PastTheEnd(files: Level, k: UserKey, s: nat)
    requires DisjointSorted(files)
    requires forall i :: 0 <= i < |files| ==> Less(files[i].largest, LookupKey(k, s))
    ensures Absent(FilesContents(files), k, s)
  {
    forall e | e in FilesContents(files) ensures !Visible(e, k, s) {
      var f :| f in files && e in f.entries;
      var j :| 0 <= j < |files| && files[j] == f;
      InValidFile(files[j], e);
    }
  }

  /** One level above 0. */
  method LevelGet(files: Level, k: UserKey, s: nat) returns (r: Option<Entry>)
    requires DisjointSorted(files)
    ensures Hit(FilesContents(files), k, s, r)
  {
    if |files| == 0 {
      return None;
    }
    var index := FindFile(files, LookupKey(k, s));
    if index == |files| {
      PastTheEnd(files, k, s);
      return None;
    }
    var f := files[index];
    if k < f.smallest.user {
      NotCovered(f, k, s);
      r := None;
    } else {
      r := SortedGet(f.entries, k, s);
    }
    OneFileDecides(files, k, s, index, r);
  }

  lemma NotCovered(f: File, k: UserKey, s: nat)
    requires f.Valid() && !f.CoversUser(k)
    ensures Absent(Contents(f.entries), k, s)
  {
    forall e | e in f.entries ensures e.key.user != k { InValidFile(f, e); }
  }

  ghost predicate NewestFirst(files: Level) {
    forall i, j :: 0 <= i < j < |files| ==> files[i].number >= files[j].number
  }

  /** Insert into a list kept newest first. */
  method InsertNewestFirst(files: Level, f: File) returns (r: Level)
    requires NewestFirst(files)
    ensures NewestFirst(r) && multiset(r) == multiset(files) + multiset{f}
  {
    var i := 0;
    while i < |files| && files[i].number >= f.number
      invariant i <= |files| && forall j :: 0 <= j < i ==> files[j].number >= f.number
    {
      i := i + 1;
    }
    InsertedInOrder(files, i, f);
    hide NewestFirst;
    r := files[..i] + [f] + files[i..];
    assert files == files[..i] + files[i..];
  }

  lemma InsertedInOrder(files: Level, i: nat, f: File)
    requires NewestFirst(files) && i <= |files| && (forall j :: 0 <= j < i ==> files[j].number >= f.number)
    requires i < |files| ==> files[i].number < f.number
    ensures NewestFirst(files[..i] + [f] + files[i..])
  {
    var r := files[..i] + [f] + files[i..];
    forall a | 0 <= a < |r| ensures r[a] == if a < i then files[a] else if a == i then f else files[a - 1] {
    }
  }

  /** The level-0 files that cover the key, newest first. */
  method Candidates(files: Level, k: UserKey) returns (tmp: Level)
    ensures NewestFirst(tmp)
    ensures forall f :: f in tmp <==> f in files && f.CoversUser(k)
  {
    tmp := [];
    for i := 0 to |files|
      invariant NewestFirst(tmp)
      invariant forall f :: f in multiset(tmp) <==> f in files[..i] && f.CoversUser(k)
    {
      var f := files[i];
      if k >= f.smallest.user && k <= f.largest.user {
        tmp := InsertNewestFirst(tmp, f);
      }
      assert files[..i + 1] == files[..i] + [f];
    }
    assert files[..|files|] == files;
  }

  /** The first candidate with a visible entry holds the newest one of level 0. */
  lemma FirstCandidateDecides(files: Level, tmp: Level, i: nat, k: UserKey, s: nat, e: Entry)
    requires LevelZeroOrdered(files) && (forall j :: 0 <= j < |files| ==> files[j].Valid())
    requires NewestFirst(tmp) && (forall f :: f in tmp <==> f in files && f.CoversUser(k))
    requires i < |tmp| && Newest(Contents(tmp[i].entries), k, s, e)
    requires forall j :: 0 <= j < i ==> Absent(Contents(tmp[j].entries), k, s)
    ensures Newest(FilesContents(files), k, s, e)
  {
    assert tmp[i] in files;
    forall x | x in FilesContents(files) && Visible(x, k, s)
      ensures x.key.sequence <= e.key.sequence
    {
      var f :| f in files && x in f.entries;
      var n :| 0 <= n < |files| && files[n] == f;
      InValidFile(files[n], x);
      assert f in tmp && x in Contents(f.entries);
      var j :| 0 <= j < |tmp| && tmp[j] == f;
      LaterCandidate(files, tmp, i, j, k, s, e, x);
    }
  }

  lemma LaterCandidate(files: Level, tmp: Level, i: nat, j: nat, k: UserKey, s: nat, e: Entry, x: Entry)
    requires LevelZeroOrdered(files) && NewestFirst(tmp) && i < |tmp| && j < |tmp| && tmp[i] in files && tmp[j] in files
    requires Newest(Contents(tmp[i].entries), k, s, e) && x in Contents(tmp[j].entries) && Visible(x, k, s)
    requires forall j :: 0 <= j < i ==> Absent(Contents(tmp[j].entries), k, s)
    ensures x.key.sequence <= e.key.sequence
  {
    hide Contents;
    if tmp[i].number > tmp[j].number {
      assert NewerThan(Contents(tmp[i].entries), Contents(tmp[j].entries));
    } else if j > i {
      assert tmp[i] == tmp[j];
    }
  }

  lemma NoCandidateHits(files: Level, tmp: Level, k: UserKey, s: nat)
    requires forall j :: 0 <= j < |files| ==> files[j].Valid()
    requires forall f :: f in tmp <==> f in files && f.CoversUser(k)
    requires forall j :: 0 <= j < |tmp| ==> Absent(Contents(tmp[j].entries), k, s)
    ensures Absent(FilesContents(files), k, s)
  {
    forall x | x in FilesContents(files) ensures !Visible(x, k, s) {
      var f :| f in files && x in f.entries;
      var n :| 0 <= n < |files| && files[n] == f;
      InValidFile(files[n], x);
      assert x in Contents(f.entries);
    }
  }

  method LevelZeroGet(files: Level, k: UserKey, s: nat) returns (r: Option<Entry>)
    requires LevelZeroOrdered(files) && (forall j :: 0 <= j < |files| ==> files[j].Valid())
    ensures Hit(FilesContents(files), k, s, r)
  {
    var tmp := Candidates(files, k);
    for i := 0 to |tmp|
      invariant forall j :: 0 <= j < i ==> Absent(Contents(tmp[j].entries), k, s)
    {
      assert tmp[i] in files;
      r := SortedGet(tmp[i].entries, k, s);
      if r.Some? {
        FirstCandidateDecides(files, tmp, i, k, s, r.value);
        return;
      }
    }
    NoCandidateHits(files, tmp, k, s);
    return None;
  }

  /** A hit in newer data hides everything older; a miss passes the search on. */
  lemma Layered(newer: set<Entry>, older: set<Entry>, k: UserKey, s: nat, first: Option<Entry>, second: Option<Entry>)
    requires NewerThan(newer, older) && Hit(newer, k, s, first)
    requires first.None? ==> Hit(older, k, s, second)
    ensures Hit(newer + older, k, s, if first.Some? then first else second)
  {
  }

  ghost predicate ReadableVersion(v: Version) {
    ValidVersion(v) && LevelOrdered(v) && LevelZeroOrdered(v[0])
  }

  lemma UpperNewer(v: Version, l: nat)
    requires LevelOrdered(v) && l < |v|
    ensures NewerThan(LevelsContents(v[..l]), FilesContents(v[l]))
    ensures NewerThan(FilesContents(v[l]), LevelsContents(v[l + 1..]))
    ensures LevelsContents(v[..l + 1]) == LevelsContents(v[..l]) + FilesContents(v[l])
    ensures LevelsContents(v[..l + 1]) + LevelsContents(v[l + 1..]) == LevelsContents(v)
  {
    forall x | x in LevelsContents(v[..l])
      ensures forall y :: y in FilesContents(v[l]) && x.key.user == y.key.user ==> x.key.sequence > y.key.sequence
    {
      var m := LevelOf(v[..l], x);
      assert NewerThan(FilesContents(v[m]), FilesContents(v[l]));
    }
    forall y | y in LevelsContents(v[l + 1..])
      ensures forall x :: x in FilesContents(v[l]) && x.key.user == y.key.user ==> x.key.sequence > y.key.sequence
    {
      var m := LevelOf(v[l + 1..], y);
      assert NewerThan(FilesContents(v[l]), FilesContents(v[l + 1 + m]));
    }
    assert v[..l + 1] == v[..l] + [v[l]];
    assert v == v[..l + 1] + v[l + 1..];
  }

  /** A hit at level `l` after misses above it is the newest entry of the whole version. */
  lemma LevelDecides(v: Version, l: nat, k: UserKey, s: nat, e: Entry)
    requires LevelOrdered(v) && l < |v|
    requires Absent(LevelsContents(v[..l]), k, s) && Newest(FilesContents(v[l]), k, s, e)
    ensures Newest(LevelsContents(v), k, s, e)
  {
    UpperNewer(v, l);
    Layered(LevelsContents(v[..l]), FilesContents(v[l]), k, s, None, Some(e));
    forall x | x in LevelsContents(v) && Visible(x, k, s) ensures x.key.sequence <= e.key.sequence {
      assert x in LevelsContents(v[..l + 1]) || x in LevelsContents(v[l + 1..]);
    }
  }

  /** Version::Get. */
  method VersionGet(v: Version, k: UserKey, s: nat) returns (r: Option<Entry>)
    requires ReadableVersion(v)
    ensures Hit(LevelsContents(v), k, s, r)
  {
    r := LevelZeroGet(v[0], k, s);
    assert v[..0] == [];
    if r.Some? {
      LevelDecides(v, 0, k, s, r.value);
      return;
    }
    UpperNewer(v, 0);
    for level := 1 to NUM_LEVELS
      invariant Absent(LevelsContents(v[..level]), k, s)
    {
      r := LevelGet(v[level], k, s);
      if r.Some? {
        LevelDecides(v, level, k, s, r.value);
        return;
      }
      UpperNewer(v, level);
    }
    assert v[..NUM_LEVELS] == v;
    return None;
  }

  /** DBImpl::Get: memtable, immutable memtable, version. The answer is the read of everything stored, in any state
      that satisfies the invariant of the LSM runs. */
  method Get(mem: seq<Entry>, imm: seq<Entry>, db: Db, k: UserKey, s: nat) returns (r: Lookup)
    requires Inv(db) && Sorted(mem) && Sorted(imm)
    requires db.mem == Contents(mem) + Contents(imm) && NewerThan(Contents(mem), Contents(imm))
    ensures r == Read(db.All(), k, s)
  {
    MemNewer(db);
    ghost var tables := LevelsContents(db.version);
    assert db.All() == Contents(mem) + (Contents(imm) + tables);
    var found := SortedGet(mem, k, s);
    if found.None? {
      var found2 := SortedGet(imm, k, s);
      if found2.None? {
        var found3 := VersionGet(db.version, k, s);
        Layered(Contents(imm), tables, k, s, found2, found3);
        Layered(Contents(mem), Contents(imm) + tables, k, s, found, found3);
        r := Conclude(db.All(), k, s, found3);
      } else {
        Layered(Contents(imm), tables, k, s, found2, None);
        Layered(Contents(mem), Contents(imm) + tables, k, s, found, found2);
        r := Conclude(db.All(), k, s, found2);
      }
    } else {
      Layered(Contents(mem), Contents(imm) + tables, k, s, found, None);
      r := Conclude(db.All(), k, s, found);
    }
  }

  lemma MemNewer(db: Db)
    requires Inv(db)
    ensures NewerThan(db.mem, LevelsContents(db.version))
  {
    forall y | y in LevelsContents(db.version)
      ensures forall x :: x in db.mem && x.key.user == y.key.user ==> x.key.sequence > y.key.sequence
    {
      var l := LevelOf(db.version, y);
      assert NewerThan(db.mem, FilesContents(db.version[l]));
    }
  }

  /** SaveValue: a deletion reads as not found. */
  method Conclude(ghost es: set<Entry>, k: UserKey, s: nat, found: Option<Entry>) returns (r: Lookup)
    requires UniqueSequences(es) && Hit(es, k, s, found)
    ensures r == Read(es, k, s)
  {
    match found
    case Some(e) =>
      ReadNewest(es, k, s, e);
      return Answer(e);
    case None =>
      ReadAbsent(es, k, s);
      return NotFound;
  }
}
