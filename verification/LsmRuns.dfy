/** Whole runs of the LSM tree: writes, snapshots, memtable flushes and compactions in any order.

    The invariant is the order the read path relies on (newer entries of a key sit nearer the top); the main
    result is that a live snapshot reads the same value in every later state. */
module LsmRuns {
  import opened Dbformat
  import opened Reads
  import opened Compactions
  import opened CompactionReads

  function Without(files: Level, gone: set<nat>): Level {
    if |files| == 0 then []
    else (if files[0].number in gone then [] else [files[0]]) + Without(files[1..], gone)
  }

  function Only(files: Level, gone: set<nat>): Level {
    if |files| == 0 then []
    else (if files[0].number in gone then [files[0]] else []) + Only(files[1..], gone)
  }

  lemma {:induction false} WithoutOnly(files: Level, gone: set<nat>)
    ensures forall f :: f in Without(files, gone) <==> f in files && f.number !in gone
    ensures forall f :: f in Only(files, gone) <==> f in files && f.number in gone
  {
    if |files| > 0 {
      WithoutOnly(files[1..], gone);
      assert files == [files[0]] + files[1..];
    }
  }

  /** `last` is LastSequence(); `mem` holds the memtable and the immutable memtable. */
  datatype Db = Db(mem: set<Entry>, version: Version, last: nat, snapshots: set<nat>) {
    function All(): set<Entry> { mem + LevelsContents(version) }
  }

  /** Every entry of `a` is newer than every entry of `b` with the same user key. */
  ghost predicate NewerThan(a: set<Entry>, b: set<Entry>) {
    forall x, y :: x in a && y in b && x.key.user == y.key.user ==> x.key.sequence > y.key.sequence
  }

  ghost predicate LevelOrdered(v: Version) {
    forall l, m :: 0 <= l < m < |v| ==> NewerThan(FilesContents(v[l]), FilesContents(v[m]))
  }

  /** Level-0 files with larger numbers hold newer data, and a number names one file. */
  ghost predicate LevelZeroOrdered(files: Level) {
    && (forall f, g :: f in files && g in files && f.number > g.number ==>
         NewerThan(Contents(f.entries), Contents(g.entries)))
    && (forall f, g :: f in files && g in files && f.number == g.number ==> f == g)
  }

  ghost predicate Inv(db: Db) {
    && |db.version| == NUM_LEVELS && ValidVersion(db.version)
    && UniqueSequences(db.All())
    && (forall e :: e in db.All() ==> e.key.sequence <= db.last)
    && (forall s :: s in db.snapshots ==> s <= db.last)
    && (forall l :: 0 <= l < |db.version| ==> NewerThan(db.mem, FilesContents(db.version[l])))
    && LevelOrdered(db.version)
    && LevelZeroOrdered(db.version[0])
  }

  ghost predicate UnionOf(files: Level, xs: Level, ys: Level) {
    forall g :: g in files <==> g in xs || g in ys
  }

  datatype Step =
    | Write(batch: set<Entry>)
    | TakeSnapshot
    | ReleaseSnapshot(s: nat)
    | Flush(level: nat, file: File)
    | Move(mlevel: nat, moved: File)
    | Compact(clevel: nat, gone0: set<nat>, gone1: set<nat>, input: seq<Entry>, snapshot: nat, outs: seq<File>)

  ghost predicate WriteStep(a: Db, batch: set<Entry>, b: Db) {
    && b == a.(mem := a.mem + batch, last := b.last)
    && UniqueSequences(batch)
    && (forall e :: e in batch ==> a.last < e.key.sequence <= b.last)
    && a.last <= b.last
  }

  /** A table with the oldest memtable entries enters level 0 with the highest number, or a deeper level when
      no file at that level or above overlaps its user-key range (PickLevelForMemTableOutput). */
  ghost predicate FlushStep(a: Db, level: nat, f: File, b: Db) {
    && level < NUM_LEVELS && |a.version| == NUM_LEVELS == |b.version| && ValidVersion(b.version)
    && f.Valid() && Contents(f.entries) <= a.mem
    && NewerThan(a.mem - Contents(f.entries), Contents(f.entries))
    && b == a.(mem := a.mem - Contents(f.entries), version := b.version)
    && (forall l :: 0 <= l < NUM_LEVELS && l != level ==> b.version[l] == a.version[l])
    && UnionOf(b.version[level], a.version[level], [f])
    && (if level == 0 then forall g :: g in a.version[0] ==> g.number < f.number
        else forall l, g, e :: 0 <= l < level && g in a.version[l] && e in f.entries ==> !g.CoversUser(e.key.user))
  }

  /** No entry left behind among `files` is older than an input entry of its user key. */
  ghost predicate LeftIsNewer(files: Level, gone: set<nat>, input: seq<Entry>) {
    NewerThan(FilesContents(Without(files, gone)), Contents(input))
  }

  /** A compaction. Its own level is closed, as the selection always makes it; the next level need not be. */
  ghost predicate CompactStep(a: Db, level: nat, gone0: set<nat>, gone1: set<nat>, input: seq<Entry>, snapshot: nat,
                              outs: seq<File>, b: Db) {
    && level + 1 < NUM_LEVELS && |a.version| == NUM_LEVELS == |b.version| && ValidVersion(b.version)
    && snapshot <= a.last && (forall s :: s in a.snapshots ==> snapshot <= s)
    && Sorted(input)
    && Contents(input) ==
       FilesContents(Only(a.version[level], gone0)) + FilesContents(Only(a.version[level + 1], gone1))
    && LeftIsNewer(a.version[level], gone0, input)
    && FilesContents(outs) == Kept(input, snapshot, a.version, level)
    && b == a.(version := b.version)
    && (forall l :: 0 <= l < NUM_LEVELS && l != level && l != level + 1 ==> b.version[l] == a.version[l])
    && b.version[level] == Without(a.version[level], gone0)
    && UnionOf(b.version[level + 1], Without(a.version[level + 1], gone1), outs)
  }

  /** A trivial move: a file that no file of the next level overlaps goes there as it is. What stays at its level is
      newer. */
  ghost predicate MoveStep(a: Db, level: nat, f: File, b: Db) {
    && level + 1 < NUM_LEVELS && |a.version| == NUM_LEVELS == |b.version| && ValidVersion(b.version)
    && f in a.version[level] && (forall g :: g in a.version[level] && g.number == f.number ==> g == f)
    && (forall g, e :: g in a.version[level + 1] && e in f.entries ==> !g.CoversUser(e.key.user))
    && LeftIsNewer(a.version[level], {f.number}, f.entries)
    && b == a.(version := b.version)
    && (forall l :: 0 <= l < NUM_LEVELS && l != level && l != level + 1 ==> b.version[l] == a.version[l])
    && b.version[level] == Without(a.version[level], {f.number})
    && UnionOf(b.version[level + 1], a.version[level + 1], [f])
  }

  ghost predicate StepOk(a: Db, step: Step, b: Db) {
    match step
    case Write(batch) => WriteStep(a, batch, b)
    case TakeSnapshot => b == a.(snapshots := a.snapshots + {a.last})
    case ReleaseSnapshot(s) => b == a.(snapshots := a.snapshots - {s})
    case Flush(level, f) => FlushStep(a, level, f, b)
    case Move(level, f) => MoveStep(a, level, f, b)
    case Compact(level, gone0, gone1, input, snapshot, outs) =>
      CompactStep(a, level, gone0, gone1, input, snapshot, outs, b)
  }

  /** A compaction whose next level is closed too; every other step is. */
  ghost predicate Closed(a: Db, step: Step) {
    step.Compact? ==>
      step.clevel + 1 < |a.version| && LeftIsNewer(a.version[step.clevel + 1], step.gone1, step.input)
  }

  lemma InLevel(v: Version, l: nat)
    requires l < |v|
    ensures FilesContents(v[l]) <= LevelsContents(v)
  {
  }

  lemma LevelOf(v: Version, e: Entry) returns (l: nat)
    requires e in LevelsContents(v)
    ensures l < |v| && e in FilesContents(v[l])
  {
    var fs :| fs in v && e in FilesContents(fs);
    l :| 0 <= l < |v| && v[l] == fs;
  }

  lemma FilesSplit(files: Level, gone: set<nat>)
    ensures FilesContents(files) == FilesContents(Without(files, gone)) + FilesContents(Only(files, gone))
  {
    WithoutOnly(files, gone);
  }

  lemma FilesUnion(files: Level, xs: Level, ys: Level)
    requires UnionOf(files, xs, ys)
    ensures FilesContents(files) == FilesContents(xs) + FilesContents(ys)
  {
  }

  /** The entries no compaction step touches. */
  ghost function Rest(a: Db, level: nat, gone0: set<nat>, gone1: set<nat>): set<Entry>
    requires level + 1 < |a.version|
  {
    a.mem + LevelsContents(a.version[..level]) + LevelsContents(a.version[level + 2..])
      + FilesContents(Without(a.version[level], gone0)) + FilesContents(Without(a.version[level + 1], gone1))
  }

  lemma LevelsSplit(v: Version, level: nat)
    requires level + 1 < |v|
    ensures LevelsContents(v) ==
            LevelsContents(v[..level]) + FilesContents(v[level]) + FilesContents(v[level + 1])
            + LevelsContents(v[level + 2..])
  {
    assert v == v[..level] + [v[level], v[level + 1]] + v[level + 2..];
  }

  lemma CompactContents(a: Db, level: nat, gone0: set<nat>, gone1: set<nat>, input: seq<Entry>, snapshot: nat,
                        outs: seq<File>, b: Db)
    requires CompactStep(a, level, gone0, gone1, input, snapshot, outs, b)
    ensures a.All() == Rest(a, level, gone0, gone1) + Contents(input)
    ensures b.All() == Rest(a, level, gone0, gone1) + Kept(input, snapshot, a.version, level)
    ensures FilesContents(b.version[level + 1]) ==
              FilesContents(Without(a.version[level + 1], gone1)) + Kept(input, snapshot, a.version, level)
  {
    hide ValidVersion, Sorted, Kept, LeftIsNewer, LevelsContents, FilesContents;
    FilesUnion(b.version[level + 1], Without(a.version[level + 1], gone1), outs);
    LevelsSplit(a.version, level);
    LevelsSplit(b.version, level);
    FilesSplit(a.version[level], gone0);
    FilesSplit(a.version[level + 1], gone1);
    assert a.version[..level] == b.version[..level] && a.version[level + 2..] == b.version[level + 2..];
  }

  lemma KeptIsInput(input: seq<Entry>, snapshot: nat, v: Version, level: nat)
    ensures Kept(input, snapshot, v, level) <= Contents(input)
  {
    InKept(input, snapshot, v, level);
  }

  lemma MemberCovers(v: Version, l: nat, f: File, e: Entry)
    requires ValidVersion(v) && l < |v| && f in v[l] && e in f.entries
    ensures f.CoversUser(e.key.user)
  {
    var i :| 0 <= i < |v[l]| && v[l][i] == f;
    InValidFile(v[l][i], e);
  }

  lemma DeepIsCovered(v: Version, from: nat, e: Entry)
    requires ValidVersion(v) && 1 <= from <= |v| && e in LevelsContents(v[from..])
    ensures CoveredFrom(v, from, e.key.user)
  {
    var l := LevelOf(v[from..], e);
    var f :| f in v[from + l] && e in f.entries;
    var i :| 0 <= i < |v[from + l]| && v[from + l][i] == f;
    MemberCovers(v, from + l, f, e);
    assert v[from + l][i].CoversUser(e.key.user);
  }

  /** With closed inputs, whatever is older than an input entry lies deeper, where a file covers its key. */
  lemma ClosedUnexposed(a: Db, level: nat, gone0: set<nat>, gone1: set<nat>, input: seq<Entry>, snapshot: nat,
                        outs: seq<File>, b: Db, k: UserKey)
    requires Inv(a) && CompactStep(a, level, gone0, gone1, input, snapshot, outs, b)
    requires LeftIsNewer(a.version[level + 1], gone1, input)
    ensures !Exposed(Rest(a, level, gone0, gone1), input, snapshot, a.version, level, k)
  {
    hide ValidVersion, Sorted, Kept, UniqueSequences, LevelOrdered, LevelZeroOrdered, LevelsContents, FilesContents;
    var rest := Rest(a, level, gone0, gone1);
    if Exposed(rest, input, snapshot, a.version, level, k) {
      var j: nat, e :| FirstVisible(input, j, k, snapshot) && Newest(rest, k, snapshot, e)
        && e.key.sequence < input[j].key.sequence;
      assert FirstVisible(input, j, k, snapshot) && Newest(rest, k, snapshot, e);
      FilesSplit(a.version[level], gone0);
      FilesSplit(a.version[level + 1], gone1);
      assert input[j] in Contents(input);
      ShallowIsNewer(a, level, input[j], e);
      DeepIsCovered(a.version, level + 2, e);
    }
  }

  lemma ShallowIsNewer(a: Db, level: nat, x: Entry, e: Entry)
    requires Inv(a) && level + 1 < |a.version| && x.key.user == e.key.user
    requires x in FilesContents(a.version[level]) + FilesContents(a.version[level + 1])
    ensures e in a.mem ==> e.key.sequence > x.key.sequence
    ensures e in LevelsContents(a.version[..level]) ==> e.key.sequence > x.key.sequence
  {
    if e in LevelsContents(a.version[..level]) {
      var l := LevelOf(a.version[..level], e);
      assert NewerThan(FilesContents(a.version[l]), FilesContents(a.version[level]));
      assert NewerThan(FilesContents(a.version[l]), FilesContents(a.version[level + 1]));
    }
  }

  lemma CompactPreservesReads(a: Db, level: nat, gone0: set<nat>, gone1: set<nat>, input: seq<Entry>, snapshot: nat,
                              outs: seq<File>, b: Db, k: UserKey, s: nat)
    requires Inv(a) && CompactStep(a, level, gone0, gone1, input, snapshot, outs, b) && snapshot <= s
    requires LeftIsNewer(a.version[level + 1], gone1, input)
    ensures Read(a.All(), k, s) == Read(b.All(), k, s)
  {
    CompactContents(a, level, gone0, gone1, input, snapshot, outs, b);
    ClosedUnexposed(a, level, gone0, gone1, input, snapshot, outs, b, k);
    UnexposedAgrees(Rest(a, level, gone0, gone1), input, snapshot, a.version, level, k, s);
  }

  /** With closed inputs or without: a compaction keeps every read at or above its snapshot exactly when no key is
      exposed. */
  lemma CompactPreservesReadsIff(a: Db, level: nat, gone0: set<nat>, gone1: set<nat>, input: seq<Entry>, snapshot: nat,
                                 outs: seq<File>, b: Db)
    requires Inv(a) && CompactStep(a, level, gone0, gone1, input, snapshot, outs, b)
    ensures (forall k, s :: snapshot <= s ==> Read(a.All(), k, s) == Read(b.All(), k, s))
       <==> (forall k :: !Exposed(Rest(a, level, gone0, gone1), input, snapshot, a.version, level, k))
  {
    CompactContents(a, level, gone0, gone1, input, snapshot, outs, b);
    CompactionPreservesReadsIff(Rest(a, level, gone0, gone1), input, snapshot, a.version, level);
  }

  lemma NewerParts(a: set<Entry>, b: set<Entry>, a': set<Entry>, b': set<Entry>)
    requires NewerThan(a, b) && a' <= a && b' <= b
    ensures NewerThan(a', b')
  {
  }

  lemma NewerUnion(a: set<Entry>, b: set<Entry>, c: set<Entry>)
    ensures NewerThan(a, b + c) <==> NewerThan(a, b) && NewerThan(a, c)
    ensures NewerThan(a + b, c) <==> NewerThan(a, c) && NewerThan(b, c)
  {
  }

  /** What the compaction does to the two levels: the upper one loses files, the lower one gets kept entries. */
  lemma CompactLevels(a: Db, level: nat, gone0: set<nat>, gone1: set<nat>, input: seq<Entry>, snapshot: nat,
                      outs: seq<File>, b: Db)
    requires CompactStep(a, level, gone0, gone1, input, snapshot, outs, b)
    ensures FilesContents(b.version[level]) <= FilesContents(a.version[level])
    ensures FilesContents(b.version[level + 1]) <= FilesContents(a.version[level]) + FilesContents(a.version[level + 1])
    ensures var kept := Kept(input, snapshot, a.version, level);
            FilesContents(b.version[level + 1]) <= FilesContents(a.version[level + 1]) + kept
              && kept <= Contents(input)
  {
    hide ValidVersion, Sorted, Kept, FilesContents, LevelsContents, NewerThan;
    CompactContents(a, level, gone0, gone1, input, snapshot, outs, b);
    KeptIsInput(input, snapshot, a.version, level);
    FilesSplit(a.version[level], gone0);
    FilesSplit(a.version[level + 1], gone1);
  }

  lemma CompactKeepsLevelOrder(a: Db, level: nat, gone0: set<nat>, gone1: set<nat>, input: seq<Entry>, snapshot: nat,
                               outs: seq<File>, b: Db, l: nat, m: nat)
    requires Inv(a) && CompactStep(a, level, gone0, gone1, input, snapshot, outs, b) && l < m < |b.version|
    ensures NewerThan(FilesContents(b.version[l]), FilesContents(b.version[m]))
  {
    hide ValidVersion, Sorted, FilesContents, LevelsContents, UniqueSequences, LevelZeroOrdered, NewerThan;
    var upper, lower := FilesContents(a.version[level]), FilesContents(a.version[level + 1]);
    var bl, bm := FilesContents(b.version[l]), FilesContents(b.version[m]);
    CompactLevels(a, level, gone0, gone1, input, snapshot, outs, b);
    assert NewerThan(FilesContents(a.version[l]), FilesContents(a.version[m]));
    if l == level && m == level + 1 {
      var kept := Kept(input, snapshot, a.version, level);
      NewerParts(upper, lower, bl, lower);
      NewerParts(bl, Contents(input), bl, kept);
      NewerUnion(bl, lower, kept);
      NewerParts(bl, lower + kept, bl, bm);
    } else if m == level + 1 {
      assert NewerThan(FilesContents(a.version[l]), upper);
      NewerUnion(bl, upper, lower);
      NewerParts(bl, upper + lower, bl, bm);
    } else if l == level + 1 {
      assert NewerThan(upper, FilesContents(a.version[m]));
      NewerUnion(upper, lower, bm);
      NewerParts(upper + lower, bm, bl, bm);
    } else {
      NewerParts(FilesContents(a.version[l]), FilesContents(a.version[m]), bl, bm);
    }
  }

  lemma CompactKeepsMemNewer(a: Db, level: nat, gone0: set<nat>, gone1: set<nat>, input: seq<Entry>, snapshot: nat,
                             outs: seq<File>, b: Db, l: nat)
    requires Inv(a) && CompactStep(a, level, gone0, gone1, input, snapshot, outs, b) && l < |b.version|
    ensures NewerThan(b.mem, FilesContents(b.version[l]))
  {
    hide ValidVersion, Sorted, Kept, FilesContents, LevelsContents, UniqueSequences, LevelOrdered, LevelZeroOrdered,
         LeftIsNewer, NewerThan;
    CompactLevels(a, level, gone0, gone1, input, snapshot, outs, b);
    var upper, own := FilesContents(a.version[level]), FilesContents(a.version[l]);
    assert NewerThan(a.mem, own) && NewerThan(a.mem, upper);
    NewerUnion(a.mem, upper, own);
    NewerParts(a.mem, upper + own, b.mem, FilesContents(b.version[l]));
  }

  lemma CompactKeepsInv(a: Db, level: nat, gone0: set<nat>, gone1: set<nat>, input: seq<Entry>, snapshot: nat,
                        outs: seq<File>, b: Db)
    requires Inv(a) && CompactStep(a, level, gone0, gone1, input, snapshot, outs, b)
    ensures Inv(b)
  {
    hide ValidVersion, Sorted, Kept, LevelsContents, FilesContents, Only, Without, LeftIsNewer, NewerThan;
    CompactContents(a, level, gone0, gone1, input, snapshot, outs, b);
    KeptIsInput(input, snapshot, a.version, level);
    assert b.All() <= a.All();
    forall l, m | 0 <= l < m < |b.version|
      ensures NewerThan(FilesContents(b.version[l]), FilesContents(b.version[m]))
    {
      CompactKeepsLevelOrder(a, level, gone0, gone1, input, snapshot, outs, b, l, m);
    }
    forall l | 0 <= l < |b.version|
      ensures NewerThan(b.mem, FilesContents(b.version[l]))
    {
      CompactKeepsMemNewer(a, level, gone0, gone1, input, snapshot, outs, b, l);
    }
    WithoutOnly(a.version[level], gone0);
  }

  lemma FlushContents(a: Db, level: nat, f: File, b: Db)
    requires Inv(a) && FlushStep(a, level, f, b)
    ensures b.All() == a.All()
    ensures FilesContents(b.version[level]) == FilesContents(a.version[level]) + Contents(f.entries)
  {
    assert FilesContents(b.version[level]) == FilesContents(a.version[level]) + Contents(f.entries);
    forall e | e in LevelsContents(b.version) ensures e in a.All() {
      var l := LevelOf(b.version, e);
      InLevel(a.version, l);
    }
    forall e | e in LevelsContents(a.version) ensures e in LevelsContents(b.version) {
      var l := LevelOf(a.version, e);
      InLevel(b.version, l);
    }
    InLevel(b.version, level);
  }

  lemma FlushKeepsLevelOrder(a: Db, level: nat, f: File, b: Db, l: nat, m: nat)
    requires Inv(a) && FlushStep(a, level, f, b) && l < m < |b.version|
    ensures NewerThan(FilesContents(b.version[l]), FilesContents(b.version[m]))
  {
    hide ValidVersion, LevelsContents, UniqueSequences, LevelZeroOrdered, Db.All;
    FlushContents(a, level, f, b);
    assert NewerThan(FilesContents(a.version[l]), FilesContents(a.version[m]));
    assert NewerThan(a.mem, FilesContents(a.version[m]));
    if m == level {
      forall x, y | x in FilesContents(a.version[l]) && y in Contents(f.entries) && x.key.user == y.key.user
        ensures false
      {
        var g :| g in a.version[l] && x in g.entries;
        MemberCovers(a.version, l, g, x);
      }
    }
  }

  lemma FlushKeepsInv(a: Db, level: nat, f: File, b: Db)
    requires Inv(a) && FlushStep(a, level, f, b)
    ensures Inv(b)
  {
    hide ValidVersion, LevelsContents, UniqueSequences, LevelZeroOrdered, FilesContents;
    FlushContents(a, level, f, b);
    forall l, m | 0 <= l < m < |b.version|
      ensures NewerThan(FilesContents(b.version[l]), FilesContents(b.version[m]))
    {
      FlushKeepsLevelOrder(a, level, f, b, l, m);
    }
    forall l | 0 <= l < |b.version|
      ensures NewerThan(b.mem, FilesContents(b.version[l]))
    {
      assert NewerThan(a.mem, FilesContents(a.version[l]));
    }
    FlushKeepsLevelZero(a, level, f, b);
  }

  lemma FlushKeepsLevelZero(a: Db, level: nat, f: File, b: Db)
    requires Inv(a) && FlushStep(a, level, f, b)
    ensures LevelZeroOrdered(b.version[0])
  {
    hide ValidVersion, LevelsContents, UniqueSequences, LevelOrdered;
    if level == 0 {
      forall g | g in a.version[0] ensures NewerThan(Contents(f.entries), Contents(g.entries)) {
        assert NewerThan(a.mem, FilesContents(a.version[0]));
      }
    }
  }

  /** What the move does to the two levels. */
  lemma MoveLevels(a: Db, level: nat, f: File, b: Db)
    requires MoveStep(a, level, f, b)
    ensures FilesContents(a.version[level]) == FilesContents(b.version[level]) + Contents(f.entries)
    ensures FilesContents(b.version[level + 1]) == FilesContents(a.version[level + 1]) + Contents(f.entries)
  {
    hide ValidVersion, NewerThan;
    WithoutOnly(a.version[level], {f.number});
    FilesUnion(b.version[level + 1], a.version[level + 1], [f]);
    assert FilesContents([f]) == Contents(f.entries) by { assert f in [f]; }
  }

  lemma MoveContents(a: Db, level: nat, f: File, b: Db)
    requires MoveStep(a, level, f, b)
    ensures b.All() == a.All()
  {
    hide ValidVersion, NewerThan, LevelsContents, FilesContents, UnionOf, Contents;
    MoveLevels(a, level, f, b);
    LevelsSplit(a.version, level);
    LevelsSplit(b.version, level);
    assert a.version[..level] == b.version[..level] && a.version[level + 2..] == b.version[level + 2..];
  }

  lemma MoveKeepsLevelOrder(a: Db, level: nat, f: File, b: Db, l: nat, m: nat)
    requires Inv(a) && MoveStep(a, level, f, b) && l < m < |b.version|
    ensures NewerThan(FilesContents(b.version[l]), FilesContents(b.version[m]))
  {
    hide ValidVersion, LevelsContents, FilesContents, UniqueSequences, LevelZeroOrdered, Db.All, UnionOf, Contents;
    MoveLevels(a, level, f, b);
    assert NewerThan(FilesContents(a.version[l]), FilesContents(a.version[m]));
    if l == level + 1 {
      assert NewerThan(FilesContents(a.version[level]), FilesContents(a.version[m]));
    }
    if m == level + 1 && l < level {
      assert NewerThan(FilesContents(a.version[l]), FilesContents(a.version[level]));
    }
  }

  lemma MoveKeepsInv(a: Db, level: nat, f: File, b: Db)
    requires Inv(a) && MoveStep(a, level, f, b)
    ensures Inv(b)
  {
    hide ValidVersion, LevelsContents, FilesContents, Without, UniqueSequences, UnionOf, Contents;
    MoveContents(a, level, f, b);
    MoveLevels(a, level, f, b);
    forall l, m | 0 <= l < m < |b.version|
      ensures NewerThan(FilesContents(b.version[l]), FilesContents(b.version[m]))
    {
      MoveKeepsLevelOrder(a, level, f, b, l, m);
    }
    forall l | 0 <= l < |b.version|
      ensures NewerThan(b.mem, FilesContents(b.version[l]))
    {
      assert NewerThan(a.mem, FilesContents(a.version[l]));
      assert NewerThan(a.mem, FilesContents(a.version[level]));
    }
    WithoutOnly(a.version[level], {f.number});
  }

  lemma WriteReads(a: Db, batch: set<Entry>, b: Db, k: UserKey, s: nat)
    requires Inv(a) && WriteStep(a, batch, b) && s <= a.last
    ensures Inv(b)
    ensures Read(a.All(), k, s) == Read(b.All(), k, s)
  {
    assert b.All() == a.All() + batch;
    forall l | 0 <= l < |b.version|
      ensures NewerThan(b.mem, FilesContents(b.version[l]))
    {
      InLevel(a.version, l);
      assert NewerThan(a.mem, FilesContents(a.version[l]));
    }
    assert UniqueSequences(b.All());
    NewestExists(a.All(), k, s);
    if Absent(a.All(), k, s) {
      ReadAbsent(a.All(), k, s);
      ReadAbsent(b.All(), k, s);
    } else {
      var e :| Newest(a.All(), k, s, e);
      assert Newest(b.All(), k, s, e);
      ReadNewest(a.All(), k, s, e);
      ReadNewest(b.All(), k, s, e);
    }
  }

  lemma SnapshotKeeps(a: Db, b: Db)
    requires Inv(a) && b == a.(snapshots := b.snapshots) && b.snapshots <= a.snapshots + {a.last}
    ensures Inv(b) && b.All() == a.All()
  {
  }

  /** A compaction with closed inputs keeps the answers of every live snapshot. */
  lemma CompactKeepsAnswers(a: Db, step: Step, b: Db, k: UserKey, s: nat)
    requires Inv(a) && step.Compact? && StepOk(a, step, b) && s in a.snapshots && Closed(a, step)
    ensures Read(a.All(), k, s) == Read(b.All(), k, s)
  {
    assert step.snapshot <= s;
    hide Inv, CompactStep, Db.All, LeftIsNewer;
    CompactPreservesReads(a, step.clevel, step.gone0, step.gone1, step.input, step.snapshot, step.outs, b, k, s);
  }

  lemma StepKeeps(a: Db, step: Step, b: Db, k: UserKey, s: nat)
    requires Inv(a) && StepOk(a, step, b)
    ensures Inv(b)
    ensures s in a.snapshots && Closed(a, step) ==> Read(a.All(), k, s) == Read(b.All(), k, s)
  {
    assert s in a.snapshots ==> s <= a.last;
    hide Inv, Closed, WriteStep, FlushStep, MoveStep, CompactStep, Db.All;
    if step.Compact? && s in a.snapshots && Closed(a, step) {
      CompactKeepsAnswers(a, step, b, k, s);
    }
    match step
    case Write(batch) =>
      WriteReads(a, batch, b, k, if s <= a.last then s else a.last);
    case TakeSnapshot =>
      SnapshotKeeps(a, b);
    case ReleaseSnapshot(_) =>
      SnapshotKeeps(a, b);
    case Flush(level, f) =>
      FlushKeepsInv(a, level, f, b);
      FlushContents(a, level, f, b);
    case Move(level, f) =>
      MoveKeepsInv(a, level, f, b);
      MoveContents(a, level, f, b);
    case Compact(level, gone0, gone1, input, snapshot, outs) =>
      CompactKeepsInv(a, level, gone0, gone1, input, snapshot, outs, b);
  }

  ghost predicate Run(states: seq<Db>, steps: seq<Step>) {
    && |states| == |steps| + 1
    && forall i :: 0 <= i < |steps| ==> StepOk(states[i], steps[i], states[i + 1])
  }

  /** The invariant holds in every state of every run, and a snapshot that stays live keeps every answer while all
      compactions have closed inputs. */
  lemma {:induction false} SnapshotsAreStable(states: seq<Db>, steps: seq<Step>, n: nat, k: UserKey, s: nat)
    requires Run(states, steps) && Inv(states[0]) && n < |states|
    ensures Inv(states[n])
    ensures (forall i :: 0 <= i < n ==> s in states[i].snapshots && Closed(states[i], steps[i])) ==>
              Read(states[n].All(), k, s) == Read(states[0].All(), k, s)
  {
    hide Inv, StepOk, Closed;
    if n > 0 {
      SnapshotsAreStable(states, steps, n - 1, k, s);
      StepKeeps(states[n - 1], steps[n - 1], states[n], k, s);
    }
  }
}
