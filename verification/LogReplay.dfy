/** Recovery from the write-ahead log: after a crash at any byte, replay rebuilds the memtable of a prefix of the write
    groups. */
module LogReplay {
  import opened Words
  import opened Coding
  import opened Wrappers
  import opened WriteBatches
  import opened LogFormat
  import opened LogReader

  /** A write group as it was logged. */
  datatype Logged = Logged(start: nat, ops: seq<Op>) {
    predicate Valid() {
      && 0 < start < 0x1_0000_0000_0000_0000 && start + |ops| <= 0x1_0000_0000_0000_0000
      && WriteBatches.AllValid(ops) && |ops| < COUNT_MODULUS
    }

    function Bytes(): seq<Byte> { Rep(start, ops) }
  }

  ghost predicate AllGroups(groups: seq<Logged>) { forall i :: 0 <= i < |groups| ==> groups[i].Valid() }

  function Records(groups: seq<Logged>): (r: seq<seq<Byte>>)
    ensures |r| == |groups| && forall i :: 0 <= i < |r| ==> r[i] == groups[i].Bytes()
  {
    seq(|groups|, i requires 0 <= i < |groups| => groups[i].Bytes())
  }

  /** The memtable after the first `n` groups. */
  function Applied(groups: seq<Logged>, n: nat): seq<MemEntry>
    requires n <= |groups|
  {
    if n == 0 then [] else Applied(groups, n - 1) + Entries(groups[n - 1].start, groups[n - 1].ops)
  }

  /** The largest sequence number of the first `n` groups, or `least`. */
  function MaxSequence(groups: seq<Logged>, n: nat, least: nat): nat
    requires n <= |groups|
  {
    if n == 0 then least
    else
      var m, g := MaxSequence(groups, n - 1, least), groups[n - 1];
      if g.start + |g.ops| - 1 > m then g.start + |g.ops| - 1 else m
  }

  /** One record of the loop in RecoverLogFile; errors of a batch are ignored, as without paranoid checks. */
  method ReplayRecord(record: seq<Byte>, mem: seq<MemEntry>, maxSequence: nat)
    returns (mem': seq<MemEntry>, maxSequence': nat, corrupt: nat)
    ensures mem' == mem + RowsOf(record) && maxSequence' == MaxWith(record, maxSequence)
    ensures corrupt == if |record| < HEADER then 1 else 0
  {
    hide DecodeFixed32, LastSequence, Entries;
    mem', maxSequence', corrupt := mem, maxSequence, 0;
    if |record| < HEADER {
      corrupt := 1;
      assert mem + [] == mem;
      return;
    }
    var ops, ok := Iterate(record);
    var start, count := ReadFixed(record, 0, 8), DecodeFixed32(record, 8);
    mem' := mem + Entries(start, ops);
    var last := LastSequence(start, count);
    if last > maxSequence {
      maxSequence' := last;
    }
  }

  /** The rows of a record's updates up to the first malformed one; none if it is too short for a header. */
  function RowsOf(record: seq<Byte>): seq<MemEntry> {
    if |record| < HEADER then [] else Entries(ReadFixed(record, 0, 8), Parse(record, HEADER).ops)
  }

  /** The last sequence number of a record, if it is larger. */
  function MaxWith(record: seq<Byte>, least: nat): nat {
    if |record| < HEADER then least
    else
      var last := LastSequence(ReadFixed(record, 0, 8), DecodeFixed32(record, 8));
      if last > least then last else least
  }

  function MaxOf(records: seq<seq<Byte>>, n: nat, least: nat): nat
    requires n <= |records|
  {
    if n == 0 then least else MaxWith(records[n - 1], MaxOf(records, n - 1, least))
  }

  function AllRows(records: seq<seq<Byte>>, n: nat): seq<MemEntry>
    requires n <= |records|
  {
    if n == 0 then [] else AllRows(records, n - 1) + RowsOf(records[n - 1])
  }

  function TooShort(records: seq<seq<Byte>>, n: nat): nat
    requires n <= |records|
  {
    if n == 0 then 0 else TooShort(records, n - 1) + if |records[n - 1]| < HEADER then 1 else 0
  }

  /** sequence + count - 1 in 64 bits. */
  function LastSequence(start: nat, count: nat): nat {
    (start + count + 0xFFFF_FFFF_FFFF_FFFF) % 0x1_0000_0000_0000_0000
  }

  lemma RecordParts(group: Logged)
    requires group.Valid()
    ensures var record := group.Bytes();
            && Parse(record, HEADER).ops == group.ops && ReadFixed(record, 0, 8) == group.start
            && LastSequence(ReadFixed(record, 0, 8), DecodeFixed32(record, 8)) == group.start + |group.ops| - 1
  {
    FrameParts(group.start, |group.ops|, OpsBytes(group.ops));
    RepRoundTrip(group.start, group.ops);
    hide Frame, DecodeFixed32, Coding.At;
    Wrapped(group.start, |group.ops|);
  }

  /** A group's record holds its rows. */
  lemma RecordIs(group: Logged, least: nat)
    requires group.Valid()
    ensures |group.Bytes()| >= HEADER && RowsOf(group.Bytes()) == Entries(group.start, group.ops)
    ensures var last := group.start + |group.ops| - 1;
            MaxWith(group.Bytes(), least) == if last > least then last else least
  {
    RecordParts(group);
    HasHeader(group);
    hide Logged.Valid, Logged.Bytes, DecodeFixed32, LastSequence, Entries;
  }

  lemma HasHeader(group: Logged)
    ensures |group.Bytes()| >= HEADER
  {
  }

  lemma {:induction false} RecordsAre(records: seq<seq<Byte>>, groups: seq<Logged>, n: nat, least: nat)
    requires FromGroups(records, groups) && n <= |records|
    ensures AllRows(records, n) == Applied(groups, n) && TooShort(records, n) == 0
    ensures MaxOf(records, n, least) == MaxSequence(groups, n, least)
  {
    hide RowsOf, MaxWith, Logged.Bytes, Entries, Logged.Valid;
    if n > 0 {
      RecordsAre(records, groups, n - 1, least);
      RecordIs(groups[n - 1], MaxOf(records, n - 1, least));
    }
  }

  lemma Wrapped(start: nat, count: nat)
    requires 0 < start && start + count <= 0x1_0000_0000_0000_0000
    ensures LastSequence(start, count) == start + count - 1
  {
  }

  /** The records are those of the first groups. */
  ghost predicate FromGroups(records: seq<seq<Byte>>, groups: seq<Logged>) {
    AllGroups(groups) && |records| <= |groups| && forall i :: 0 <= i < |records| ==> records[i] == groups[i].Bytes()
  }

  /** The level-0 tables written during replay, one after another. */
  function Joined(tables: seq<seq<MemEntry>>): seq<MemEntry> {
    if |tables| == 0 then [] else Joined(tables[..|tables| - 1]) + tables[|tables| - 1]
  }

  lemma JoinedSnoc(tables: seq<seq<MemEntry>>, t: seq<MemEntry>)
    ensures Joined(tables + [t]) == Joined(tables) + t
  {
    assert (tables + [t])[..|tables|] == tables;
  }

  /** The updates of groups `a` up to, not including, `b`. */
  function Span(groups: seq<Logged>, a: nat, b: nat): seq<MemEntry>
    requires a <= b <= |groups|
  {
    if a == b then [] else Span(groups, a, b - 1) + Entries(groups[b - 1].start, groups[b - 1].ops)
  }

  /** When a memtable is full. */
  datatype Room = Room(usage: seq<MemEntry> -> nat, limit: nat) {
    predicate Full(rows: seq<MemEntry>) { usage(rows) > limit }
  }

  /** The rows of groups `a` to `b`, which were not full before the last of them. */
  ghost predicate JustFull(room: Room, groups: seq<Logged>, a: nat, b: nat, rows: seq<MemEntry>) {
    a < b <= |groups| && rows == Span(groups, a, b) && forall j :: a < j < b ==> !room.Full(Span(groups, a, j))
  }

  /** Each table holds the groups between two cuts, and all but the last table are full. */
  ghost predicate CutRight(room: Room, groups: seq<Logged>, tables: seq<seq<MemEntry>>, cuts: seq<nat>, n: nat) {
    && |cuts| == |tables| + 1 && cuts[0] == 0 && cuts[|tables|] == n
    && (forall i :: 0 <= i < |tables| ==> JustFull(room, groups, cuts[i], cuts[i + 1], tables[i]))
    && (forall i :: 0 <= i < |tables| - 1 ==> room.Full(tables[i]))
  }

  /** The tables written so far are full, and the memtable holds the groups since. */
  ghost predicate CutSoFar(room: Room, groups: seq<Logged>, tables: seq<seq<MemEntry>>, cuts: seq<nat>,
                           mem: Option<seq<MemEntry>>, n: nat) {
    && |cuts| == |tables| + 1 && cuts[|tables|] <= n <= |groups|
    && CutRight(room, groups, tables, cuts, cuts[|tables|]) && (forall i :: 0 <= i < |tables| ==> room.Full(tables[i]))
    && (mem.None? <==> cuts[|tables|] == n)
    && (mem.Some? ==> JustFull(room, groups, cuts[|tables|], n, mem.value) && !room.Full(mem.value))
  }

  lemma NothingCut(room: Room, groups: seq<Logged>)
    ensures CutSoFar(room, groups, [], [0], None, 0)
  {
  }

  /** One more group in the memtable. */
  lemma CutMore(room: Room, groups: seq<Logged>, tables: seq<seq<MemEntry>>, cuts: seq<nat>,
                mem: Option<seq<MemEntry>>, n: nat, rows: seq<MemEntry>)
    requires CutSoFar(room, groups, tables, cuts, mem, n) && n < |groups|
    requires rows == Rows(mem) + Entries(groups[n].start, groups[n].ops)
    ensures JustFull(room, groups, cuts[|tables|], n + 1, rows)
    ensures if room.Full(rows) then CutSoFar(room, groups, tables + [rows], cuts + [n + 1], None, n + 1)
            else CutSoFar(room, groups, tables, cuts, Some(rows), n + 1)
  {
    hide Entries, Room.Full;
    var c := cuts[|tables|];
    assert Rows(mem) == Span(groups, c, n);
    assert JustFull(room, groups, c, n + 1, rows);
    if room.Full(rows) { CutTable(room, groups, tables, cuts, n + 1, rows); }
  }

  lemma CutTable(room: Room, groups: seq<Logged>, tables: seq<seq<MemEntry>>, cuts: seq<nat>, n: nat,
                 rows: seq<MemEntry>)
    requires |cuts| == |tables| + 1 && CutRight(room, groups, tables, cuts, cuts[|tables|])
    requires (forall i :: 0 <= i < |tables| ==> room.Full(tables[i]))
    requires JustFull(room, groups, cuts[|tables|], n, rows)
    ensures CutRight(room, groups, tables + [rows], cuts + [n], n)
  {
    hide JustFull, Room.Full;
    var ts, cs := tables + [rows], cuts + [n];
    forall i | 0 <= i < |ts| ensures JustFull(room, groups, cs[i], cs[i + 1], ts[i]) {
      if i < |tables| { assert cs[i] == cuts[i] && cs[i + 1] == cuts[i + 1] && ts[i] == tables[i]; }
    }
  }

  /** The loop over the records: a memtable that grows past the write buffer goes to a level-0 table at once, and what
      is left at the end goes to one too. */
  method ReplayAll(records: seq<seq<Byte>>, maxSequence0: nat, usage: seq<MemEntry> -> nat, writeBufferSize: nat,
                   ghost groups: seq<Logged>)
    returns (tables: seq<seq<MemEntry>>, maxSequence: nat, corrupt: nat, ghost cuts: seq<nat>)
    ensures Joined(tables) == AllRows(records, |records|) && corrupt == TooShort(records, |records|)
    ensures maxSequence == MaxOf(records, |records|, maxSequence0)
    ensures FromGroups(records, groups) ==>
              CutRight(Room(usage, writeBufferSize), groups, tables, cuts, |records|)
  {
    NoRows(records, maxSequence0);
    hide Logged.Bytes, Logged.Valid, CutSoFar, CutRight, JustFull, RowsOf, MaxWith, Entries, Joined, Room.Full, AllRows,
         TooShort, MaxOf;
    ghost var good := FromGroups(records, groups);
    var room := Room(usage, writeBufferSize);
    cuts := [0];
    NothingCut(room, groups);
    var mem: Option<seq<MemEntry>> := None;
    tables, maxSequence, corrupt := [], maxSequence0, 0;
    for i := 0 to |records|
      invariant good ==> CutSoFar(room, groups, tables, cuts, mem, i)
      invariant Joined(tables) + Rows(mem) == AllRows(records, i) && corrupt == TooShort(records, i)
      invariant maxSequence == MaxOf(records, i, maxSequence0)
    {
      var c, rows;
      rows, maxSequence, c := ReplayRecord(records[i], Rows(mem), maxSequence);
      corrupt := corrupt + c;
      MoreRows(Joined(tables), mem, records, i, maxSequence0);
      if good {
        RecordIs(groups[i], 0);
        CutMore(room, groups, tables, cuts, mem, i, rows);
      }
      if |records[i]| >= HEADER {
        tables, mem, cuts := WriteIfFull(tables, rows, cuts, i + 1, room);
      }
    }
    if good { CutEnds(room, groups, tables, cuts, mem, |records|); }
    TableOfRest(tables, mem);
    if mem.Some? {
      tables, cuts := tables + [mem.value], cuts + [|records|];
    }
  }

  /** A memtable that is full goes to a table. */
  method WriteIfFull(tables0: seq<seq<MemEntry>>, rows: seq<MemEntry>, ghost cuts0: seq<nat>, ghost n: nat, room: Room)
    returns (tables: seq<seq<MemEntry>>, mem: Option<seq<MemEntry>>, ghost cuts: seq<nat>)
    ensures if room.Full(rows) then tables == tables0 + [rows] && mem == None && cuts == cuts0 + [n]
            else tables == tables0 && mem == Some(rows) && cuts == cuts0
    ensures Joined(tables) + Rows(mem) == Joined(tables0) + rows
  {
    if room.usage(rows) > room.limit {
      JoinedSnoc(tables0, rows);
      tables, mem, cuts := tables0 + [rows], None, cuts0 + [n];
      assert Joined(tables) + [] == Joined(tables);
    } else {
      tables, mem, cuts := tables0, Some(rows), cuts0;
    }
  }

  lemma TableOfRest(tables: seq<seq<MemEntry>>, mem: Option<seq<MemEntry>>)
    ensures Joined(tables) + Rows(mem) == if mem.Some? then Joined(tables + [mem.value]) else Joined(tables)
  {
    if mem.Some? { JoinedSnoc(tables, mem.value); }
    assert Joined(tables) + [] == Joined(tables);
  }

  lemma NoRows(records: seq<seq<Byte>>, least: nat)
    ensures Joined([]) + Rows(None) == AllRows(records, 0) && TooShort(records, 0) == 0
    ensures MaxOf(records, 0, least) == least
  {
  }

  lemma MoreRows(written: seq<MemEntry>, mem: Option<seq<MemEntry>>, records: seq<seq<Byte>>, i: nat, least: nat)
    requires i < |records| && written + Rows(mem) == AllRows(records, i)
    ensures written + (Rows(mem) + RowsOf(records[i])) == AllRows(records, i + 1)
    ensures |records[i]| < HEADER ==> written + Rows(mem) == AllRows(records, i + 1)
    ensures TooShort(records, i + 1) == TooShort(records, i) + if |records[i]| < HEADER then 1 else 0
    ensures MaxOf(records, i + 1, least) == MaxWith(records[i], MaxOf(records, i, least))
  {
    Assoc(written, Rows(mem), RowsOf(records[i]));
    assert |records[i]| < HEADER ==> Rows(mem) + RowsOf(records[i]) == Rows(mem);
  }

  lemma CutEnds(room: Room, groups: seq<Logged>, tables: seq<seq<MemEntry>>, cuts: seq<nat>,
                mem: Option<seq<MemEntry>>, n: nat)
    requires CutSoFar(room, groups, tables, cuts, mem, n)
    ensures if mem.Some? then CutRight(room, groups, tables + [mem.value], cuts + [n], n)
            else CutRight(room, groups, tables, cuts, n)
  {
    if mem.Some? { CutTable(room, groups, tables, cuts, n, mem.value); }
  }

  function Rows(mem: Option<seq<MemEntry>>): seq<MemEntry> { if mem.Some? then mem.value else [] }

  /** RecoverLogFile. Any file gives the rows of the records in it, and whatever is wrong with it is counted. A log of
      write groups cut at any byte gives back exactly the groups written completely, over the level-0 tables it leaves;
      a table ends as soon as its memtable is full, and not before. */
  method RecoverLogFile(crc: Crc, file: seq<Byte>, maxSequence0: nat, usage: seq<MemEntry> -> nat, writeBufferSize: nat,
                        ghost groups: seq<Logged>)
    returns (tables: seq<seq<MemEntry>>, maxSequence: nat, corrupt: nat, ghost cuts: seq<nat>)
    ensures var fs := Scan(crc, file, 0);
            var records := Assembled(fs);
            && Joined(tables) == AllRows(records, |records|) && corrupt == TooShort(records, |records|) + Reports(fs)
            && maxSequence == MaxOf(records, |records|, maxSequence0)
    ensures AllGroups(groups) && CutLog(crc, Records(groups), file) ==>
              var m := CompleteCount(crc, Records(groups), file, |groups|);
              CutRight(Room(usage, writeBufferSize), groups, tables, cuts, m)
    ensures AllGroups(groups) && CutLog(crc, Records(groups), file) ==>
              var m := CompleteCount(crc, Records(groups), file, |groups|);
              corrupt == 0 && Joined(tables) == Applied(groups, m)
                && maxSequence == MaxSequence(groups, m, maxSequence0)
  {
    hide Logged.Bytes, Logged.Valid, CutRight, AllRows, TooShort, MaxOf, Applied, MaxSequence, Joined, CompleteCount,
         Complete, Reports, Assembled, Scan;
    var records, reports := ReadAll(crc, file, Records(groups));
    if CutLog(crc, Records(groups), file) {
      CompleteCountIs(crc, Records(groups), file, |groups|, |records|);
      if AllGroups(groups) { RecordsAre(records, groups, |records|, maxSequence0); }
    }
    tables, maxSequence, corrupt, cuts := ReplayAll(records, maxSequence0, usage, writeBufferSize, groups);
    corrupt := corrupt + reports;
  }

  // ---- All logs ------------------------------------------------------------------------------------

  /** Log `i` as replay finds it: some groups, and a file cut from their records. */
  ghost predicate FoundLog(crc: Crc, groups: seq<Logged>, file: seq<Byte>) {
    AllGroups(groups) && CutLog(crc, Records(groups), file)
  }

  /** How many groups of a cut log are complete. */
  ghost function CompleteGroups(crc: Crc, groups: seq<Logged>, file: seq<Byte>): (m: nat)
    requires FoundLog(crc, groups, file)
    ensures m <= |groups|
  {
    CompleteCount(crc, Records(groups), file, |groups|)
  }

  ghost predicate AllFound(crc: Crc, logs: seq<seq<Logged>>, files: seq<seq<Byte>>) {
    |logs| == |files| && forall i :: 0 <= i < |logs| ==> FoundLog(crc, logs[i], files[i])
  }

  /** The tables written for the first logs hold their complete groups. */
  ghost predicate Rebuilt(crc: Crc, logs: seq<seq<Logged>>, files: seq<seq<Byte>>, tables: seq<seq<seq<MemEntry>>>)
    requires AllFound(crc, logs, files)
  {
    |tables| <= |logs| && forall i :: 0 <= i < |tables| ==>
      Joined(tables[i]) == Applied(logs[i], CompleteGroups(crc, logs[i], files[i]))
  }

  /** Every recovered row is at or below the sequence number the database goes on from. */
  ghost predicate Below(tables: seq<seq<seq<MemEntry>>>, maxSequence: nat) {
    forall i, e :: 0 <= i < |tables| && e in Joined(tables[i]) ==> e.sequence <= maxSequence
  }

  /** The largest sequence number of the complete groups of the first `n` logs. */
  ghost function MaxRecovered(crc: Crc, logs: seq<seq<Logged>>, files: seq<seq<Byte>>, n: nat): nat
    requires AllFound(crc, logs, files) && n <= |logs|
  {
    if n == 0 then 0
    else MaxSequence(logs[n - 1], CompleteGroups(crc, logs[n - 1], files[n - 1]), MaxRecovered(crc, logs, files, n - 1))
  }

  lemma {:induction false} AppliedBelow(groups: seq<Logged>, n: nat, least: nat)
    requires n <= |groups|
    ensures least <= MaxSequence(groups, n, least)
    ensures forall e :: e in Applied(groups, n) ==> e.sequence <= MaxSequence(groups, n, least)
  {
    if n > 0 { AppliedBelow(groups, n - 1, least); }
  }

  lemma OneMore(crc: Crc, logs: seq<seq<Logged>>, files: seq<seq<Byte>>, tables: seq<seq<seq<MemEntry>>>,
                one: seq<seq<MemEntry>>, before: nat, after: nat)
    requires AllFound(crc, logs, files) && Rebuilt(crc, logs, files, tables) && Below(tables, before)
    requires |tables| < |logs| && before <= after && forall e :: e in Joined(one) ==> e.sequence <= after
    requires var i := |tables|; Joined(one) == Applied(logs[i], CompleteGroups(crc, logs[i], files[i]))
    ensures Rebuilt(crc, logs, files, tables + [one]) && Below(tables + [one], after)
  {
    hide FoundLog, Joined, Applied, CompleteGroups;
  }

  /** The loop of DBImpl::Recover over the log files, in the order in which they were written. */
  method RecoverLogs(crc: Crc, files: seq<seq<Byte>>, usage: seq<MemEntry> -> nat, writeBufferSize: nat,
                     ghost logs: seq<seq<Logged>>)
    returns (tables: seq<seq<seq<MemEntry>>>, maxSequence: nat, corrupt: nat)
    ensures |tables| == |files|
    ensures AllFound(crc, logs, files) ==>
              && corrupt == 0 && Rebuilt(crc, logs, files, tables) && Below(tables, maxSequence)
              && maxSequence == MaxRecovered(crc, logs, files, |logs|)
  {
    hide FoundLog, Joined, CompleteGroups;
    tables, maxSequence, corrupt := [], 0, 0;
    ghost var good := AllFound(crc, logs, files);
    for i := 0 to |files|
      invariant |tables| == i
      invariant good ==> corrupt == 0 && Rebuilt(crc, logs, files, tables) && Below(tables, maxSequence)
      invariant good ==> maxSequence == MaxRecovered(crc, logs, files, i)
    {
      var one, c;
      ghost var before := maxSequence;
      ghost var groups := if good then logs[i] else [];
      one, maxSequence, c := RecoverOne(crc, files[i], maxSequence, usage, writeBufferSize, groups);
      if good { OneMore(crc, logs, files, tables, one, before, maxSequence); }
      hide Rebuilt, Below;
      tables, corrupt := tables + [one], corrupt + c;
    }
  }

  method RecoverOne(crc: Crc, file: seq<Byte>, maxSequence0: nat, usage: seq<MemEntry> -> nat, writeBufferSize: nat,
                    ghost groups: seq<Logged>)
    returns (tables: seq<seq<MemEntry>>, maxSequence: nat, corrupt: nat)
    ensures FoundLog(crc, groups, file) ==>
              && corrupt == 0 && Joined(tables) == Applied(groups, CompleteGroups(crc, groups, file))
              && maxSequence == MaxSequence(groups, CompleteGroups(crc, groups, file), maxSequence0) >= maxSequence0
              && forall e :: e in Joined(tables) ==> e.sequence <= maxSequence
  {
    hide CutLog, AllGroups;
    ghost var cuts;
    tables, maxSequence, corrupt, cuts := RecoverLogFile(crc, file, maxSequence0, usage, writeBufferSize, groups);
    if FoundLog(crc, groups, file) { AppliedBelow(groups, CompleteGroups(crc, groups, file), maxSequence0); }
  }
}
