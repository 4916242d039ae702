/** Group commit, log switches and replay together: no crash loses a sync write that succeeded. */
module CrashDurability {
  import opened Words
  import opened WriteBatches
  import opened LogFormat
  import opened LogReader
  import opened LogReplay
  import opened GroupCommit
  import opened LogSwitch

  /** The logged groups of the history, as replay sees them. */
  ghost function GroupsOf(h: seq<Served>, n: nat): seq<Logged>
    requires n <= |h|
  {
    if n == 0 then []
    else GroupsOf(h, n - 1) + if h[n - 1].logged then [Logged.Logged(h[n - 1].start, h[n - 1].ops)] else []
  }

  ghost function PhaseGroups(p: Phase): seq<Logged> {
    if |PhaseLog(p)| > 0 then [Logged.Logged(p.start, p.ops)] else []
  }

  ghost function LoggedGroups(s: State): seq<Logged> { GroupsOf(s.history, |s.history|) + PhaseGroups(s.phase) }

  ghost predicate Encodes(groups: seq<Logged>, log: seq<seq<Byte>>) {
    |groups| == |log| && forall i :: 0 <= i < |groups| ==> groups[i].Bytes() == log[i]
  }

  lemma EncodesConcat(a: seq<Logged>, b: seq<Logged>, x: seq<seq<Byte>>, y: seq<seq<Byte>>)
    requires Encodes(a, x) && Encodes(b, y)
    ensures Encodes(a + b, x + y)
  {
    hide Logged.Bytes;
    forall i | 0 <= i < |a + b| ensures (a + b)[i].Bytes() == (x + y)[i] {
      if i < |a| { assert a[i].Bytes() == x[i]; } else { assert b[i - |a|].Bytes() == y[i - |a|]; }
    }
  }

  lemma {:induction false} GroupsEncodeLog(h: seq<Served>, n: nat)
    requires n <= |h|
    ensures Encodes(GroupsOf(h, n), LogOf(h, n))
  {
    if n > 0 {
      GroupsEncodeLog(h, n - 1);
      hide Encodes;
      LastEncodes(h[n - 1]);
      EncodesConcat(GroupsOf(h, n - 1), if h[n - 1].logged then [Logged.Logged(h[n - 1].start, h[n - 1].ops)] else [],
                    LogOf(h, n - 1), RecordOf(h[n - 1]));
    }
  }

  lemma LastEncodes(g: Served)
    ensures Encodes(if g.logged then [Logged.Logged(g.start, g.ops)] else [], RecordOf(g))
  {
  }

  /** The log of a run is the log of its groups. */
  lemma LogIsRecords(s: State)
    requires GroupCommit.Inv(s)
    ensures Records(LoggedGroups(s)) == s.log
  {
    GroupsEncodeLog(s.history, |s.history|);
    assert Encodes(PhaseGroups(s.phase), PhaseLog(s.phase));
    EncodesConcat(GroupsOf(s.history, |s.history|), PhaseGroups(s.phase), LogOf(s.history, |s.history|),
                  PhaseLog(s.phase));
  }

  lemma {:induction false} GroupsPrefix(h: seq<Served>, i: nat, n: nat)
    requires i <= n <= |h|
    ensures GroupsOf(h, i) <= GroupsOf(h, n)
    decreases n
  {
    if i < n { GroupsPrefix(h, i, n - 1); }
  }

  /** Group `i` of the history has a sync writer and succeeded. */
  ghost predicate SyncServed(s: State, i: nat) {
    i < |s.history| && s.history[i].ok && s.history[i].logged && exists w :: w in s.history[i].members && w.sync
  }

  /** Its record is among the synced ones. */
  lemma SyncPosition(s: State, i: nat) returns (k: nat)
    requires GroupCommit.Inv(s) && SyncServed(s, i)
    ensures k < s.durable && k < |LoggedGroups(s)|
    ensures LoggedGroups(s)[k] == Logged.Logged(s.history[i].start, s.history[i].ops)
  {
    var h := s.history;
    assert GroupOk(h[i]) && Placed(s.base, h, i, s.durable);
    GroupsEncodeLog(h, i + 1);
    GroupsPrefix(h, i + 1, |h|);
    k := |GroupsOf(h, i + 1)| - 1;
    assert GroupsOf(h, i + 1)[k] == Logged.Logged(h[i].start, h[i].ops);
  }

  lemma {:induction false} AppliedHas(groups: seq<Logged>, m: nat, k: nat, e: MemEntry)
    requires k < m <= |groups| && e in Entries(groups[k].start, groups[k].ops)
    ensures e in Applied(groups, m)
  {
    hide Entries;
    if k < m - 1 {
      AppliedHas(groups, m - 1, k, e);
    }
  }

  /** Everything synced is complete in a file that contains the synced bytes. */
  lemma {:induction false} SyncedIsComplete(crc: Crc, records: seq<seq<Byte>>, file: seq<Byte>, d: nat, n: nat)
    requires d <= n <= |records| && (d > 0 ==> Complete(crc, records, file, d - 1))
    ensures CompleteCount(crc, records, file, n) >= d
    decreases n
  {
    hide Complete;
    if d < n { SyncedIsComplete(crc, records, file, d, n - 1); }
  }

  /** What a crash may leave of the log: any cut that keeps the synced records. */
  ghost predicate SurvivesCrash(crc: Crc, s: State, file: seq<Byte>) {
    s.durable <= |s.log| && CutLog(crc, s.log, file) && |Log(crc, s.log[..s.durable])| <= |file|
  }

  /** The rows hold every update of every group that succeeded with a sync writer. */
  ghost predicate HoldsSynced(s: State, rows: seq<MemEntry>) {
    forall i: nat, e :: SyncServed(s, i) && e in Entries(s.history[i].start, s.history[i].ops) ==> e in rows
  }

  lemma CrashKeepsSynced(crc: Crc, s: State, file: seq<Byte>)
    requires GroupCommit.Inv(s) && SurvivesCrash(crc, s, file)
    ensures var records := Records(LoggedGroups(s));
            && CutLog(crc, records, file)
            && HoldsSynced(s, Applied(LoggedGroups(s), CompleteCount(crc, records, file, |records|)))
  {
    var groups := LoggedGroups(s);
    LogIsRecords(s);
    assert s.durable > 0 ==> Complete(crc, s.log, file, s.durable - 1);
    SyncedIsComplete(crc, s.log, file, s.durable, |s.log|);
    hide Entries, GroupCommit.Inv, CutLog, SurvivesCrash, Complete;
    forall i: nat, e | SyncServed(s, i) && e in Entries(s.history[i].start, s.history[i].ops)
      ensures e in Applied(groups, CompleteCount(crc, s.log, file, |s.log|))
    {
      var k := SyncPosition(s, i);
      AppliedHas(groups, CompleteCount(crc, s.log, file, |s.log|), k, e);
    }
  }

  // ---- Several logs --------------------------------------------------------------------------------

  /** The logs a restart replays: those whose memtables are not in tables yet. */
  ghost function NeededLogs(x: Store): seq<seq<Logged>>
    requires x.flushed <= |x.closed|
  {
    seq(|x.closed| - x.flushed + 1,
        i requires 0 <= i <= |x.closed| - x.flushed => LoggedGroups(x.Log(x.flushed + i)))
  }

  /** What a crash may leave of the logs: of each its own cut. */
  ghost predicate StoreSurvives(crc: Crc, x: Store, files: seq<seq<Byte>>) {
    && x.flushed <= |x.closed| && |files| == |x.closed| - x.flushed + 1
    && forall i :: 0 <= i < |files| ==>
         SurvivesCrash(crc, x.Log(x.flushed + i), files[i]) && AllGroups(LoggedGroups(x.Log(x.flushed + i)))
  }

  lemma NeededLogIs(x: Store)
    requires x.flushed <= |x.closed|
    ensures |NeededLogs(x)| == |x.closed| - x.flushed + 1
    ensures forall i :: 0 <= i < |NeededLogs(x)| ==> NeededLogs(x)[i] == LoggedGroups(x.Log(x.flushed + i))
  {
    hide LoggedGroups;
  }

  lemma SurvivorIsFound(crc: Crc, s: State, file: seq<Byte>)
    requires GroupCommit.Inv(s) && SurvivesCrash(crc, s, file) && AllGroups(LoggedGroups(s))
    ensures FoundLog(crc, LoggedGroups(s), file)
  {
    hide GroupCommit.Inv, AllGroups, CutLog, LoggedGroups;
    LogIsRecords(s);
  }

  lemma SurvivorsAreFound(crc: Crc, x: Store, files: seq<seq<Byte>>)
    requires StoreInv(x) && StoreSurvives(crc, x, files)
    ensures AllFound(crc, NeededLogs(x), files)
  {
    hide GroupCommit.Inv, AllGroups, LoggedGroups, FoundLog, SurvivesCrash, NeededLogs;
    NeededLogIs(x);
    forall i | 0 <= i < |files| ensures FoundLog(crc, NeededLogs(x)[i], files[i]) {
      assert GroupCommit.Inv(x.Log(x.flushed + i));
      SurvivorIsFound(crc, x.Log(x.flushed + i), files[i]);
    }
  }

  /** Every update of every group that succeeded with a sync writer is in a table: in one its memtable went to, or in
      one rebuilt from its log. */
  ghost predicate Durable(x: Store, tables: seq<seq<seq<MemEntry>>>) {
    && x.flushed <= |x.closed| && |tables| == |x.closed| - x.flushed + 1
    && (forall i :: 0 <= i < x.flushed ==> HoldsSynced(x.closed[i], x.closed[i].mem))
    && (forall i :: 0 <= i < |tables| ==> HoldsSynced(x.Log(x.flushed + i), Joined(tables[i])))
  }

  lemma RebuiltHolds(crc: Crc, s: State, file: seq<Byte>, tables: seq<seq<MemEntry>>)
    requires GroupCommit.Inv(s) && SurvivesCrash(crc, s, file) && FoundLog(crc, LoggedGroups(s), file)
    requires Joined(tables) == Applied(LoggedGroups(s), CompleteGroups(crc, LoggedGroups(s), file))
    ensures HoldsSynced(s, Joined(tables))
  {
    hide GroupCommit.Inv, AllGroups, CutLog, LoggedGroups, HoldsSynced;
    CrashKeepsSynced(crc, s, file);
  }

  lemma FlushedHolds(x: Store, i: nat)
    requires StoreInv(x) && i < |x.closed|
    ensures HoldsSynced(x.closed[i], x.closed[i].mem)
  {
    hide StoreInv, Entries;
    forall p: nat, e | SyncServed(x.closed[i], p)
      && e in Entries(x.closed[i].history[p].start, x.closed[i].history[p].ops)
      ensures e in x.closed[i].mem
    {
      FlushedHoldsAll(x, i, p);
    }
  }

  lemma FilesCount(crc: Crc, x: Store, files: seq<seq<Byte>>)
    requires StoreSurvives(crc, x, files)
    ensures |files| == |x.closed| - x.flushed + 1
  {
  }

  lemma OneIsDurable(crc: Crc, x: Store, files: seq<seq<Byte>>, tables: seq<seq<seq<MemEntry>>>, i: nat)
    requires x.flushed <= |x.closed| && AllFound(crc, NeededLogs(x), files) && i < |tables| == |files|
    requires StoreInv(x) && StoreSurvives(crc, x, files) && Rebuilt(crc, NeededLogs(x), files, tables)
    ensures x.flushed + i <= |x.closed| && HoldsSynced(x.Log(x.flushed + i), Joined(tables[i]))
  {
    hide GroupCommit.Inv, AllGroups, LoggedGroups, HoldsSynced, FoundLog, SurvivesCrash, NeededLogs;
    NeededLogIs(x);
    assert GroupCommit.Inv(x.Log(x.flushed + i)) && FoundLog(crc, NeededLogs(x)[i], files[i]);
    RebuiltHolds(crc, x.Log(x.flushed + i), files[i], tables[i]);
  }

  lemma RebuiltIsDurable(crc: Crc, x: Store, files: seq<seq<Byte>>, tables: seq<seq<seq<MemEntry>>>)
    requires x.flushed <= |x.closed| && AllFound(crc, NeededLogs(x), files) && |tables| == |files|
    requires StoreInv(x) && StoreSurvives(crc, x, files) && Rebuilt(crc, NeededLogs(x), files, tables)
    ensures Durable(x, tables)
  {
    hide StoreInv, AllFound, HoldsSynced, StoreSurvives, NeededLogs, Rebuilt;
    assert |files| == |x.closed| - x.flushed + 1 by { FilesCount(crc, x, files); }
    forall i | 0 <= i < |tables| ensures HoldsSynced(x.Log(x.flushed + i), Joined(tables[i])) {
      OneIsDurable(crc, x, files, tables, i);
    }
    forall i | 0 <= i < x.flushed ensures HoldsSynced(x.closed[i], x.closed[i].mem) {
      FlushedHolds(x, i);
    }
  }

  /** In every state of every run, whatever a crash leaves of the logs, recovery reports nothing, rebuilds every update
      of every group that succeeded with a sync writer, and goes on from a sequence number at or above all it
      rebuilt. */
  method RecoverAfterCrash(crc: Crc, files: seq<seq<Byte>>, usage: seq<MemEntry> -> nat, writeBufferSize: nat,
                           ghost x: Store)
    returns (tables: seq<seq<seq<MemEntry>>>, maxSequence: nat, corrupt: nat)
    ensures StoreInv(x) && StoreSurvives(crc, x, files) ==>
              corrupt == 0 && Durable(x, tables) && Below(tables, maxSequence)
    ensures StoreInv(x) && StoreSurvives(crc, x, files) && x.flushed <= |x.closed|
            && AllFound(crc, NeededLogs(x), files) ==>
              maxSequence == MaxRecovered(crc, NeededLogs(x), files, |files|)
  {
    assert StoreInv(x) ==> x.flushed <= |x.closed|;
    hide StoreInv, StoreSurvives, AllFound, Durable, Below;
    ghost var good := StoreInv(x) && StoreSurvives(crc, x, files);
    if good { SurvivorsAreFound(crc, x, files); }
    ghost var logs := if x.flushed <= |x.closed| then NeededLogs(x) else [];
    tables, maxSequence, corrupt := RecoverLogs(crc, files, usage, writeBufferSize, logs);
    if good { RebuiltIsDurable(crc, x, files, tables); }
  }

  // ---- Prefixes ------------------------------------------------------------------------------------

  ghost predicate Within(g: Logged, low: nat, high: nat) { low < g.start && g.start + |g.ops| <= high + 1 }

  lemma {:induction false} GroupsWithin(s: State, n: nat)
    requires HistoryOk(s) && n <= |s.history|
    ensures forall g :: g in GroupsOf(s.history, n) ==> Within(g, s.base, s.last)
  {
    if n > 0 {
      GroupsWithin(s, n - 1);
      GroupsEnd(s, n - 1);
    }
  }

  lemma {:induction false} AppliedWithin(groups: seq<Logged>, n: nat, low: nat)
    requires n <= |groups| && forall g :: g in groups ==> low < g.start
    ensures forall e :: e in Applied(groups, n) ==> low < e.sequence
  {
    if n > 0 { AppliedWithin(groups, n - 1, low); }
  }

  lemma {:induction false} AppliedUpTo(groups: seq<Logged>, n: nat, low: nat, high: nat)
    requires n <= |groups| && forall g :: g in groups ==> Within(g, low, high)
    ensures forall e :: e in Applied(groups, n) ==> e.sequence <= high
  {
    if n > 0 {
      AppliedUpTo(groups, n - 1, low, high);
      assert groups[n - 1] in groups;
    }
  }

  lemma {:induction false} AppliedPrefix(groups: seq<Logged>, m: nat, n: nat)
    requires m <= n <= |groups|
    ensures Applied(groups, m) <= Applied(groups, n)
    decreases n
  {
    if m < n { AppliedPrefix(groups, m, n - 1); }
  }

  /** The rows of the older log and of the current one. */
  ghost function BothLogs(g0: seq<Logged>, m0: nat, g1: seq<Logged>, m1: nat): seq<MemEntry>
    requires m0 <= |g0| && m1 <= |g1|
  {
    Applied(g0, m0) + Applied(g1, m1)
  }

  lemma RowsPrefixIff(a: seq<MemEntry>, part: seq<MemEntry>, b: seq<MemEntry>, some: seq<MemEntry>, last: nat)
    requires part <= a && some <= b && (forall e :: e in a ==> e.sequence <= last)
    requires forall e :: e in some ==> last < e.sequence
    ensures part + some <= a + b <==> part == a || some == []
  {
    if |part| < |a| && |some| > 0 {
      assert (part + some)[|part|] == some[0] && (a + b)[|part|] == a[|part|];
      assert a[|part|] in a && some[0] in some;
    }
  }

  /** While the older memtable is being flushed two logs are replayed, and each gives a prefix of its groups. Together
      they give a prefix of all groups exactly when the older log is complete or the newer one gives nothing: a log is
      not synced when it is closed. */
  lemma RecoveredIsPrefixIff(x: Store, m0: nat, m1: nat)
    requires StoreInv(x) && |x.closed| == x.flushed + 1
    requires m0 <= |LoggedGroups(x.closed[x.flushed])| && m1 <= |LoggedGroups(x.current)|
    ensures var g0, g1 := LoggedGroups(x.closed[x.flushed]), LoggedGroups(x.current);
            BothLogs(g0, m0, g1, m1) <= BothLogs(g0, |g0|, g1, |g1|) <==>
              Applied(g0, m0) == Applied(g0, |g0|) || Applied(g1, m1) == []
  {
    var s, t := x.closed[x.flushed], x.current;
    var g0, g1 := LoggedGroups(s), LoggedGroups(t);
    assert x.Log(x.flushed) == s && x.Log(x.flushed + 1) == t;
    assert GroupCommit.Inv(x.Log(x.flushed)) && GroupCommit.Inv(x.Log(x.flushed + 1));
    assert Follows(x.Log(x.flushed), x.Log(x.flushed + 1));
    OlderRows(s);
    NewerRows(t, m1);
    AppliedPrefix(g0, m0, |g0|);
    AppliedPrefix(g1, m1, |g1|);
    hide StoreInv, GroupCommit.Inv, LoggedGroups, Applied;
    RowsPrefixIff(Applied(g0, |g0|), Applied(g0, m0), Applied(g1, |g1|), Applied(g1, m1), s.last);
  }

  lemma OlderRows(s: State)
    requires GroupCommit.Inv(s) && s.phase.Idle?
    ensures forall e :: e in Applied(LoggedGroups(s), |LoggedGroups(s)|) ==> e.sequence <= s.last
  {
    GroupsWithin(s, |s.history|);
    hide GroupCommit.Inv, Within;
    assert LoggedGroups(s) == GroupsOf(s.history, |s.history|);
    AppliedUpTo(LoggedGroups(s), |LoggedGroups(s)|, s.base, s.last);
  }

  lemma NewerRows(t: State, m: nat)
    requires GroupCommit.Inv(t) && m <= |LoggedGroups(t)|
    ensures forall e :: e in Applied(LoggedGroups(t), m) ==> t.base < e.sequence
  {
    GroupsWithin(t, |t.history|);
    BaseBelowLast(t);
    assert forall g :: g in LoggedGroups(t) ==> t.base < g.start;
    hide GroupCommit.Inv, LoggedGroups, Within;
    AppliedWithin(LoggedGroups(t), m, t.base);
  }
}
