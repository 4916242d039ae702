/** Group commit: the writer at the front of the queue logs and applies a batch for itself and the writers behind it.

    The mutex is released while the leader logs, syncs and inserts, so enqueueing and snapshots interleave with every
    one of these steps. */
module GroupCommit {
  import opened Coding
  import opened Wrappers
  import opened WriteBatches

  /** A call of DBImpl::Write; a missing batch only asks for a memtable switch. */
  datatype Writer = Writer(batch: Option<seq<Op>>, sync: bool) {
    function Ops(): seq<Op> { if batch.Some? then batch.value else [] }

    function Size(): nat { HEADER + |OpsBytes(Ops())| }
  }

  /** All updates of the first `n` writers, in order. */
  function GroupOps(ws: seq<Writer>, n: nat): seq<Op>
    requires n <= |ws|
  {
    if n == 0 then [] else GroupOps(ws, n - 1) + ws[n - 1].Ops()
  }

  lemma {:induction false} GroupOpsPrefix(a: seq<Writer>, b: seq<Writer>, n: nat)
    requires n <= |a| && n <= |b| && forall i :: 0 <= i < n ==> a[i] == b[i]
    ensures GroupOps(a, n) == GroupOps(b, n)
  {
    if n > 0 { GroupOpsPrefix(a, b, n - 1); }
  }

  const MAX_GROUP := 0x10_0000
  const SMALL_WRITE := 0x2_0000

  function MaxSize(first: Writer): nat {
    if first.Size() <= SMALL_WRITE then first.Size() + SMALL_WRITE else MAX_GROUP
  }

  /** The writer at `i` cannot join the group. */
  predicate Stops(queue: seq<Writer>, i: nat, size: nat)
    requires 0 < i < |queue|
  {
    || (queue[i].sync && !queue[0].sync)
    || (queue[i].batch.Some? && size + queue[i].Size() > MaxSize(queue[0]))
  }

  /** The bytes of the batches of the first `n` writers. */
  function BatchBytes(queue: seq<Writer>, n: nat): nat
    requires n <= |queue|
  {
    if n == 0 then 0 else BatchBytes(queue, n - 1) + if queue[n - 1].batch.Some? then queue[n - 1].Size() else 0
  }

  /** A group is at most one megabyte, and at most 128 kilobytes over a leader that is no larger than that. */
  ghost predicate WithinLimit(leader: nat, bytes: nat) {
    bytes <= 1024 * 1024 && (leader <= 128 * 1024 ==> bytes <= leader + 128 * 1024)
  }

  /** A leader alone may be as large as it is. */
  ghost predicate Allowed(leader: nat, bytes: nat) { bytes == leader || WithinLimit(leader, bytes) }

  ghost predicate NoSyncBehind(queue: seq<Writer>, n: nat)
    requires 0 < n <= |queue|
  {
    forall j :: 0 < j < n && queue[j].sync ==> queue[0].sync
  }

  /** The first `n` writers may go together: within the limit unless only the leader writes, and no sync writer behind
      a non-sync leader. */
  ghost predicate MayGroup(queue: seq<Writer>, n: nat)
    requires 0 < n <= |queue|
  {
    NoSyncBehind(queue, n) && Allowed(BatchBytes(queue, 1), BatchBytes(queue, n))
  }

  /** The group is all that may go together. */
  ghost predicate IsGroup(queue: seq<Writer>, n: nat)
    requires 0 < n <= |queue|
  {
    MayGroup(queue, n) && (n < |queue| ==> !MayGroup(queue, n + 1))
  }

  /** How many writers join, given that the first `i` have, with `size` bytes so far. */
  function GroupLength(queue: seq<Writer>, i: nat, size: nat): (n: nat)
    requires 0 < i <= |queue|
    ensures i <= n <= |queue|
    decreases |queue| - i
  {
    if i == |queue| || Stops(queue, i, size) then i
    else GroupLength(queue, i + 1, if queue[i].batch.Some? then size + queue[i].Size() else size)
  }

  function Group(queue: seq<Writer>): (n: nat)
    requires |queue| > 0
    ensures 0 < n <= |queue|
  {
    GroupLength(queue, 1, queue[0].Size())
  }

  /** BuildBatchGroup. */
  method BuildBatchGroup(queue: seq<Writer>) returns (n: nat, result: seq<Op>)
    requires |queue| > 0 && queue[0].batch.Some?
    ensures n == Group(queue) && result == GroupOps(queue, n) && IsGroup(queue, n)
  {
    hide Writer.Size, MaxSize, IsGroup;
    GroupIsGroup(queue);
    result := queue[0].batch.value;
    var size: nat := queue[0].Size();
    n := 1;
    while n < |queue|
      invariant 1 <= n <= |queue| && result == GroupOps(queue, n)
      invariant GroupLength(queue, n, size) == Group(queue)
    {
      var w := queue[n];
      if w.sync && !queue[0].sync {
        break;
      }
      if w.batch.Some? {
        if size + w.Size() > MaxSize(queue[0]) {
          break;
        }
        size := size + w.Size();
        result := result + w.batch.value;
      }
      n := n + 1;
    }
  }

  /** No sync writer joins a group led by a non-sync writer. */
  lemma {:induction false} SyncLeads(queue: seq<Writer>, i: nat, size: nat, j: nat)
    requires 0 < i <= |queue| && i <= j < GroupLength(queue, i, size)
    ensures queue[j].sync ==> queue[0].sync
    decreases |queue| - i
  {
    if i < j {
      SyncLeads(queue, i + 1, if queue[i].batch.Some? then size + queue[i].Size() else size, j);
    }
  }

  /** A batch goes past the limit of the code exactly when it goes past the limit in bytes. */
  lemma LimitIs(first: Writer, size: nat, more: nat)
    requires size >= first.Size() && more > 0
    ensures Allowed(first.Size(), size + more) <==> size + more <= MaxSize(first)
  {
  }

  lemma StopsIff(queue: seq<Writer>, i: nat, size: nat)
    requires 0 < i < |queue| && queue[0].batch.Some? && MayGroup(queue, i)
    requires size == BatchBytes(queue, i) >= queue[0].Size() == BatchBytes(queue, 1)
    ensures Stops(queue, i, size) <==> !MayGroup(queue, i + 1)
  {
    hide MaxSize, Allowed, NoSyncBehind, Writer.Size, Writer.Ops;
    SizePositive(queue[i]);
    SyncStep(queue, i);
    BytesStep(queue, i);
    LimitIs(queue[0], size, queue[i].Size());
  }

  lemma SizePositive(w: Writer)
    ensures w.Size() > 0
  {
  }

  lemma SyncStep(queue: seq<Writer>, i: nat)
    requires 0 < i < |queue| && NoSyncBehind(queue, i)
    ensures NoSyncBehind(queue, i + 1) <==> !(queue[i].sync && !queue[0].sync)
  {
  }

  lemma BytesStep(queue: seq<Writer>, i: nat)
    requires i < |queue|
    ensures BatchBytes(queue, i + 1) == BatchBytes(queue, i) + if queue[i].batch.Some? then queue[i].Size() else 0
  {
  }

  lemma {:induction false} GroupIs(queue: seq<Writer>, i: nat, size: nat)
    requires 0 < i <= |queue| && queue[0].batch.Some? && MayGroup(queue, i)
    requires size == BatchBytes(queue, i) >= queue[0].Size() == BatchBytes(queue, 1)
    ensures IsGroup(queue, GroupLength(queue, i, size))
    decreases |queue| - i
  {
    hide MayGroup, Stops, Writer.Size;
    if i < |queue| {
      StopsIff(queue, i, size);
      if !Stops(queue, i, size) {
        GroupIs(queue, i + 1, if queue[i].batch.Some? then size + queue[i].Size() else size);
      }
    }
  }

  lemma LeaderBytes(queue: seq<Writer>)
    requires |queue| > 0 && queue[0].batch.Some?
    ensures BatchBytes(queue, 1) == queue[0].Size()
  {
    assert BatchBytes(queue, 0) == 0;
  }

  lemma GroupIsGroup(queue: seq<Writer>)
    requires |queue| > 0 && queue[0].batch.Some?
    ensures IsGroup(queue, Group(queue))
  {
    LeaderBytes(queue);
    GroupIs(queue, 1, queue[0].Size());
  }

  lemma {:induction false} BytesGrow(queue: seq<Writer>, m: nat, n: nat)
    requires m <= n <= |queue|
    ensures BatchBytes(queue, m) <= BatchBytes(queue, n)
    decreases n
  {
    if m < n { BytesGrow(queue, m, n - 1); }
  }

  /** Fewer of the same writers may go together too. */
  lemma MayGroupFewer(queue: seq<Writer>, m: nat, n: nat)
    requires 0 < m <= n <= |queue| && queue[0].batch.Some? && MayGroup(queue, n)
    ensures MayGroup(queue, m)
  {
    BytesGrow(queue, 1, m);
    BytesGrow(queue, m, n);
  }

  /** So no other number of writers is a group. */
  lemma GroupUnique(queue: seq<Writer>, m: nat, n: nat)
    requires 0 < m <= |queue| && 0 < n <= |queue| && queue[0].batch.Some? && IsGroup(queue, m) && IsGroup(queue, n)
    ensures m == n
  {
    hide MayGroup;
    if m < n { MayGroupFewer(queue, m + 1, n); }
    if n < m { MayGroupFewer(queue, n + 1, m); }
  }

  datatype Stage = Built | Logged | Applying(k: nat) | Finished(ok: bool, logged: bool)

  datatype Phase = Idle | Leading(n: nat, ops: seq<Op>, start: nat, stage: Stage)

  /** A finished group: who was in it, what it wrote, its first sequence number, how it ended. */
  datatype Served = Served(members: seq<Writer>, ops: seq<Op>, start: nat, ok: bool, logged: bool)

  datatype State = State(base: nat, arrivals: seq<Writer>, queue: seq<Writer>, phase: Phase, last: nat, log: seq<Bytes>,
                         durable: nat, mem: seq<MemEntry>, backgroundError: bool, snapshots: set<nat>,
                         history: seq<Served>)

  function Init(base: nat): State { State(base, [], [], Idle, base, [], 0, [], false, {}, []) }

  datatype Step =
    | Enqueue(w: Writer)
    | TakeSnapshot
    | Lead
    | AppendLog
    | FailLog
    | Sync
    | FailSync
    | SkipSync
    | InsertOne
    | InsertDone
    | Commit

  predicate At(s: State, stage: Stage) { s.phase.Leading? && s.phase.stage == stage }

  /** A leader with nothing to write, or one that finds the background error, leaves the queue alone. */
  function ServeAlone(s: State): State
    requires |s.queue| > 0
  {
    s.(queue := s.queue[1..], history := s.history + [Served([s.queue[0]], [], s.last + 1, !s.backgroundError, false)])
  }

  predicate Next(s: State, step: Step, t: State) {
    match step
    case Enqueue(w) => t == s.(arrivals := s.arrivals + [w], queue := s.queue + [w])
    case TakeSnapshot => t == s.(snapshots := s.snapshots + {s.last})
    case Lead =>
      && s.phase.Idle? && |s.queue| > 0
      && t == if s.backgroundError || s.queue[0].batch.None? then ServeAlone(s)
              else s.(phase := Leading(Group(s.queue), GroupOps(s.queue, Group(s.queue)), s.last + 1, Built))
    case AppendLog =>
      At(s, Built) && t == s.(log := s.log + [Rep(s.phase.start, s.phase.ops)], phase := s.phase.(stage := Logged))
    case FailLog => At(s, Built) && t == s.(phase := s.phase.(stage := Finished(false, false)))
    case Sync =>
      At(s, Logged) && |s.queue| > 0 && s.queue[0].sync
        && t == s.(durable := |s.log|, phase := s.phase.(stage := Applying(0)))
    case FailSync =>
      At(s, Logged) && |s.queue| > 0 && s.queue[0].sync
        && t == s.(backgroundError := true, phase := s.phase.(stage := Finished(false, true)))
    case SkipSync =>
      At(s, Logged) && |s.queue| > 0 && !s.queue[0].sync
        && t == s.(phase := s.phase.(stage := Applying(0)))
    case InsertOne =>
      && s.phase.Leading? && s.phase.stage.Applying? && s.phase.stage.k < |s.phase.ops|
      && var k := s.phase.stage.k;
         t == s.(mem := s.mem + [MemEntry(s.phase.start + k, s.phase.ops[k])],
                 phase := s.phase.(stage := Applying(k + 1)))
    case InsertDone =>
      s.phase.Leading? && s.phase.stage == Applying(|s.phase.ops|)
        && t == s.(phase := s.phase.(stage := Finished(true, true)))
    case Commit =>
      && s.phase.Leading? && s.phase.stage.Finished? && s.phase.n <= |s.queue|
      && var p := s.phase;
         t == s.(last := s.last + |p.ops|, queue := s.queue[p.n..], phase := Idle,
                 history := s.history + [Served(s.queue[..p.n], p.ops, p.start, p.stage.ok, p.stage.logged)])
  }

  function Members(history: seq<Served>, n: nat): seq<Writer>
    requires n <= |history|
  {
    if n == 0 then [] else Members(history, n - 1) + history[n - 1].members
  }

  function Total(history: seq<Served>, n: nat): nat
    requires n <= |history|
  {
    if n == 0 then 0 else Total(history, n - 1) + |history[n - 1].ops|
  }

  function RecordOf(g: Served): seq<Bytes> { if g.logged then [Rep(g.start, g.ops)] else [] }

  function LogOf(history: seq<Served>, n: nat): seq<Bytes>
    requires n <= |history|
  {
    if n == 0 then [] else LogOf(history, n - 1) + RecordOf(history[n - 1])
  }

  function EntriesOf(g: Served): seq<MemEntry> { if g.ok then Entries(g.start, g.ops) else [] }

  function MemOf(history: seq<Served>, n: nat): seq<MemEntry>
    requires n <= |history|
  {
    if n == 0 then [] else MemOf(history, n - 1) + EntriesOf(history[n - 1])
  }

  /** A group that succeeded wrote exactly its members' updates, logged them, and let no sync writer down. */
  ghost predicate GroupOk(g: Served) {
    && |g.members| > 0
    && (g.ok ==> g.ops == GroupOps(g.members, |g.members|) && (g.logged || g.ops == []))
    && (forall w :: w in g.members && w.sync ==> g.members[0].sync)
  }

  /** Group `i` starts where the previous ones end, and a synced group is durable. */
  ghost predicate Placed(base: nat, history: seq<Served>, i: nat, durable: nat)
    requires i < |history|
  {
    && history[i].start == base + Total(history, i) + 1
    && (history[i].ok && history[i].logged && history[i].members != [] && history[i].members[0].sync ==>
         |LogOf(history, i + 1)| <= durable)
  }

  ghost predicate HistoryOk(s: State) {
    && s.arrivals == Members(s.history, |s.history|) + s.queue
    && s.last == s.base + Total(s.history, |s.history|)
    && (forall i :: 0 <= i < |s.history| ==> GroupOk(s.history[i]))
    && (forall i :: 0 <= i < |s.history| ==> Placed(s.base, s.history, i, s.durable))
  }

  ghost predicate PhaseOk(s: State) {
    s.phase.Leading? ==>
      var p := s.phase;
      && 0 < p.n <= |s.queue| && p.ops == GroupOps(s.queue, p.n) && p.start == s.last + 1
      && (forall j :: 0 <= j < p.n && s.queue[j].sync ==> s.queue[0].sync)
      && (p.stage.Applying? ==> p.stage.k <= |p.ops|)
      && (p.stage.Finished? && p.stage.ok ==> p.stage.logged)
      && ((p.stage.Applying? || (p.stage.Finished? && p.stage.ok)) && s.queue[0].sync ==> s.durable == |s.log|)
  }

  function PhaseLog(p: Phase): seq<Bytes> {
    if p.Leading? && (p.stage.Logged? || p.stage.Applying? || (p.stage.Finished? && p.stage.logged))
    then [Rep(p.start, p.ops)]
    else []
  }

  function PhaseMem(p: Phase): seq<MemEntry> {
    if p.Leading? && p.stage.Applying? && p.stage.k <= |p.ops| then Entries(p.start, p.ops)[..p.stage.k]
    else if p.Leading? && p.stage.Finished? && p.stage.ok then Entries(p.start, p.ops)
    else []
  }

  ghost predicate LogOk(s: State) {
    s.log == LogOf(s.history, |s.history|) + PhaseLog(s.phase) && s.durable <= |s.log|
  }

  ghost predicate MemOk(s: State) { s.mem == MemOf(s.history, |s.history|) + PhaseMem(s.phase) }

  ghost predicate StoresOk(s: State) { LogOk(s) && MemOk(s) }

  /** A snapshot falls between two groups. */
  ghost predicate Between(history: seq<Served>, snapshot: nat) {
    forall i :: 0 <= i < |history| ==>
      snapshot < history[i].start || history[i].start + |history[i].ops| <= snapshot + 1
  }

  ghost predicate SnapshotsOk(s: State) {
    forall x :: x in s.snapshots ==> x <= s.last && Between(s.history, x)
  }

  ghost predicate Inv(s: State) { HistoryOk(s) && PhaseOk(s) && StoresOk(s) && SnapshotsOk(s) }

  /** What the history says of its first `n` groups does not depend on the later ones. */
  lemma {:induction false} HistoryPrefix(h: seq<Served>, g: Served, n: nat)
    requires n <= |h|
    ensures Members(h + [g], n) == Members(h, n) && Total(h + [g], n) == Total(h, n)
    ensures LogOf(h + [g], n) == LogOf(h, n) && MemOf(h + [g], n) == MemOf(h, n)
  {
    if n > 0 { HistoryPrefix(h, g, n - 1); }
  }

  lemma HistorySnoc(h: seq<Served>, g: Served)
    ensures Members(h + [g], |h| + 1) == Members(h, |h|) + g.members
    ensures Total(h + [g], |h| + 1) == Total(h, |h|) + |g.ops|
    ensures LogOf(h + [g], |h| + 1) == LogOf(h, |h|) + RecordOf(g)
    ensures MemOf(h + [g], |h| + 1) == MemOf(h, |h|) + EntriesOf(g)
  {
    HistoryPrefix(h, g, |h|);
  }

  /** Adding a group at the end keeps what was said of the earlier ones. */
  lemma PlacedSnoc(base: nat, h: seq<Served>, g: Served, i: nat, durable: nat)
    requires i < |h| && Placed(base, h, i, durable)
    ensures Placed(base, h + [g], i, durable)
  {
    HistoryPrefix(h, g, i);
    HistoryPrefix(h, g, i + 1);
  }

  /** The writers `g.members` leave the front of the queue as group `g`. */
  lemma ServeHistory(s: State, g: Served, t: State)
    requires HistoryOk(s) && s.durable <= t.durable
    requires t.base == s.base && t.arrivals == s.arrivals && t.history == s.history + [g]
    requires s.queue == g.members + t.queue
    requires t.last == s.last + |g.ops| && GroupOk(g) && g.start == s.last + 1
    requires g.ok && g.logged && g.members[0].sync ==> |LogOf(t.history, |t.history|)| <= t.durable
    ensures HistoryOk(t)
  {
    hide GroupOk, Placed;
    ServePlaced(s, g, t);
    ServeMembers(s.history, g, s.queue, t.queue);
    ServeGroups(s.history, g);
  }

  lemma ServeMembers(h: seq<Served>, g: Served, queue: seq<Writer>, rest: seq<Writer>)
    requires queue == g.members + rest
    ensures Members(h, |h|) + queue == Members(h + [g], |h| + 1) + rest
    ensures Total(h + [g], |h| + 1) == Total(h, |h|) + |g.ops|
  {
    HistorySnoc(h, g);
    Assoc(Members(h, |h|), g.members, rest);
  }

  lemma ServeGroups(h: seq<Served>, g: Served)
    requires GroupOk(g) && forall i :: 0 <= i < |h| ==> GroupOk(h[i])
    ensures forall i :: 0 <= i < |h + [g]| ==> GroupOk((h + [g])[i])
  {
    hide GroupOk;
  }

  lemma ServePlaced(s: State, g: Served, t: State)
    requires HistoryOk(s) && s.durable <= t.durable && t.base == s.base && t.history == s.history + [g] && GroupOk(g)
    requires g.start == s.last + 1
    requires g.ok && g.logged && g.members[0].sync ==> |LogOf(t.history, |t.history|)| <= t.durable
    ensures forall i :: 0 <= i < |t.history| ==> Placed(t.base, t.history, i, t.durable)
  {
    hide GroupOk, Placed;
    var n := |s.history|;
    HistoryPrefix(s.history, g, n);
    forall i | 0 <= i < |t.history| ensures Placed(t.base, t.history, i, t.durable) {
      if i < n {
        PlacedMore(s.base, s.history, i, s.durable, t.durable);
        PlacedSnoc(s.base, s.history, g, i, t.durable);
      } else {
        NewPlaced(t, g);
      }
    }
  }

  lemma PlacedMore(base: nat, h: seq<Served>, i: nat, durable: nat, more: nat)
    requires i < |h| && Placed(base, h, i, durable) && durable <= more
    ensures Placed(base, h, i, more)
  {
  }

  lemma NewPlaced(t: State, g: Served)
    requires |t.history| > 0 && t.history[|t.history| - 1] == g && GroupOk(g)
    requires g.start == t.base + Total(t.history, |t.history| - 1) + 1
    requires g.ok && g.logged && g.members[0].sync ==> |LogOf(t.history, |t.history|)| <= t.durable
    ensures Placed(t.base, t.history, |t.history| - 1, t.durable)
  {
  }

  lemma AloneKeeps(s: State, t: State)
    requires Inv(s) && s.phase.Idle? && |s.queue| > 0 && t == ServeAlone(s)
    requires (s.backgroundError || s.queue[0].batch.None?)
    ensures Inv(t)
  {
    hide Between, Placed, Rep, Entries, GroupOk, Next, Members, Total;
    var g := Served([s.queue[0]], [], s.last + 1, !s.backgroundError, false);
    AloneOk(g, s.queue[0]);
    assert s.queue == g.members + t.queue;
    AloneStores(s, g, t);
    ServeHistory(s, g, t);
    ServeSnapshots(s, g, t);
    hide HistoryOk, SnapshotsOk, StoresOk;
  }

  /** Nothing is written for a group without a record. */
  lemma AloneStores(s: State, g: Served, t: State)
    requires StoresOk(s) && t.history == s.history + [g] && EntriesOf(g) == [] && RecordOf(g) == []
    requires t.log == s.log && t.mem == s.mem && t.durable == s.durable && t.phase == s.phase
    ensures StoresOk(t)
  {
    hide PhaseLog, PhaseMem, EntriesOf, RecordOf;
    HistorySnoc(s.history, g);
  }

  lemma AloneOk(g: Served, w: Writer)
    requires g.members == [w] && g.ops == [] && !g.logged && (g.ok ==> w.batch.None?)
    ensures GroupOk(g) && EntriesOf(g) == [] && RecordOf(g) == []
  {
    assert GroupOps([w], 1) == GroupOps([w], 0) + w.Ops();
  }

  lemma LeadKeeps(s: State, t: State)
    requires Inv(s) && Next(s, Lead, t)
    ensures Inv(t)
  {
    if s.backgroundError || s.queue[0].batch.None? {
      AloneKeeps(s, t);
    } else {
      forall j | 0 <= j < Group(s.queue) && s.queue[j].sync ensures s.queue[0].sync {
        if j > 0 { SyncLeads(s.queue, 1, s.queue[0].Size(), j); }
      }
    }
  }

  lemma ServeSnapshots(s: State, g: Served, t: State)
    requires SnapshotsOk(s) && t.history == s.history + [g] && t.snapshots == s.snapshots && s.last <= t.last
    requires g.start == s.last + 1
    ensures SnapshotsOk(t)
  {
    forall x | x in t.snapshots ensures x <= t.last && Between(t.history, x) {
      assert Between(s.history, x);
    }
  }

  lemma CommitKeeps(s: State, t: State)
    requires Inv(s) && Next(s, Commit, t)
    ensures Inv(t)
  {
    hide Between, Placed, Rep, Entries;
    var p := s.phase;
    var g := Served(s.queue[..p.n], p.ops, p.start, p.stage.ok, p.stage.logged);
    CommitStores(s, g, t);
    assert s.queue == g.members + t.queue;
    GroupOpsPrefix(s.queue, g.members, p.n);
    forall w | w in g.members && w.sync ensures g.members[0].sync {
      var j :| 0 <= j < p.n && s.queue[j] == w;
    }
    ServeHistory(s, g, t);
    ServeSnapshots(s, g, t);
    hide HistoryOk, SnapshotsOk, StoresOk;
  }

  lemma CommitStores(s: State, g: Served, t: State)
    requires StoresOk(s) && Next(s, Commit, t) && t.history == s.history + [g]
    requires (s.phase.stage.ok ==> s.phase.stage.logged)
    ensures StoresOk(t) && LogOf(t.history, |t.history|) == s.log
  {
    assert (s.history + [g])[|s.history|] == g;
    CommitPhase(s.phase, g);
    hide Rep, Entries, PhaseLog, PhaseMem, RecordOf, EntriesOf;
    CommitLog(s, g, t);
    CommitMem(s, g, t);
  }

  /** What the leader logged and inserted is what its group will be held to. */
  lemma CommitPhase(p: Phase, g: Served)
    requires p.Leading? && p.stage.Finished? && (p.stage.ok ==> p.stage.logged)
    requires g.ops == p.ops && g.start == p.start && g.ok == p.stage.ok && g.logged == p.stage.logged
    ensures RecordOf(g) == PhaseLog(p) && EntriesOf(g) == PhaseMem(p)
    ensures PhaseLog(Idle) == [] && PhaseMem(Idle) == []
  {
    hide Rep, Entries;
  }

  lemma CommitLog(s: State, g: Served, t: State)
    requires LogOk(s) && t.history == s.history + [g] && t.log == s.log && t.durable == s.durable && t.phase == Idle
    requires RecordOf(g) == PhaseLog(s.phase) && PhaseLog(Idle) == []
    ensures LogOk(t) && LogOf(t.history, |t.history|) == s.log
  {
    hide RecordOf, PhaseLog, MemOf, Members, Total;
    HistorySnoc(s.history, g);
    assert s.log + [] == s.log;
  }

  lemma CommitMem(s: State, g: Served, t: State)
    requires MemOk(s) && t.history == s.history + [g] && t.mem == s.mem && t.phase == Idle
    requires EntriesOf(g) == PhaseMem(s.phase) && PhaseMem(Idle) == []
    ensures MemOk(t)
  {
    hide EntriesOf, PhaseMem, LogOf, Members, Total;
    HistorySnoc(s.history, g);
    assert s.mem + [] == s.mem;
  }

  lemma {:induction false} TotalAdds(h: seq<Served>, i: nat, j: nat)
    requires i <= j <= |h|
    ensures Total(h, i) <= Total(h, j)
    decreases j
  {
    if i < j { TotalAdds(h, i, j - 1); }
  }

  /** Groups of the history end at the last sequence number. */
  lemma GroupsEnd(s: State, i: nat)
    requires HistoryOk(s) && i < |s.history|
    ensures s.base < s.history[i].start && s.history[i].start + |s.history[i].ops| <= s.last + 1
  {
    assert Placed(s.base, s.history, i, s.durable);
    TotalAdds(s.history, i + 1, |s.history|);
  }

  lemma SnapshotKeeps(s: State, t: State)
    requires Inv(s) && Next(s, TakeSnapshot, t)
    ensures Inv(t)
  {
    SnapshotOnly(s, t);
    LastIsBetween(s);
    hide HistoryOk, PhaseOk, StoresOk, Between;
  }

  lemma SnapshotOnly(s: State, t: State)
    requires HistoryOk(s) && PhaseOk(s) && StoresOk(s) && t == s.(snapshots := t.snapshots)
    ensures HistoryOk(t) && PhaseOk(t) && StoresOk(t)
  {
    hide GroupOk, Placed, PhaseLog, PhaseMem;
  }

  /** The latest sequence number falls after every group. */
  lemma LastIsBetween(s: State)
    requires HistoryOk(s)
    ensures Between(s.history, s.last)
  {
    forall i | 0 <= i < |s.history| ensures s.history[i].start + |s.history[i].ops| <= s.last + 1 {
      GroupsEnd(s, i);
    }
  }

  lemma EnqueueKeeps(s: State, w: Writer, t: State)
    requires Inv(s) && Next(s, Enqueue(w), t)
    ensures Inv(t)
  {
    if s.phase.Leading? {
      GroupOpsPrefix(s.queue, t.queue, s.phase.n);
    }
  }

  lemma SyncKeeps(s: State, t: State)
    requires Inv(s) && Next(s, Sync, t)
    ensures Inv(t)
  {
    forall i | 0 <= i < |t.history| ensures Placed(t.base, t.history, i, t.durable) {
      PlacedMore(s.base, s.history, i, s.durable, t.durable);
    }
  }

  lemma SameHistory(s: State, t: State)
    requires HistoryOk(s) && SnapshotsOk(s)
    requires t == s.(phase := t.phase, log := t.log, mem := t.mem, backgroundError := t.backgroundError)
    ensures HistoryOk(t) && SnapshotsOk(t)
  {
    hide GroupOk, Placed, Between;
  }

  lemma InsertKeeps(s: State, t: State)
    requires Inv(s) && Next(s, InsertOne, t)
    ensures Inv(t)
  {
    hide HistoryOk, SnapshotsOk, StoresOk, Rep, Entries;
    SameHistory(s, t);
    InsertStores(s, t);
  }

  lemma InsertStores(s: State, t: State)
    requires StoresOk(s) && Next(s, InsertOne, t)
    ensures StoresOk(t)
  {
    hide PhaseMem, PhaseLog;
    var p := s.phase;
    InsertPhase(p);
    InsertMem(s, t, MemEntry(p.start + p.stage.k, p.ops[p.stage.k]));
  }

  lemma InsertMem(s: State, t: State, e: MemEntry)
    requires MemOk(s) && t.history == s.history && t.mem == s.mem + [e] && PhaseMem(t.phase) == PhaseMem(s.phase) + [e]
    ensures MemOk(t)
  {
    hide PhaseMem;
    Assoc(MemOf(s.history, |s.history|), PhaseMem(s.phase), [e]);
  }

  lemma InsertPhase(p: Phase)
    requires p.Leading? && p.stage.Applying? && p.stage.k < |p.ops|
    ensures var q := p.(stage := Applying(p.stage.k + 1));
            PhaseMem(q) == PhaseMem(p) + [MemEntry(p.start + p.stage.k, p.ops[p.stage.k])] && PhaseLog(q) == PhaseLog(p)
  {
    EntriesStep(p.start, p.ops, p.stage.k);
  }

  lemma EntriesStep(start: nat, ops: seq<Op>, k: nat)
    requires k < |ops|
    ensures Entries(start, ops)[..k + 1] == Entries(start, ops)[..k] + [MemEntry(start + k, ops[k])]
  {
  }

  predicate StageStep(step: Step) {
    step.AppendLog? || step.FailLog? || step.FailSync? || step.SkipSync? || step.InsertDone?
  }

  /** The remaining steps only move the leader to its next stage. */
  lemma StageKeeps(s: State, step: Step, t: State)
    requires Inv(s) && Next(s, step, t) && StageStep(step)
    ensures Inv(t)
  {
    hide HistoryOk, SnapshotsOk, StoresOk, Rep, Entries;
    SameHistory(s, t);
    StageStores(s, step, t);
    StagePhaseOk(s, step, t);
    hide PhaseOk, Next;
  }

  lemma StagePhaseOk(s: State, step: Step, t: State)
    requires PhaseOk(s) && Next(s, step, t) && StageStep(step)
    ensures PhaseOk(t)
  {
    hide Rep, Entries;
  }

  lemma StageStores(s: State, step: Step, t: State)
    requires StoresOk(s) && Next(s, step, t) && StageStep(step)
    ensures StoresOk(t)
  {
    hide Rep, Entries, PhaseLog, PhaseMem;
    StagePhase(s, step, t);
    if step.AppendLog? {
      Assoc(LogOf(s.history, |s.history|), PhaseLog(s.phase), [Rep(s.phase.start, s.phase.ops)]);
    }
  }

  /** Only AppendLog adds to the log, and none of these steps adds to the memtable. */
  lemma StagePhase(s: State, step: Step, t: State)
    requires Next(s, step, t) && StageStep(step)
    ensures PhaseLog(t.phase) == if step.AppendLog? then PhaseLog(s.phase) + [Rep(s.phase.start, s.phase.ops)]
                                 else PhaseLog(s.phase)
    ensures PhaseMem(t.phase) == PhaseMem(s.phase)
  {
    hide Rep, Entries;
    assert step.InsertDone? ==>
           Entries(s.phase.start, s.phase.ops)[..|s.phase.ops|] == Entries(s.phase.start, s.phase.ops);
  }

  lemma StepKeepsInv(s: State, step: Step, t: State)
    requires Inv(s) && Next(s, step, t)
    ensures Inv(t)
  {
    hide Inv, Next;
    match step
    case Enqueue(w) => EnqueueKeeps(s, w, t);
    case TakeSnapshot => SnapshotKeeps(s, t);
    case Lead => LeadKeeps(s, t);
    case Sync => SyncKeeps(s, t);
    case InsertOne => InsertKeeps(s, t);
    case Commit => CommitKeeps(s, t);
    case _ => StageKeeps(s, step, t);
  }

  ghost predicate Run(states: seq<State>, steps: seq<Step>, base: nat) {
    && |states| == |steps| + 1 && states[0] == Init(base)
    && forall i :: 0 <= i < |steps| ==> Next(states[i], steps[i], states[i + 1])
  }

  lemma {:induction false} RunKeepsInv(states: seq<State>, steps: seq<Step>, base: nat, n: nat)
    requires Run(states, steps, base) && n < |states|
    ensures Inv(states[n])
  {
    if n > 0 {
      hide Inv, Next;
      RunKeepsInv(states, steps, base, n - 1);
      StepKeepsInv(states[n - 1], steps[n - 1], states[n]);
    }
  }

  /** Sequence ranges of different groups do not meet: each group starts after all earlier ones end. */
  lemma RangesDisjoint(s: State, i: nat, j: nat)
    requires Inv(s) && i < j < |s.history|
    ensures s.history[i].start + |s.history[i].ops| <= s.history[j].start
  {
    var h := s.history;
    assert Placed(s.base, h, i, s.durable) && Placed(s.base, h, j, s.durable);
    TotalAdds(h, i + 1, j);
  }

  /** A snapshot sees all of a group or none of it, whatever the memtable holds meanwhile. */
  lemma SnapshotSeesWholeGroups(s: State, snapshot: nat, i: nat)
    requires Inv(s) && snapshot in s.snapshots && i < |s.history|
    ensures var g := s.history[i];
            (forall e :: e in Entries(g.start, g.ops) ==> e.sequence <= snapshot)
              || (forall e :: e in Entries(g.start, g.ops) ==> e.sequence > snapshot)
    ensures s.phase.Leading? ==> forall e :: e in Entries(s.phase.start, s.phase.ops) ==> e.sequence > snapshot
  {
    assert Between(s.history, snapshot);
  }

  /** A sync writer whose group succeeded is durable: its record is among the synced ones. */
  lemma SyncWritersAreDurable(s: State, i: nat, w: Writer)
    requires Inv(s) && i < |s.history| && w in s.history[i].members && w.sync && s.history[i].ok && w.Ops() != []
    ensures s.history[i].logged && |LogOf(s.history, i + 1)| <= s.durable
    ensures var l := LogOf(s.history, i + 1); |l| > 0 && l[|l| - 1] == Rep(s.history[i].start, s.history[i].ops)
    ensures s.history[i].ops == GroupOps(s.history[i].members, |s.history[i].members|)
  {
    var h := s.history;
    assert GroupOk(h[i]) && Placed(s.base, h, i, s.durable);
    MemberOps(h[i].members, |h[i].members|, w);
  }

  lemma {:induction false} MemberOps(ws: seq<Writer>, n: nat, w: Writer)
    requires n <= |ws| && w in ws[..n] && w.Ops() != []
    ensures GroupOps(ws, n) != []
  {
    assert ws[..n] == ws[..n - 1] + [ws[n - 1]];
    if ws[n - 1] != w {
      MemberOps(ws, n - 1, w);
    }
  }

  lemma {:induction false} GroupOpsConcat(a: seq<Writer>, b: seq<Writer>, n: nat)
    requires n <= |b|
    ensures GroupOps(a + b, |a| + n) == GroupOps(a, |a|) + GroupOps(b, n)
  {
    if n == 0 {
      GroupOpsPrefix(a + b, a, |a|);
    } else {
      GroupOpsConcat(a, b, n - 1);
      Assoc(GroupOps(a, |a|), GroupOps(b, n - 1), b[n - 1].Ops());
    }
  }

  lemma EntriesConcat(start: nat, a: seq<Op>, b: seq<Op>)
    ensures Entries(start, a + b) == Entries(start, a) + Entries(start + |a|, b)
  {
  }

  function AllOps(h: seq<Served>, n: nat): seq<Op>
    requires n <= |h|
  {
    GroupOps(Members(h, n), |Members(h, n)|)
  }

  lemma AllOpsStep(h: seq<Served>, n: nat)
    requires 0 < n <= |h|
    ensures AllOps(h, n) == AllOps(h, n - 1) + GroupOps(h[n - 1].members, |h[n - 1].members|)
  {
    GroupOpsConcat(Members(h, n - 1), h[n - 1].members, |h[n - 1].members|);
  }

  /** The memtable after the first `n` groups: their members' updates in queue order, numbered consecutively. */
  ghost predicate AppliedAll(base: nat, h: seq<Served>, n: nat)
    requires n <= |h|
  {
    MemOf(h, n) == Entries(base + 1, AllOps(h, n)) && Total(h, n) == |AllOps(h, n)|
  }

  lemma AppliedStep(base: nat, h: seq<Served>, n: nat, g: Served)
    requires 0 < n <= |h| && AppliedAll(base, h, n - 1) && g == h[n - 1]
    requires g.ok && g.ops == GroupOps(g.members, |g.members|) && g.start == base + Total(h, n - 1) + 1
    ensures AppliedAll(base, h, n)
  {
    hide AllOps, Entries;
    AllOpsStep(h, n);
    EntriesConcat(base + 1, AllOps(h, n - 1), g.ops);
  }

  /** While no group has failed, the memtable holds every served update exactly once, in queue order, with consecutive
      sequence numbers. */
  lemma {:induction false} AppliedInQueueOrder(base: nat, h: seq<Served>, n: nat, durable: nat)
    requires n <= |h| && forall i :: 0 <= i < n ==> GroupOk(h[i]) && h[i].ok && Placed(base, h, i, durable)
    ensures AppliedAll(base, h, n)
  {
    hide GroupOk, Placed;
    if n > 0 {
      hide AppliedAll;
      AppliedInQueueOrder(base, h, n - 1, durable);
      LastPlaced(base, h, n, durable);
      AppliedStep(base, h, n, h[n - 1]);
    }
  }

  lemma LastPlaced(base: nat, h: seq<Served>, n: nat, durable: nat)
    requires 0 < n <= |h| && GroupOk(h[n - 1]) && h[n - 1].ok && Placed(base, h, n - 1, durable)
    ensures var g := h[n - 1]; g.start == base + Total(h, n - 1) + 1 && g.ops == GroupOps(g.members, |g.members|)
  {
  }
}
