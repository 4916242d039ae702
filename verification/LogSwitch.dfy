/** A full memtable is set aside together with its log, and the next group starts a new log.

    A log's part of the run is a group-commit state of its own: the states at which earlier logs were closed, and the
    current one. */
module LogSwitch {
  import opened WriteBatches
  import opened GroupCommit

  /** The logs closed so far, oldest first, of which the first `flushed` are no longer needed: their memtables are in
      tables. */
  datatype Store = Store(closed: seq<State>, flushed: nat, current: State) {
    function Log(i: nat): State
      requires i <= |closed|
    {
      if i < |closed| then closed[i] else current
    }
  }

  datatype Move = Group(step: Step) | Switch | Flushed | FlushFailed

  function Start(base: nat): Store { Store([], 0, Init(base)) }

  /** The state at the start of the log that follows. */
  function NewLog(s: State): State {
    s.(base := s.last, arrivals := s.queue, log := [], durable := 0, mem := [], history := [])
  }

  /** Switching is up to the writer at the front of the queue, and waits for the previous memtable's flush. */
  predicate MoveOk(a: Store, move: Move, b: Store) {
    match move
    case Group(step) => Next(a.current, step, b.current) && b == a.(current := b.current)
    case Switch =>
      && a.current.phase.Idle? && |a.current.queue| > 0 && !a.current.backgroundError && a.flushed == |a.closed|
      && b == Store(a.closed + [a.current], a.flushed, NewLog(a.current))
    case Flushed => a.flushed < |a.closed| && b == a.(flushed := |a.closed|)
    case FlushFailed =>
      a.flushed < |a.closed| && b == a.(current := a.current.(backgroundError := true))
  }

  /** The later log goes on where the earlier one ended: same sequence numbers, same queue. */
  ghost predicate Follows(s: State, t: State) { s.phase.Idle? && s.last == t.base && s.queue <= t.arrivals }

  ghost predicate StoreInv(x: Store) {
    && x.flushed <= |x.closed| <= x.flushed + 1
    && (forall i :: 0 <= i <= |x.closed| ==> Inv(x.Log(i)))
    && (forall i :: 0 <= i < |x.closed| ==> Follows(x.Log(i), x.Log(i + 1)))
    && (forall i, s :: 0 <= i < |x.closed| && s in x.current.snapshots ==> Between(x.closed[i].history, s))
  }

  lemma NewLogKeeps(s: State)
    requires Inv(s) && s.phase.Idle?
    ensures Inv(NewLog(s)) && Follows(s, NewLog(s))
  {
  }

  lemma ErrorKeeps(s: State)
    requires Inv(s)
    ensures Inv(s.(backgroundError := true))
  {
    hide HistoryOk, SnapshotsOk, Rep, Entries;
    SameHistory(s, s.(backgroundError := true));
  }

  /** No step moves a log's base or takes an arrival back, and only a snapshot of the last sequence number is new. */
  lemma StepFollows(s: State, step: Step, t: State)
    requires Next(s, step, t)
    ensures t.base == s.base && s.arrivals <= t.arrivals && t.snapshots <= s.snapshots + {s.last}
  {
  }

  lemma BaseBelowLast(s: State)
    requires HistoryOk(s)
    ensures s.base <= s.last
  {
  }

  /** Earlier logs end before later ones begin. */
  lemma {:induction false} LogsAscend(x: Store, i: nat, j: nat)
    requires StoreInv(x) && i < j <= |x.closed|
    ensures x.Log(i).last <= x.Log(j).base
    decreases j
  {
    assert Follows(x.Log(j - 1), x.Log(j));
    assert Inv(x.Log(j - 1));
    hide StoreInv, Follows;
    if i < j - 1 {
      LogsAscend(x, i, j - 1);
      BaseBelowLast(x.Log(j - 1));
    }
  }

  lemma GroupMoveKeeps(a: Store, step: Step, b: Store)
    requires StoreInv(a) && MoveOk(a, Group(step), b)
    ensures StoreInv(b)
  {
    hide Inv, Next, Between;
    assert Inv(a.Log(|a.closed|));
    StepKeepsInv(a.current, step, b.current);
    StepFollows(a.current, step, b.current);
    forall i | 0 <= i <= |b.closed| ensures Inv(b.Log(i)) {
      assert Inv(a.Log(i));
    }
    forall i | 0 <= i < |b.closed| ensures Follows(b.Log(i), b.Log(i + 1)) {
      assert Follows(a.Log(i), a.Log(i + 1));
    }
    forall i, s | 0 <= i < |b.closed| && s in b.current.snapshots ensures Between(b.closed[i].history, s) {
      if s == a.current.last { LatestIsBetween(a, i); }
    }
  }

  /** The latest sequence number falls after every group of every earlier log. */
  lemma LatestIsBetween(x: Store, i: nat)
    requires StoreInv(x) && i < |x.closed|
    ensures Between(x.closed[i].history, x.current.last)
  {
    LogsAscend(x, i, |x.closed|);
    assert Inv(x.Log(i)) && Inv(x.Log(|x.closed|));
    BaseBelowLast(x.current);
    forall j | 0 <= j < |x.closed[i].history|
      ensures x.closed[i].history[j].start + |x.closed[i].history[j].ops| <= x.current.last + 1
    {
      GroupsEnd(x.closed[i], j);
    }
  }

  lemma SwitchKeeps(a: Store, b: Store)
    requires StoreInv(a) && MoveOk(a, Switch, b)
    ensures StoreInv(b)
  {
    assert Inv(a.Log(|a.closed|));
    NewLogKeeps(a.current);
    assert SnapshotsOk(a.current);
    hide Inv, Between, Follows;
    forall i | 0 <= i <= |b.closed| ensures Inv(b.Log(i)) {
      if i < |b.closed| { assert b.Log(i) == a.Log(i); }
    }
    forall i | 0 <= i < |b.closed| ensures Follows(b.Log(i), b.Log(i + 1)) {
      if i < |a.closed| { assert b.Log(i) == a.Log(i) && b.Log(i + 1) == a.Log(i + 1); }
    }
    forall i, s | 0 <= i < |b.closed| && s in b.current.snapshots ensures Between(b.closed[i].history, s) {
      if i < |a.closed| { assert b.closed[i] == a.closed[i]; }
    }
  }

  lemma MoveKeepsInv(a: Store, move: Move, b: Store)
    requires StoreInv(a) && MoveOk(a, move, b)
    ensures StoreInv(b)
  {
    match move
    case Group(step) =>
      GroupMoveKeeps(a, step, b);
    case Switch =>
      SwitchKeeps(a, b);
    case Flushed =>
      FlushedKeeps(a, b);
    case FlushFailed =>
      FailedKeeps(a, b);
  }

  lemma FlushedKeeps(a: Store, b: Store)
    requires StoreInv(a) && MoveOk(a, Flushed, b)
    ensures StoreInv(b)
  {
    hide Inv, Between, Follows;
    assert forall i :: 0 <= i <= |b.closed| ==> b.Log(i) == a.Log(i);
  }

  lemma FailedKeeps(a: Store, b: Store)
    requires StoreInv(a) && MoveOk(a, FlushFailed, b)
    ensures StoreInv(b)
  {
    assert Inv(a.Log(|a.closed|));
    ErrorKeeps(a.current);
    hide Inv, Between;
    forall i | 0 <= i <= |b.closed| ensures Inv(b.Log(i)) {
      assert Inv(a.Log(i));
    }
    forall i | 0 <= i < |b.closed| ensures Follows(b.Log(i), b.Log(i + 1)) {
      assert Follows(a.Log(i), a.Log(i + 1));
    }
  }

  ghost predicate Run(states: seq<Store>, moves: seq<Move>, base: nat) {
    && |states| == |moves| + 1 && states[0] == Start(base)
    && forall i :: 0 <= i < |moves| ==> MoveOk(states[i], moves[i], states[i + 1])
  }

  lemma StartInv(base: nat)
    ensures StoreInv(Start(base))
  {
  }

  /** Every log of every run of writes, switches and flushes keeps the group-commit invariant. */
  lemma {:induction false} RunKeepsInv(states: seq<Store>, moves: seq<Move>, base: nat, n: nat)
    requires Run(states, moves, base) && n < |states|
    ensures StoreInv(states[n])
  {
    hide StoreInv, MoveOk;
    if n > 0 {
      RunKeepsInv(states, moves, base, n - 1);
      MoveKeepsInv(states[n - 1], moves[n - 1], states[n]);
    } else {
      StartInv(base);
    }
  }

  /** Sequence numbers never repeat across logs: a group of an earlier log ends before any of a later one begins. */
  lemma RangesDisjointAcross(x: Store, i: nat, j: nat, p: nat, q: nat)
    requires StoreInv(x) && i < j <= |x.closed| && p < |x.Log(i).history| && q < |x.Log(j).history|
    ensures var g, h := x.Log(i).history[p], x.Log(j).history[q]; g.start + |g.ops| <= h.start
  {
    assert Inv(x.Log(i)) && Inv(x.Log(j));
    LogsAscend(x, i, j);
    GroupsEnd(x.Log(i), p);
    GroupsEnd(x.Log(j), q);
  }

  /** A snapshot sees all of a group or none of it, in every log. */
  lemma SnapshotSeesWholeGroupsAcross(x: Store, snapshot: nat, i: nat, p: nat)
    requires StoreInv(x) && snapshot in x.current.snapshots && i <= |x.closed| && p < |x.Log(i).history|
    ensures var g := x.Log(i).history[p];
            (forall e :: e in Entries(g.start, g.ops) ==> e.sequence <= snapshot)
              || (forall e :: e in Entries(g.start, g.ops) ==> e.sequence > snapshot)
  {
    assert Inv(x.Log(i));
    assert Between(x.Log(i).history, snapshot);
  }

  /** Once its memtable is in tables, a log holds nothing that would be missed: every group that succeeded is there. */
  lemma FlushedHoldsAll(x: Store, i: nat, p: nat)
    requires StoreInv(x) && i < |x.closed| && p < |x.closed[i].history| && x.closed[i].history[p].ok
    ensures var g := x.closed[i].history[p];
            forall e :: e in Entries(g.start, g.ops) ==> e in x.closed[i].mem
  {
    var s := x.closed[i];
    assert x.Log(i) == s && Inv(x.Log(i)) && Follows(x.Log(i), x.Log(i + 1));
    assert s.mem == MemOf(s.history, |s.history|) + [];
    MemHasGroup(s.history, |s.history|, p);
  }

  lemma {:induction false} MemHasGroup(h: seq<Served>, n: nat, p: nat)
    requires p < n <= |h| && h[p].ok
    ensures forall e :: e in Entries(h[p].start, h[p].ops) ==> e in MemOf(h, n)
  {
    hide Entries;
    if p < n - 1 { MemHasGroup(h, n - 1, p); }
  }
}
