/** The compaction loop: which entries it drops, how it splits outputs, and why reads survive it. */
module Compactions {
  import opened Dbformat
  import opened Reads

  /** Some file at level `from` or deeper has `k` inside its user-key range. */
  ghost predicate CoveredFrom(v: Version, from: nat, k: UserKey) {
    exists l, i :: from <= l < |v| && 0 <= i < |v[l]| && v[l][i].CoversUser(k)
  }

  /** An earlier (newer) entry of the same user key is already visible at the oldest snapshot. */
  ghost predicate Hidden(input: seq<Entry>, i: nat, snapshot: nat)
    requires i < |input|
  {
    exists j :: 0 <= j < i && Visible(input[j], input[i].key.user, snapshot)
  }

  ghost predicate Dropped(input: seq<Entry>, i: nat, snapshot: nat, v: Version, level: nat)
    requires i < |input|
  {
    || Hidden(input, i, snapshot)
    || (&& input[i].key.kind.Deletion?
        && input[i].key.sequence <= snapshot
        && !CoveredFrom(v, level + 2, input[i].key.user))
  }

  /** What the loop writes for the first `n` inputs, in order. */
  ghost function Survivors(input: seq<Entry>, n: nat, snapshot: nat, v: Version, level: nat): seq<Entry>
    requires n <= |input|
  {
    if n == 0 then []
    else
      var rest := Survivors(input, n - 1, snapshot, v, level);
      if Dropped(input, n - 1, snapshot, v, level) then rest else rest + [input[n - 1]]
  }

  lemma {:induction false} SurvivorsAre(input: seq<Entry>, n: nat, snapshot: nat, v: Version, level: nat)
    requires n <= |input|
    ensures forall e :: e in Survivors(input, n, snapshot, v, level) <==>
              exists i :: 0 <= i < n && input[i] == e && !Dropped(input, i, snapshot, v, level)
  {
    if n > 0 {
      SurvivorsAre(input, n - 1, snapshot, v, level);
      var rest := Survivors(input, n - 1, snapshot, v, level);
      forall e
        ensures e in Survivors(input, n, snapshot, v, level) <==>
                exists i :: 0 <= i < n && input[i] == e && !Dropped(input, i, snapshot, v, level)
      {
        if e in Survivors(input, n, snapshot, v, level) && e !in rest {
          assert input[n - 1] == e && !Dropped(input, n - 1, snapshot, v, level);
        }
      }
    }
  }

  ghost predicate AllBefore(es: seq<Entry>, key: InternalKey) { forall i :: 0 <= i < |es| ==> Less(es[i].key, key) }

  /** What the loop writes is in order, and before all that it has yet to read. */
  lemma {:induction false} SurvivorsSorted(input: seq<Entry>, n: nat, snapshot: nat, v: Version, level: nat)
    requires n <= |input| && Sorted(input)
    ensures Sorted(Survivors(input, n, snapshot, v, level))
    ensures forall j :: n <= j < |input| ==> AllBefore(Survivors(input, n, snapshot, v, level), input[j].key)
  {
    if n > 0 {
      SurvivorsSorted(input, n - 1, snapshot, v, level);
      assert AllBefore(Survivors(input, n - 1, snapshot, v, level), input[n - 1].key);
      forall j | n <= j < |input| ensures AllBefore(Survivors(input, n, snapshot, v, level), input[j].key) {
        assert AllBefore(Survivors(input, n - 1, snapshot, v, level), input[j].key);
      }
    }
  }

  datatype Output = Output(smallest: InternalKey, largest: InternalKey, entries: seq<Entry>) {
    predicate Valid() {
      |entries| > 0 && smallest == entries[0].key && largest == entries[|entries| - 1].key
    }
  }

  function Concat(outputs: seq<Output>): seq<Entry> {
    if |outputs| == 0 then [] else Concat(outputs[..|outputs| - 1]) + outputs[|outputs| - 1].entries
  }

  // ---- where outputs end ---------------------------------------------------------------------------

  /** How many files end before `key`, up to the first that does not. */
  ghost function Cursor(files: seq<File>, i: nat, key: InternalKey): (p: nat)
    requires i <= |files|
    ensures i <= p <= |files| && (p < |files| ==> AtMost(key, files[p].largest))
    ensures forall j :: i <= j < p ==> Less(files[j].largest, key)
    decreases |files| - i
  {
    if i == |files| || AtMost(key, files[i].largest) then i else Cursor(files, i + 1, key)
  }

  /** The merged input of a compaction and the files two levels down that its outputs will have to be merged with. */
  datatype Overlap = Overlap(input: seq<Entry>, grandparents: seq<File>, limit: nat) {
    /** The bytes of grandparents that end between two keys. */
    ghost function Passed(m: nat, n: nat): nat
      requires m < |input| && n < |input|
    {
      SizeBetween(grandparents, Cursor(grandparents, 0, input[m].key), Cursor(grandparents, 0, input[n].key))
    }

    /** The last key before `n` at which to stop, or the first key of all. */
    ghost function LastStop(n: nat): (m: nat)
      requires n <= |input|
      ensures m == 0 || m < n
    {
      if n <= 1 then 0 else if Passed(LastStop(n - 1), n - 1) > limit then n - 1 else LastStop(n - 1)
    }

    /** More bytes than the limit have been passed since the last stop. */
    ghost predicate StopAt(n: nat)
      requires n < |input|
    {
      Passed(LastStop(n), n) > limit
    }

    ghost predicate StopIn(lo: InternalKey, hi: InternalKey) {
      exists m :: 0 <= m < |input| && StopAt(m) && Less(lo, input[m].key) && AtMost(input[m].key, hi)
    }
  }

  /** When an output is full. */
  datatype Sizes = Sizes(fileSize: seq<Entry> -> nat, limit: nat) {
    ghost predicate Full(es: seq<Entry>) { fileSize(es) >= limit }

    /** It was not full before its last entry. */
    ghost predicate JustFull(es: seq<Entry>) { forall m :: 0 < m < |es| ==> !Full(es[..m]) }
  }

  /** No output goes on when it is full or past a stop, and none ends before that. */
  ghost predicate CutRight(outputs: seq<Output>, o: Overlap, s: Sizes) {
    && (forall k :: 0 <= k < |outputs| ==> s.JustFull(outputs[k].entries))
    && (forall k :: 0 <= k < |outputs| ==> !o.StopIn(outputs[k].smallest, outputs[k].largest))
    && (forall k :: 0 <= k < |outputs| - 1 ==> CutBetween(outputs[k], outputs[k + 1], o, s))
  }

  ghost predicate CutBetween(a: Output, b: Output, o: Overlap, s: Sizes) {
    s.Full(a.entries) || o.StopIn(a.largest, b.smallest)
  }

  /** The last closed output is rightly closed, whatever key comes next. */
  ghost predicate Due(a: Output, o: Overlap, s: Sizes, k: nat) {
    s.Full(a.entries) || exists m :: 0 <= m < k && m < |o.input| && o.StopAt(m) && Less(a.largest, o.input[m].key)
  }

  /** No stop before `k` came after the open output's first key. */
  ghost predicate StillOpen(a: Output, o: Overlap, n: nat, k: nat) {
    && (forall m :: 0 <= m < k && m < |o.input| && o.StopAt(m) ==> AtMost(o.input[m].key, a.smallest))
    && (forall j :: n <= j < |o.input| ==> Less(a.largest, o.input[j].key))
  }

  /** `n` keys are written, and `k` have been looked at for a stop. */
  ghost predicate CutSoFar(outputs: seq<Output>, builder: seq<Output>, o: Overlap, s: Sizes, n: nat, k: nat) {
    && |builder| <= 1 && CutRight(outputs + builder, o, s)
    && (|builder| == 0 && |outputs| > 0 ==> Due(outputs[|outputs| - 1], o, s, k))
    && (|builder| > 0 ==> StillOpen(builder[0], o, n, k))
  }

  lemma NothingCut(o: Overlap, s: Sizes)
    ensures CutSoFar([], [], o, s, 0, 0) && Tracked(o, 0, 0, false, 0)
  {
  }

  /** A key without a stop, or a stop with no output open. */
  lemma NoCut(outputs: seq<Output>, builder: seq<Output>, o: Overlap, s: Sizes, n: nat)
    requires CutSoFar(outputs, builder, o, s, n, n) && n < |o.input| && (o.StopAt(n) ==> |builder| == 0)
    ensures CutSoFar(outputs, builder, o, s, n, n + 1)
  {
    hide CutRight, Overlap.StopAt;
  }

  /** The output is closed at a stop. */
  lemma StopCut(outputs: seq<Output>, builder: seq<Output>, o: Overlap, s: Sizes, n: nat)
    requires CutSoFar(outputs, builder, o, s, n, n) && n < |o.input| && o.StopAt(n) && |builder| == 1
    ensures CutSoFar(outputs + builder, [], o, s, n, n + 1)
  {
    hide CutRight, Overlap.StopAt;
    assert outputs + builder + [] == outputs + builder;
  }

  /** The output is closed when it is full. */
  lemma FullCut(outputs: seq<Output>, builder: seq<Output>, o: Overlap, s: Sizes, n: nat)
    requires CutSoFar(outputs, builder, o, s, n, n) && |builder| == 1 && s.Full(builder[0].entries)
    ensures CutSoFar(outputs + builder, [], o, s, n, n)
  {
    hide CutRight, Overlap.StopAt;
    assert outputs + builder + [] == outputs + builder;
  }

  lemma DropCut(outputs: seq<Output>, builder: seq<Output>, o: Overlap, s: Sizes, n: nat)
    requires CutSoFar(outputs, builder, o, s, n, n + 1)
    ensures CutSoFar(outputs, builder, o, s, n + 1, n + 1)
  {
    hide CutRight, Overlap.StopAt;
  }

  /** An entry opens an output. */
  lemma OpenCut(outputs: seq<Output>, a: Output, o: Overlap, s: Sizes, n: nat)
    requires CutSoFar(outputs, [], o, s, n, n + 1) && n < |o.input| && Sorted(o.input)
    requires a == Output(o.input[n].key, o.input[n].key, [o.input[n]])
    ensures CutSoFar(outputs, [a], o, s, n + 1, n + 1)
  {
    OpenStops(o, n, o.input[n].key);
    if |outputs| > 0 { DueBefore(outputs[|outputs| - 1], a, o, s, n); }
    hide Overlap.StopAt, Overlap.StopIn, Sizes.Full, Due, CutBetween;
    assert outputs + [] == outputs;
    hide CutRight;
    LastCut(outputs, [], a, o, s);
    assert forall j :: n < j < |o.input| ==> Less(o.input[n].key, o.input[j].key);
  }

  /** An entry goes on with the open output. */
  lemma GrowCut(outputs: seq<Output>, b: Output, o: Overlap, s: Sizes, n: nat)
    requires CutSoFar(outputs, [b], o, s, n, n + 1) && n < |o.input| && Sorted(o.input) && !s.Full(b.entries)
    ensures CutSoFar(outputs, [Output(b.smallest, o.input[n].key, b.entries + [o.input[n]])], o, s, n + 1, n + 1)
  {
    var a := Output(b.smallest, o.input[n].key, b.entries + [o.input[n]]);
    assert (outputs + [b])[|outputs|] == b;
    GrowJustFull(b.entries, o.input[n], s);
    GrowStops(b, o, n);
    hide Overlap.StopAt, Overlap.StopIn, Sizes.Full, Due, CutRight, CutBetween;
    LastCut(outputs, [b], a, o, s);
    assert forall j :: n < j < |o.input| ==> Less(o.input[n].key, o.input[j].key);
  }

  /** Nothing lies strictly after a key and at it, and every stop so far is at or before it. */
  lemma OpenStops(o: Overlap, n: nat, key: InternalKey)
    requires n < |o.input| && Sorted(o.input) && key == o.input[n].key
    ensures !o.StopIn(key, key)
    ensures forall m :: 0 <= m <= n ==> AtMost(o.input[m].key, key)
  {
    forall m | 0 <= m <= n ensures AtMost(o.input[m].key, key) {
      assert m < n ==> Less(o.input[m].key, o.input[n].key);
    }
    forall m | 0 <= m < |o.input| ensures !(Less(key, o.input[m].key) && AtMost(o.input[m].key, key)) {
    }
    hide Overlap.StopAt;
  }

  lemma DueBefore(a: Output, b: Output, o: Overlap, s: Sizes, n: nat)
    requires Due(a, o, s, n + 1) && n < |o.input| && Sorted(o.input) && b.smallest == o.input[n].key
    ensures CutBetween(a, b, o, s)
  {
    hide Sorted;
    forall m | 0 <= m <= n ensures AtMost(o.input[m].key, o.input[n].key) { SortedAt(o.input, m, n); }
    if !s.Full(a.entries) {
      hide Overlap.StopAt;
      var m :| 0 <= m <= n && m < |o.input| && o.StopAt(m) && Less(a.largest, o.input[m].key);
    }
  }

  lemma SortedAt(es: seq<Entry>, m: nat, n: nat)
    requires Sorted(es) && m <= n < |es|
    ensures AtMost(es[m].key, es[n].key)
  {
    assert m < n ==> Less(es[m].key, es[n].key);
  }

  lemma GrowJustFull(es: seq<Entry>, e: Entry, s: Sizes)
    requires s.JustFull(es) && !s.Full(es)
    ensures s.JustFull(es + [e])
  {
    forall m | 0 < m < |es + [e]| ensures !s.Full((es + [e])[..m]) {
      assert (es + [e])[..m] == if m == |es| then es else es[..m];
    }
  }

  lemma GrowStops(a: Output, o: Overlap, n: nat)
    requires StillOpen(a, o, n, n + 1) && n < |o.input| && Sorted(o.input)
    ensures !o.StopIn(a.smallest, o.input[n].key)
  {
    forall m | 0 <= m < |o.input| && o.StopAt(m) && Less(a.smallest, o.input[m].key)
      ensures Less(o.input[n].key, o.input[m].key)
    {
      assert m > n;
    }
  }

  /** Only the last output has changed. */
  lemma LastCut(outputs: seq<Output>, builder: seq<Output>, a: Output, o: Overlap, s: Sizes)
    requires CutRight(outputs + builder, o, s) && |builder| <= 1 && s.JustFull(a.entries)
    requires !o.StopIn(a.smallest, a.largest)
    requires |builder| == 1 ==> a.smallest == builder[0].smallest
    requires |builder| == 0 && |outputs| > 0 ==> CutBetween(outputs[|outputs| - 1], a, o, s)
    ensures CutRight(outputs + [a], o, s)
  {
    var all, was := outputs + [a], outputs + builder;
    assert forall k :: 0 <= k < |outputs| ==> all[k] == was[k];
    forall k | 0 <= k < |all| - 1 ensures CutBetween(all[k], all[k + 1], o, s) {
      if k + 1 < |outputs| || |builder| == 1 { assert CutBetween(was[k], was[k + 1], o, s); }
    }
  }

  ghost predicate OutputsValid(outputs: seq<Output>) { forall k :: 0 <= k < |outputs| ==> outputs[k].Valid() }

  lemma {:induction false} ConcatFirst(outputs: seq<Output>)
    requires |outputs| > 0
    ensures Concat(outputs) == outputs[0].entries + Concat(outputs[1..])
  {
    var n := |outputs| - 1;
    if n > 0 {
      ConcatFirst(outputs[..n]);
      assert outputs[..n][1..] == outputs[1..][..n - 1];
    }
  }

  /** An output cannot go on where another one, cut right, ends. */
  lemma EndsHere(x: Output, next: Output, y: Output, o: Overlap, s: Sizes)
    requires x.Valid() && next.Valid() && y.Valid() && Sorted(y.entries) && |x.entries| < |y.entries|
    requires x.entries == y.entries[..|x.entries|] && next.entries[0] == y.entries[|x.entries|]
    requires CutBetween(x, next, o, s)
    ensures !s.JustFull(y.entries) || o.StopIn(y.smallest, y.largest)
  {
    var n, z := |x.entries|, |y.entries| - 1;
    if s.Full(x.entries) {
      assert s.Full(y.entries[..n]);
    } else {
      SortedAt(y.entries, 0, n - 1);
      SortedAt(y.entries, n, z);
      WiderStop(o, x.largest, next.smallest, y.smallest, y.largest);
    }
  }

  lemma WiderStop(o: Overlap, a: InternalKey, b: InternalKey, lo: InternalKey, hi: InternalKey)
    requires o.StopIn(a, b) && AtMost(lo, a) && AtMost(b, hi)
    ensures o.StopIn(lo, hi)
  {
    hide Overlap.StopAt;
    var m :| 0 <= m < |o.input| && o.StopAt(m) && Less(a, o.input[m].key) && AtMost(o.input[m].key, b);
    assert Less(lo, o.input[m].key) && AtMost(o.input[m].key, hi);
  }

  /** The first outputs of two cuts of one sequence: the first is no shorter. */
  lemma FirstAtLeast(a: seq<Output>, b: seq<Output>, o: Overlap, s: Sizes)
    requires OutputsValid(a) && OutputsValid(b) && CutRight(a, o, s) && CutRight(b, o, s) && Concat(a) == Concat(b)
    requires |a| > 0 && |b| > 0 && Sorted(Concat(b))
    ensures |a[0].entries| >= |b[0].entries|
  {
    assert |a| > 1 ==> a[1].Valid();
    hide CutRight, Sorted, OutputsValid;
    var all := Concat(b);
    ConcatFirst(a);
    ConcatFirst(b);
    if |a| > 1 {
      ConcatFirst(a[1..]);
      assert a[1..][0] == a[1];
      CutFacts(a, b, o, s);
      NotShorter(a[0], a[1], Concat(a[1..][1..]), b[0], Concat(b[1..]), all, o, s);
    } else {
      assert a[1..] == [];
      assert all == a[0].entries + [] == a[0].entries;
    }
  }

  lemma NotShorter(x: Output, next: Output, more: seq<Entry>, y: Output, rest: seq<Entry>, all: seq<Entry>, o: Overlap,
                   s: Sizes)
    requires x.Valid() && next.Valid() && y.Valid() && Sorted(all)
    requires all == x.entries + (next.entries + more) && all == y.entries + rest
    requires CutBetween(x, next, o, s) && s.JustFull(y.entries) && !o.StopIn(y.smallest, y.largest)
    ensures |x.entries| >= |y.entries|
  {
    hide Sorted, CutBetween, Sizes.JustFull, Overlap.StopIn;
    StartsWith(x.entries, next.entries + more, all);
    StartsWith(y.entries, rest, all);
    NextStarts(x.entries, next.entries, more, all);
    if |x.entries| < |y.entries| {
      assert y.entries[..|x.entries|] == all[..|x.entries|];
      EndsHere(x, next, y, o, s);
    }
  }

  lemma CutFacts(a: seq<Output>, b: seq<Output>, o: Overlap, s: Sizes)
    requires CutRight(a, o, s) && CutRight(b, o, s) && |a| > 1 && |b| > 0
    requires OutputsValid(a) && OutputsValid(b)
    ensures CutBetween(a[0], a[1], o, s) && s.JustFull(b[0].entries) && !o.StopIn(b[0].smallest, b[0].largest)
    ensures a[0].Valid() && a[1].Valid() && b[0].Valid()
  {
  }

  lemma StartsWith(x: seq<Entry>, rest: seq<Entry>, all: seq<Entry>)
    requires x + rest == all
    ensures |x| <= |all| && x == all[..|x|] && rest == all[|x|..] && (Sorted(all) ==> Sorted(x) && Sorted(rest))
  {
    assert forall i :: 0 <= i < |rest| ==> rest[i] == all[|x| + i];
  }

  lemma NextStarts(x: seq<Entry>, next: seq<Entry>, rest: seq<Entry>, all: seq<Entry>)
    requires x + (next + rest) == all && |next| > 0
    ensures |x| < |all| && all[|x|] == next[0]
  {
  }

  /** There is only one right way to cut a sorted sequence into outputs. */
  lemma {:induction false} CutUnique(a: seq<Output>, b: seq<Output>, o: Overlap, s: Sizes)
    requires OutputsValid(a) && OutputsValid(b) && CutRight(a, o, s) && CutRight(b, o, s) && Concat(a) == Concat(b)
    requires Sorted(Concat(b))
    ensures a == b
  {
    hide CutRight, Sorted, OutputsValid, Output.Valid;
    if |a| > 0 && |b| > 0 {
      FirstSame(a, b, o, s);
      RestCut(a, o, s);
      RestCut(b, o, s);
      CutUnique(a[1..], b[1..], o, s);
      assert a == [a[0]] + a[1..] && b == [b[0]] + b[1..];
    } else {
      if |a| > 0 { NotNothing(a); }
      if |b| > 0 { NotNothing(b); }
    }
  }

  lemma NotNothing(a: seq<Output>)
    requires OutputsValid(a) && |a| > 0
    ensures |Concat(a)| > 0
  {
    ConcatFirst(a);
  }

  lemma FirstSame(a: seq<Output>, b: seq<Output>, o: Overlap, s: Sizes)
    requires OutputsValid(a) && OutputsValid(b) && CutRight(a, o, s) && CutRight(b, o, s) && Concat(a) == Concat(b)
    requires |a| > 0 && |b| > 0 && Sorted(Concat(b))
    ensures a[0] == b[0] && Concat(a[1..]) == Concat(b[1..]) && Sorted(Concat(b[1..]))
  {
    assert a[0].Valid() && b[0].Valid();
    hide CutRight, Sorted, OutputsValid;
    FirstAtLeast(a, b, o, s);
    FirstAtLeast(b, a, o, s);
    ConcatFirst(a);
    ConcatFirst(b);
    StartsWith(a[0].entries, Concat(a[1..]), Concat(b));
    StartsWith(b[0].entries, Concat(b[1..]), Concat(b));
  }

  lemma RestCut(a: seq<Output>, o: Overlap, s: Sizes)
    requires |a| > 0 && CutRight(a, o, s) && OutputsValid(a)
    ensures CutRight(a[1..], o, s) && OutputsValid(a[1..])
  {
    forall k | 0 <= k < |a[1..]| - 1 ensures CutBetween(a[1..][k], a[1..][k + 1], o, s) {
      assert CutBetween(a[k + 1], a[k + 2], o, s);
    }
  }

  /** What ShouldStopBefore keeps: the cursor is at key `n - 1`, and the bytes are those passed since the last stop. */
  ghost predicate Tracked(o: Overlap, n: nat, index: nat, seen: bool, bytes: nat)
    requires n <= |o.input|
  {
    && seen == (n > 0) && index == (if n == 0 then 0 else Cursor(o.grandparents, 0, o.input[n - 1].key))
    && bytes == if n == 0 then 0 else o.Passed(o.LastStop(n), n - 1)
  }

  lemma {:induction false} SizeAdds(files: seq<File>, i: nat, j: nat, k: nat)
    requires i <= j <= k <= |files|
    ensures SizeBetween(files, i, k) == SizeBetween(files, i, j) + SizeBetween(files, j, k)
    decreases k
  {
    if j < k { SizeAdds(files, i, j, k - 1); }
  }

  /** The cursor moves on from where it stands. */
  lemma CursorMoves(files: seq<File>, p: nat, q: nat, key: InternalKey)
    requires p <= q <= |files| && (forall j :: 0 <= j < p ==> Less(files[j].largest, key))
    requires (forall j :: p <= j < q ==> Less(files[j].largest, key))
    requires q < |files| ==> AtMost(key, files[q].largest)
    ensures Cursor(files, 0, key) == q
  {
  }

  lemma CursorsAscend(o: Overlap, m: nat, n: nat)
    requires Sorted(o.input) && m <= n < |o.input|
    ensures Cursor(o.grandparents, 0, o.input[m].key) <= Cursor(o.grandparents, 0, o.input[n].key)
  {
    var p, q := Cursor(o.grandparents, 0, o.input[m].key), Cursor(o.grandparents, 0, o.input[n].key);
    assert m < n ==> Less(o.input[m].key, o.input[n].key);
    assert forall j :: 0 <= j < p ==> Less(o.grandparents[j].largest, o.input[n].key);
  }

  /** The stop that the byte count decides is the one that the keys and the grandparents define. */
  lemma StopIs(o: Overlap, n: nat, index: nat, seen: bool, bytes: nat, index': nat)
    requires Sorted(o.input) && n < |o.input| && Tracked(o, n, index, seen, bytes)
    requires index <= index' <= |o.grandparents|
    requires forall i :: index <= i < index' ==> Less(o.grandparents[i].largest, o.input[n].key)
    requires index' < |o.grandparents| ==> AtMost(o.input[n].key, o.grandparents[index'].largest)
    ensures var bytes' := bytes + if seen then SizeBetween(o.grandparents, index, index') else 0;
            && (bytes' > o.limit <==> o.StopAt(n))
            && Tracked(o, n + 1, index', true, if bytes' > o.limit then 0 else bytes')
  {
    if n > 0 { assert Less(o.input[n - 1].key, o.input[n].key); }
    CursorMoves(o.grandparents, index, index', o.input[n].key);
    if n > 0 {
      var l := o.LastStop(n);
      CursorsAscend(o, l, n - 1);
      SizeAdds(o.grandparents, Cursor(o.grandparents, 0, o.input[l].key), index, index');
    }
  }

  /** class Compaction of version_set.cc: the input version and the cursors the loop advances. */
  class Compaction {
    const level: nat
    const version: Version
    const grandparents: seq<File>
    const maxOverlap: nat
    var levelPtrs: seq<nat>
    var grandparentIndex: nat
    var seenKey: bool
    var overlappedBytes: nat

    constructor (level: nat, version: Version, grandparents: seq<File>, maxOverlap: nat)
      requires ValidVersion(version)
      ensures this.level == level && this.version == version && Valid()
      ensures this.grandparents == grandparents && this.maxOverlap == maxOverlap && Unused()
      ensures forall k :: CursorsBehind(k)
    {
      this.level, this.version, this.grandparents, this.maxOverlap := level, version, grandparents, maxOverlap;
      levelPtrs := seq(NUM_LEVELS, _ => 0);
      grandparentIndex, seenKey, overlappedBytes := 0, false, 0;
    }

    ghost predicate Valid()
      reads this
    {
      && ValidVersion(version)
      && |levelPtrs| == NUM_LEVELS
      && (forall l :: 0 <= l < NUM_LEVELS ==> levelPtrs[l] <= |version[l]|)
    }

    /** No key was asked for yet. */
    ghost predicate Unused()
      reads this
    {
      grandparentIndex == 0 && !seenKey && overlappedBytes == 0
    }

    /** Every file a cursor has passed ends before `k`. */
    ghost predicate CursorsBehind(k: UserKey)
      reads this
      requires Valid()
    {
      forall l, i :: 0 <= l < NUM_LEVELS && 0 <= i < levelPtrs[l] ==> version[l][i].largest.user < k
    }

    method IsBaseLevelForKey(k: UserKey) returns (base: bool)
      requires Valid() && CursorsBehind(k)
      modifies this`levelPtrs
      ensures Valid() && CursorsBehind(k)
      ensures base <==> !CoveredFrom(version, level + 2, k)
    {
      var lvl := level + 2;
      while lvl < NUM_LEVELS
        invariant level + 2 <= lvl
        invariant Valid() && CursorsBehind(k)
        invariant forall l, i :: level + 2 <= l < lvl && l < NUM_LEVELS && 0 <= i < |version[l]| ==>
                    !version[l][i].CoversUser(k)
      {
        var files := version[lvl];
        while levelPtrs[lvl] < |files|
          invariant Valid() && CursorsBehind(k)
          decreases |files| - levelPtrs[lvl]
        {
          var f := files[levelPtrs[lvl]];
          if k <= f.largest.user {
            if k >= f.smallest.user {
              assert CoveredFrom(version, level + 2, k);
              return false;
            }
            break;
          }
          levelPtrs := levelPtrs[lvl := levelPtrs[lvl] + 1];
        }
        PastCursorUncovered(files, levelPtrs[lvl], k);
        lvl := lvl + 1;
      }
      return true;
    }

    /** Stop the current output once it overlaps too many bytes of the level after next. */
    method ShouldStopBefore(key: InternalKey) returns (stop: bool)
      modifies this`grandparentIndex, this`seenKey, this`overlappedBytes
      ensures grandparentIndex >= old(grandparentIndex) && seenKey
      ensures old(grandparentIndex) <= |grandparents| ==> grandparentIndex <= |grandparents|
      ensures forall i :: old(grandparentIndex) <= i < grandparentIndex && i < |grandparents| ==>
                Less(grandparents[i].largest, key)
      ensures grandparentIndex < |grandparents| ==> AtMost(key, grandparents[grandparentIndex].largest)
      ensures var passed := SizeBetween(grandparents, old(grandparentIndex), grandparentIndex);
              var bytes := old(overlappedBytes) + if old(seenKey) then passed else 0;
              (stop <==> bytes > maxOverlap) && overlappedBytes == if stop then 0 else bytes
    {
      while grandparentIndex < |grandparents| && Less(grandparents[grandparentIndex].largest, key)
        invariant grandparentIndex >= old(grandparentIndex) && seenKey == old(seenKey)
        invariant old(grandparentIndex) <= |grandparents| ==> grandparentIndex <= |grandparents|
        invariant forall i :: old(grandparentIndex) <= i < grandparentIndex && i < |grandparents| ==>
                    Less(grandparents[i].largest, key)
        invariant var passed := SizeBetween(grandparents, old(grandparentIndex), grandparentIndex);
                  overlappedBytes == old(overlappedBytes) + if seenKey then passed else 0
      {
        if seenKey {
          overlappedBytes := overlappedBytes + grandparents[grandparentIndex].fileSize;
        }
        grandparentIndex := grandparentIndex + 1;
      }
      seenKey := true;
      if overlappedBytes > maxOverlap {
        overlappedBytes := 0;
        return true;
      }
      return false;
    }
  }

  /** The bytes of files `i` up to, not including, `j`. */
  ghost function SizeBetween(files: seq<File>, i: nat, j: nat): nat
    decreases j
  {
    if j <= i || j > |files| then 0 else SizeBetween(files, i, j - 1) + files[j - 1].fileSize
  }

  lemma PastCursorUncovered(files: Level, p: nat, k: UserKey)
    requires DisjointSorted(files) && p <= |files|
    requires forall i :: 0 <= i < p ==> files[i].largest.user < k
    requires p < |files| ==> k < files[p].smallest.user
    ensures forall i :: 0 <= i < |files| ==> !files[i].CoversUser(k)
  {
    forall i | p < i < |files|
      ensures k < files[i].smallest.user
    {
      assert Less(files[p].largest, files[i].smallest);
      InValidFile(files[p], files[p].entries[0]);
    }
  }

  lemma {:induction false} ConcatAppend(outputs: seq<Output>, o: Output)
    ensures Concat(outputs + [o]) == Concat(outputs) + o.entries
  {
    assert (outputs + [o])[..|outputs|] == outputs;
  }

  /** Everything written so far: the closed outputs and the open one, if any. */
  ghost function Written(outputs: seq<Output>, builder: seq<Output>): seq<Entry> { Concat(outputs + builder) }

  predicate WellFormed(outputs: seq<Output>, builder: seq<Output>) {
    |builder| <= 1 && forall i :: 0 <= i < |outputs + builder| ==> (outputs + builder)[i].Valid()
  }

  /** The drop decision for input `n`; `last` is the sequence of the previous entry of the same user key. */
  method ShouldDrop(c: Compaction, input: seq<Entry>, n: nat, last: nat, smallestSnapshot: nat) returns (drop: bool)
    requires c.Valid() && Sorted(input) && n < |input| && c.CursorsBehind(input[n].key.user)
    requires smallestSnapshot < MAX_SEQUENCE
    requires last == if n > 0 && input[n - 1].key.user == input[n].key.user then input[n - 1].key.sequence
               else MAX_SEQUENCE
    modifies c`levelPtrs
    ensures c.Valid() && c.CursorsBehind(input[n].key.user)
    ensures drop <==> Dropped(input, n, smallestSnapshot, c.version, c.level)
  {
    HiddenByLast(input, n, smallestSnapshot);
    drop := false;
    if last <= smallestSnapshot {
      drop := true;
    } else if input[n].key.kind.Deletion? && input[n].key.sequence <= smallestSnapshot {
      drop := c.IsBaseLevelForKey(input[n].key.user);
    }
  }

  /** DoCompactionWork: `input` is the merged input, `fileSize` the size the table builder reports. */
  method DoCompactionWork(c: Compaction, input: seq<Entry>, smallestSnapshot: nat,
                          fileSize: seq<Entry> -> nat, maxOutputFileSize: nat)
    returns (outputs: seq<Output>)
    requires c.Valid() && (|input| > 0 ==> c.CursorsBehind(input[0].key.user))
    requires Sorted(input) && smallestSnapshot < MAX_SEQUENCE
    modifies c
    ensures Concat(outputs) == Survivors(input, |input|, smallestSnapshot, c.version, c.level)
    ensures forall i :: 0 <= i < |outputs| ==> outputs[i].Valid()
    ensures old(c.Unused()) ==>
              CutRight(outputs, Overlap(input, c.grandparents, c.maxOverlap), Sizes(fileSize, maxOutputFileSize))
  {
    hide WellFormed, Written, Dropped, Tracked, CutSoFar, CutRight, Overlap.StopAt;
    ghost var o, s := Overlap(input, c.grandparents, c.maxOverlap), Sizes(fileSize, maxOutputFileSize);
    ghost var unused := c.Unused();
    NothingCut(o, s);
    NothingWritten();
    outputs := [];
    var builder: seq<Output> := [];
    var currentUserKey: UserKey := 0;
    var hasCurrentUserKey := false;
    var lastSequenceForKey := MAX_SEQUENCE;
    var n := 0;
    while n < |input|
      invariant 0 <= n <= |input| && c.Valid()
      invariant n < |input| ==> c.CursorsBehind(input[n].key.user)
      invariant hasCurrentUserKey <==> n > 0
      invariant n > 0 ==> currentUserKey == input[n - 1].key.user && lastSequenceForKey == input[n - 1].key.sequence
      invariant WellFormed(outputs, builder) && |builder| <= 1
      invariant Written(outputs, builder) == Survivors(input, n, smallestSnapshot, c.version, c.level)
      invariant |builder| > 0 ==> builder == [builder[0]]
      invariant unused ==> c.grandparentIndex <= |c.grandparents|
      invariant unused ==> Tracked(o, n, c.grandparentIndex, c.seenKey, c.overlappedBytes)
      invariant unused ==> CutSoFar(outputs, builder, o, s, n, n)
      invariant |builder| > 0 ==> fileSize(builder[0].entries) < maxOutputFileSize
    {
      var e := input[n];
      outputs, builder := CutBefore(c, outputs, builder, e, o, s, n, unused);
      if !hasCurrentUserKey || e.key.user != currentUserKey {
        currentUserKey, hasCurrentUserKey, lastSequenceForKey := e.key.user, true, MAX_SEQUENCE;
      }
      var drop := ShouldDrop(c, input, n, lastSequenceForKey, smallestSnapshot);
      lastSequenceForKey := e.key.sequence;
      if !drop {
        outputs, builder := KeepEntry(outputs, builder, e, fileSize, maxOutputFileSize, o, n, unused);
      } else {
        if unused { DropCut(outputs, builder, o, s, n); }
      }
      n := n + 1;
      assert n < |input| ==> Less(e.key, input[n].key);
    }
    if unused { EndCut(outputs, builder, o, s, n); }
    assert outputs + [] == outputs && (|builder| == 0 ==> builder == []);
    if |builder| > 0 {
      outputs, builder := Finish(outputs, builder);
    }
    AllClosed(outputs);
  }

  /** Closing the last output needs no reason. */
  lemma EndCut(outputs: seq<Output>, builder: seq<Output>, o: Overlap, s: Sizes, n: nat)
    requires CutSoFar(outputs, builder, o, s, n, n)
    ensures CutRight(outputs + builder, o, s)
  {
    hide CutRight;
  }

  lemma AddCut(outputs: seq<Output>, builder: seq<Output>, o: Overlap, s: Sizes, n: nat, a: Output)
    requires CutSoFar(outputs, builder, o, s, n, n + 1) && n < |o.input| && Sorted(o.input)
    requires |builder| > 0 ==> !s.Full(builder[0].entries)
    requires var e := o.input[n];
             a == if |builder| == 0 then Output(e.key, e.key, [e])
                  else Output(builder[0].smallest, e.key, builder[0].entries + [e])
    ensures CutSoFar(outputs, [a], o, s, n + 1, n + 1)
  {
    if |builder| == 0 {
      assert builder == [];
      OpenCut(outputs, a, o, s, n);
    } else {
      AtMostOne(outputs, builder, o, s, n);
      hide CutSoFar;
      GrowCut(outputs, builder[0], o, s, n);
    }
  }

  lemma AtMostOne(outputs: seq<Output>, builder: seq<Output>, o: Overlap, s: Sizes, n: nat)
    requires CutSoFar(outputs, builder, o, s, n, n + 1) && |builder| > 0
    ensures builder == [builder[0]]
  {
  }

  /** Close the open output if this key is past too many bytes of grandparents. */
  method CutBefore(c: Compaction, outputs0: seq<Output>, builder0: seq<Output>, e: Entry, ghost o: Overlap,
                   ghost s: Sizes, ghost n: nat, ghost unused: bool)
    returns (outputs: seq<Output>, builder: seq<Output>)
    requires WellFormed(outputs0, builder0) && n < |o.input| && e == o.input[n] && Sorted(o.input)
    requires o.grandparents == c.grandparents && o.limit == c.maxOverlap
    requires |builder0| > 0 ==> builder0 == [builder0[0]]
    requires unused ==> c.grandparentIndex <= |c.grandparents|
                        && Tracked(o, n, c.grandparentIndex, c.seenKey, c.overlappedBytes)
                        && CutSoFar(outputs0, builder0, o, s, n, n)
    modifies c`grandparentIndex, c`seenKey, c`overlappedBytes
    ensures WellFormed(outputs, builder) && Written(outputs, builder) == Written(outputs0, builder0)
    ensures builder == builder0 || builder == []
    ensures unused ==> c.grandparentIndex <= |c.grandparents|
                       && Tracked(o, n + 1, c.grandparentIndex, c.seenKey, c.overlappedBytes)
                       && CutSoFar(outputs, builder, o, s, n, n + 1)
  {
    hide WellFormed, Written, Tracked, CutSoFar, Overlap.StopAt, Sorted;
    outputs, builder := outputs0, builder0;
    ghost var index, seen, bytes := c.grandparentIndex, c.seenKey, c.overlappedBytes;
    var stop := c.ShouldStopBefore(e.key);
    if unused { StopIs(o, n, index, seen, bytes, c.grandparentIndex); }
    if stop && |builder| > 0 {
      if unused { StopCut(outputs, builder, o, s, n); }
      outputs, builder := Finish(outputs, builder);
    } else {
      if unused { NoCut(outputs, builder, o, s, n); }
    }
  }

  /** One kept entry: add it, and close the output if that fills it. */
  method KeepEntry(outputs0: seq<Output>, builder0: seq<Output>, e: Entry, fileSize: seq<Entry> -> nat,
                   maxOutputFileSize: nat, ghost o: Overlap, ghost n: nat, ghost unused: bool)
    returns (outputs: seq<Output>, builder: seq<Output>)
    requires WellFormed(outputs0, builder0) && n < |o.input| && e == o.input[n] && Sorted(o.input)
    requires |builder0| > 0 ==> builder0 == [builder0[0]] && fileSize(builder0[0].entries) < maxOutputFileSize
    requires unused ==> CutSoFar(outputs0, builder0, o, Sizes(fileSize, maxOutputFileSize), n, n + 1)
    ensures WellFormed(outputs, builder) && Written(outputs, builder) == Written(outputs0, builder0) + [e]
    ensures |builder| > 0 ==> builder == [builder[0]] && fileSize(builder[0].entries) < maxOutputFileSize
    ensures unused ==> CutSoFar(outputs, builder, o, Sizes(fileSize, maxOutputFileSize), n + 1, n + 1)
  {
    hide WellFormed, Written, CutSoFar, Sorted;
    ghost var s := Sizes(fileSize, maxOutputFileSize);
    outputs := outputs0;
    builder := AddEntry(outputs0, builder0, e);
    if unused { AddCut(outputs, builder0, o, s, n, builder[0]); }
    assert builder == [builder[0]];
    if fileSize(builder[0].entries) >= maxOutputFileSize {
      if unused { FullCut(outputs, builder, o, s, n + 1); }
      outputs, builder := Finish(outputs, builder);
    }
  }

  lemma NothingWritten()
    ensures WellFormed([], []) && Written([], []) == []
  {
  }

  lemma AllClosed(outputs: seq<Output>)
    requires WellFormed(outputs, [])
    ensures Written(outputs, []) == Concat(outputs) && forall i :: 0 <= i < |outputs| ==> outputs[i].Valid()
  {
    assert outputs + [] == outputs;
  }

  /** FinishCompactionOutputFile: close the open output. */
  method Finish(outputs: seq<Output>, builder: seq<Output>) returns (outputs': seq<Output>, builder': seq<Output>)
    requires |builder| == 1 && WellFormed(outputs, builder)
    ensures outputs' == outputs + builder && builder' == [] && WellFormed(outputs', builder')
    ensures Written(outputs', builder') == Written(outputs, builder)
  {
    outputs', builder' := outputs + builder, [];
    assert outputs' + builder' == outputs + builder;
  }

  /** Open an output if none is open, record the key range, add the entry. */
  method AddEntry(outputs: seq<Output>, builder: seq<Output>, e: Entry) returns (builder': seq<Output>)
    requires WellFormed(outputs, builder)
    ensures |builder'| == 1 && WellFormed(outputs, builder')
    ensures builder'[0] == if |builder| == 0 then Output(e.key, e.key, [e])
                           else Output(builder[0].smallest, e.key, builder[0].entries + [e])
    ensures builder'[0].entries == (if |builder| == 0 then [] else builder[0].entries) + [e]
    ensures Written(outputs, builder') == Written(outputs, builder) + [e]
  {
    if |builder| == 0 {
      builder' := [Output(e.key, e.key, [e])];
      assert outputs + builder == outputs;
    } else {
      assert (outputs + builder)[|outputs|].Valid();
      builder' := [Output(builder[0].smallest, e.key, builder[0].entries + [e])];
      assert builder == [builder[0]];
      ConcatAppend(outputs, builder[0]);
    }
    ConcatAppend(outputs, builder'[0]);
    forall i | 0 <= i < |outputs + builder'| ensures (outputs + builder')[i].Valid() {
      assert i < |outputs| ==> (outputs + builder')[i] == (outputs + builder)[i];
    }
  }

  /** The previous entry's sequence decides rule (A) for the whole run of one user key. */
  lemma HiddenByLast(input: seq<Entry>, n: nat, snapshot: nat)
    requires Sorted(input) && n < |input|
    ensures Hidden(input, n, snapshot) <==>
            n > 0 && input[n - 1].key.user == input[n].key.user && input[n - 1].key.sequence <= snapshot
  {
    if n > 0 && Visible(input[n - 1], input[n].key.user, snapshot) {
      assert Hidden(input, n, snapshot);
    }
    if j :| 0 <= j < n && Visible(input[j], input[n].key.user, snapshot) {
      assert j < n - 1 ==> Less(input[j].key, input[n - 1].key);
      assert Less(input[n - 1].key, input[n].key);
    }
  }
}
