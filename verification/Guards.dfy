/** PebblesDB guards: memtable flushes and compactions cut their output files at guard keys. */
module Guards {
  import opened Dbformat
  import opened Compactions

  ghost predicate Ascending(guards: seq<UserKey>) { forall i, j :: 0 <= i < j < |guards| ==> guards[i] <= guards[j] }

  /** Some keys lie before the guard and some at or after it. */
  ghost predicate Straddles(es: seq<Entry>, guard: UserKey) {
    (exists e :: e in es && e.key.user < guard) && (exists e :: e in es && e.key.user >= guard)
  }

  /** All keys lie between guard `i - 1` and guard `i`. */
  ghost predicate InSlot(es: seq<Entry>, guards: seq<UserKey>, i: nat) {
    forall e, j :: e in es && 0 <= j < |guards| ==> (j < i <==> guards[j] <= e.key.user)
  }

  lemma SlotsDoNotStraddle(es: seq<Entry>, guards: seq<UserKey>, i: nat)
    requires InSlot(es, guards, i)
    ensures forall j :: 0 <= j < |guards| ==> !Straddles(es, guards[j])
  {
  }

  datatype Table = Table(number: nat, smallest: InternalKey, largest: InternalKey, entries: seq<Entry>) {
    predicate Valid() { |entries| > 0 && smallest == entries[0].key && largest == entries[|entries| - 1].key }
  }

  function TableEntries(tables: seq<Table>): seq<Entry> {
    if |tables| == 0 then [] else TableEntries(tables[..|tables| - 1]) + tables[|tables| - 1].entries
  }

  /** Finished tables: valid, numbered in reserved order, one per slot, slots increasing. */
  ghost predicate Placed(tables: seq<Table>, slots: seq<nat>, guards: seq<UserKey>, reserved: seq<nat>) {
    && |slots| == |tables| <= |reserved|
    && (forall i :: 0 <= i < |tables| ==> tables[i].Valid() && tables[i].number == reserved[i])
    && (forall i :: 0 <= i < |tables| ==> slots[i] <= |guards| && InSlot(tables[i].entries, guards, slots[i]))
    && (forall i, j :: 0 <= i < j < |slots| ==> slots[i] < slots[j])
  }

  ghost predicate Below(slots: seq<nat>, n: nat) { forall i :: 0 <= i < |slots| ==> slots[i] < n }

  lemma {:induction false} FewSlots(slots: seq<nat>, n: nat)
    requires Below(slots, n) && forall i, j :: 0 <= i < j < |slots| ==> slots[i] < slots[j]
    ensures |slots| <= n
  {
    if |slots| > 0 {
      var m := |slots| - 1;
      assert Below(slots[..m], slots[m]);
      FewSlots(slots[..m], slots[m]);
    }
  }

  /** The table being written; no entries means none is open. */
  datatype Open = Open(number: nat, entries: seq<Entry>)

  /** Close the open table. */
  method Close(tables: seq<Table>, open: Open, ghost slots: seq<nat>, ghost slot: nat, ghost guards: seq<UserKey>,
               ghost reserved: seq<nat>)
    returns (tables': seq<Table>, ghost slots': seq<nat>)
    requires Placed(tables, slots, guards, reserved) && |open.entries| > 0
    requires |tables| < |reserved| && open.number == reserved[|tables|]
    requires slot <= |guards| && Below(slots, slot) && InSlot(open.entries, guards, slot)
    ensures Placed(tables', slots', guards, reserved) && Below(slots', slot + 1) && |tables'| == |tables| + 1
    ensures TableEntries(tables') == TableEntries(tables) + open.entries
  {
    var es := open.entries;
    tables', slots' := tables + [Table(open.number, es[0].key, es[|es| - 1].key, es)], slots + [slot];
    assert tables'[..|tables|] == tables;
  }

  /** Add an entry, opening a table with the next reserved number if none is open. */
  method Write(tables: seq<Table>, open: Open, e: Entry, reserved: seq<nat>, index: nat,
               fallback: nat) returns (open': Open, index': nat)
    requires index == |tables| + (if |open.entries| > 0 then 1 else 0)
    requires |tables| < |reserved| && (|open.entries| > 0 ==> open.number == reserved[|tables|])
    ensures open'.entries == open.entries + [e] && open'.number == reserved[|tables|] && index' == |tables| + 1
  {
    open', index' := open, index;
    if |open.entries| == 0 {
      if index < |reserved| {
        open', index' := open'.(number := reserved[index]), index + 1;
      } else {
        open' := open'.(number := fallback);
      }
    }
    open' := open'.(entries := open'.entries + [e]);
  }

  /** Every key from `p` on is at or after the first `i` guards. */
  ghost predicate Past(input: seq<Entry>, p: nat, guards: seq<UserKey>, i: nat) {
    forall q, j :: p <= q < |input| && 0 <= j < i && j < |guards| ==> guards[j] <= input[q].key.user
  }

  lemma UsersAscend(input: seq<Entry>, p: nat, q: nat)
    requires Sorted(input) && p <= q < |input|
    ensures input[p].key.user <= input[q].key.user
  {
  }

  /** The open table is numbered, and lies in slot `slot`, after all finished tables. */
  ghost predicate OpenOk(tables: seq<Table>, open: Open, slots: seq<nat>, slot: nat, guards: seq<UserKey>,
                         reserved: seq<nat>) {
    |open.entries| > 0 ==>
      (&& |tables| < |reserved| && open.number == reserved[|tables|]
       && slot <= |guards| && Below(slots, slot) && InSlot(open.entries, guards, slot))
  }

  /** `p` entries are written; finished tables lie before slot `i`. */
  ghost predicate Written(tables: seq<Table>, open: Open, index: nat, p: nat, slots: seq<nat>, slot: nat,
                          input: seq<Entry>, guards: seq<UserKey>, reserved: seq<nat>, i: nat) {
    && p <= |input| && TableEntries(tables) + open.entries == input[..p]
    && Placed(tables, slots, guards, reserved) && Below(slots, i)
    && index == |tables| + (if |open.entries| > 0 then 1 else 0)
    && OpenOk(tables, open, slots, slot, guards, reserved)
    && Past(input, p, guards, i)
  }

  lemma RoomForTable(slots: seq<nat>, tables: seq<Table>, guards: seq<UserKey>, reserved: seq<nat>, i: nat)
    requires Placed(tables, slots, guards, reserved) && Below(slots, i) && i <= |guards| && |reserved| == |guards| + 1
    ensures |tables| < |reserved|
  {
    FewSlots(slots, i);
  }

  /** A key before guard `i` and past all earlier ones lies in slot `i`. */
  lemma GrowSlot(es: seq<Entry>, e: Entry, guards: seq<UserKey>, i: nat)
    requires Ascending(guards) && InSlot(es, guards, i) && i <= |guards|
    requires (i < |guards| ==> e.key.user < guards[i]) && forall j :: 0 <= j < i ==> guards[j] <= e.key.user
    ensures InSlot(es + [e], guards, i)
  {
  }

  /** The entries of slot `i`: up to the first key at or after guard `i`, or all that is left after the last guard. */
  method FillSlot(input: seq<Entry>, guards: seq<UserKey>, reserved: seq<nat>, fallback: nat, i: nat,
                  tables0: seq<Table>, open0: Open, index0: nat, p0: nat, ghost slots0: seq<nat>, ghost slot0: nat)
    returns (tables: seq<Table>, open: Open, index: nat, p: nat, ghost slots: seq<nat>, ghost slot: nat)
    requires Sorted(input) && Ascending(guards) && |reserved| == |guards| + 1 && i <= |guards|
    requires Written(tables0, open0, index0, p0, slots0, slot0, input, guards, reserved, i)
    requires (open0.entries == [] || (p0 == |input| && slot0 < i))
    ensures Written(tables, open, index, p, slots, slot, input, guards, reserved, i + 1)
    ensures (open.entries == [] || (p == |input| && slot <= i))
    ensures i == |guards| ==> p == |input|
  {
    hide InSlot, Placed;
    tables, open, index, p, slots, slot := tables0, open0, index0, p0, slots0, slot0;
    if open.entries == [] { slot := i; }
    while p < |input|
      invariant Written(tables, open, index, p, slots, slot, input, guards, reserved, i) && slot <= i
      invariant (p < |input| ==> slot == i)
      decreases |input| - p
    {
      var e := input[p];
      if i == |guards| || e.key.user < guards[i] {
        open, index, p := WriteNext(input, guards, reserved, fallback, i, tables, open, index, p, slots);
      } else {
        PastGuard(input, p, guards, i);
        if |open.entries| > 0 {
          tables, slots := Close(tables, open, slots, slot, guards, reserved);
          open := open.(entries := []);
        }
        return;
      }
    }
  }

  lemma PastGuard(input: seq<Entry>, p: nat, guards: seq<UserKey>, i: nat)
    requires Sorted(input) && Past(input, p, guards, i) && p < |input| && i < |guards| && guards[i] <= input[p].key.user
    ensures Past(input, p, guards, i + 1)
  {
    forall q | p <= q < |input| ensures guards[i] <= input[q].key.user { UsersAscend(input, p, q); }
  }

  method WriteNext(input: seq<Entry>, guards: seq<UserKey>, reserved: seq<nat>, fallback: nat, i: nat,
                   tables: seq<Table>, open0: Open, index0: nat, p0: nat, ghost slots: seq<nat>)
    returns (open: Open, index: nat, p: nat)
    requires Ascending(guards) && |reserved| == |guards| + 1 && i <= |guards| && p0 < |input|
    requires i < |guards| ==> input[p0].key.user < guards[i]
    requires Written(tables, open0, index0, p0, slots, i, input, guards, reserved, i)
    ensures p == p0 + 1 && Written(tables, open, index, p, slots, i, input, guards, reserved, i)
  {
    hide Placed;
    RoomForTable(slots, tables, guards, reserved, i);
    GrowSlot(open0.entries, input[p0], guards, i);
    hide InSlot, Ascending;
    open, index := Write(tables, open0, input[p0], reserved, index0, fallback);
    p := p0 + 1;
    assert input[..p] == input[..p0] + [input[p0]];
    assert TableEntries(tables) + open.entries == TableEntries(tables) + open0.entries + [input[p0]];
  }

  /** BuildLevel0Tables: the tables hold the input in order, one per non-empty slot between guards, numbered from the
      reserved numbers, of which there are enough. */
  method BuildLevel0Tables(input: seq<Entry>, guards: seq<UserKey>, reserved: seq<nat>, fallback: nat)
    returns (tables: seq<Table>, ghost slots: seq<nat>)
    requires Sorted(input) && Ascending(guards) && |reserved| == |guards| + 1
    ensures TableEntries(tables) == input && Placed(tables, slots, guards, reserved) && |tables| <= |guards| + 1
    ensures forall t, j :: 0 <= t < |tables| && 0 <= j < |guards| ==> !Straddles(tables[t].entries, guards[j])
  {
    var open, index: nat, p: nat := Open(0, []), 0, 0;
    ghost var slot: nat := 0;
    tables, slots := [], [];
    for i := 0 to |guards|
      invariant Written(tables, open, index, p, slots, slot, input, guards, reserved, i)
      invariant open.entries == [] || (p == |input| && slot < i)
    {
      tables, open, index, p, slots, slot :=
        FillSlot(input, guards, reserved, fallback, i, tables, open, index, p, slots, slot);
    }
    tables, open, slots := CloseIfOpen(tables, open, slots, slot, guards, reserved, |guards|);
    tables, open, index, p, slots, slot :=
      FillSlot(input, guards, reserved, fallback, |guards|, tables, open, index, p, slots, slot);
    tables, open, slots := CloseIfOpen(tables, open, slots, slot, guards, reserved, |guards| + 1);
    assert input[..p] == input;
    AllPlaced(tables, slots, guards, reserved);
  }

  method CloseIfOpen(tables0: seq<Table>, open0: Open, ghost slots0: seq<nat>, ghost slot: nat,
                     ghost guards: seq<UserKey>, ghost reserved: seq<nat>, ghost i: nat)
    returns (tables: seq<Table>, open: Open, ghost slots: seq<nat>)
    requires Placed(tables0, slots0, guards, reserved) && Below(slots0, i)
    requires OpenOk(tables0, open0, slots0, slot, guards, reserved)
    requires open0.entries == [] || slot < i
    ensures Placed(tables, slots, guards, reserved) && Below(slots, i) && open.entries == []
    ensures TableEntries(tables) == TableEntries(tables0) + open0.entries
    ensures |tables| == |tables0| + if |open0.entries| > 0 then 1 else 0
  {
    hide Placed, InSlot;
    tables, open, slots := tables0, open0, slots0;
    if |open.entries| > 0 {
      tables, slots := Close(tables, open, slots, slot, guards, reserved);
      open := open.(entries := []);
    }
  }

  lemma AllPlaced(tables: seq<Table>, slots: seq<nat>, guards: seq<UserKey>, reserved: seq<nat>)
    requires Placed(tables, slots, guards, reserved) && Below(slots, |guards| + 1)
    ensures |tables| <= |guards| + 1
    ensures forall t, j :: 0 <= t < |tables| && 0 <= j < |guards| ==> !Straddles(tables[t].entries, guards[j])
  {
    FewSlots(slots, |guards| + 1);
    forall t | 0 <= t < |tables| ensures forall j :: 0 <= j < |guards| ==> !Straddles(tables[t].entries, guards[j]) {
      SlotsDoNotStraddle(tables[t].entries, guards, slots[t]);
    }
  }

  /** WriteLevel0TableGuards: the numbers it hands back, those of the tables and the unused ones, are exactly the
      reserved ones. */
  method WriteLevel0TableGuards(input: seq<Entry>, guards: seq<UserKey>, reserved: seq<nat>, fallback: nat)
    returns (tables: seq<Table>, numbers: seq<nat>)
    requires Sorted(input) && Ascending(guards) && |reserved| == |guards| + 1
    ensures TableEntries(tables) == input && numbers == reserved
  {
    ghost var slots;
    tables, slots := BuildLevel0Tables(input, guards, reserved, fallback);
    numbers := [];
    for i := 0 to |tables|
      invariant numbers == reserved[..i]
    {
      numbers := numbers + [tables[i].number];
    }
    for i := |tables| to |guards| + 1
      invariant numbers == reserved[..i]
    {
      numbers := numbers + [reserved[i]];
    }
  }

  /** The entries the loop keeps. */
  function Kept(input: seq<Entry>, drop: seq<bool>, n: nat): seq<Entry>
    requires n <= |input| && n <= |drop|
  {
    if n == 0 then [] else Kept(input, drop, n - 1) + if drop[n - 1] then [] else [input[n - 1]]
  }

  /** An output file that lies between two guards. */
  ghost predicate Fits(o: Output, guards: seq<UserKey>) {
    forall j :: 0 <= j < |guards| ==> !Straddles(o.entries, guards[j])
  }

  ghost predicate AllFit(outputs: seq<Output>, guards: seq<UserKey>) {
    forall i :: 0 <= i < |outputs| ==> Fits(outputs[i], guards)
  }

  /** The open output lies in the slot before the current guard. */
  ghost predicate BuilderFits(builder: seq<Output>, guards: seq<UserKey>, current: nat) {
    forall i :: 0 <= i < |builder| ==> InSlot(builder[i].entries, guards, current)
  }

  // ---- where outputs end ---------------------------------------------------------------------------

  /** Boundaries at which an output may end once it is large enough. */
  datatype Crossings = Crossings(input: seq<Entry>, crosses: seq<bool>, fileSize: seq<Entry> -> nat, least: nat) {
    /** A boundary lies between this user key and the previous one. */
    predicate At(n: nat) {
      0 < n < |input| && n < |crosses| && input[n].key.user != input[n - 1].key.user && crosses[n]
    }

    ghost predicate Between(lo: InternalKey, hi: InternalKey) {
      exists m: nat :: At(m) && Less(lo, input[m].key) && AtMost(input[m].key, hi)
    }

    predicate Large(es: seq<Entry>) { fileSize(es) >= least }

    /** No boundary was passed while the output was large enough. */
    ghost predicate PassesNone(es: seq<Entry>) {
      forall m :: 0 < m < |es| && Large(es[..m]) ==> !Between(es[m - 1].key, es[m].key)
    }
  }

  ghost predicate GuardBetween(guards: seq<UserKey>, lo: UserKey, hi: UserKey) {
    exists j :: 0 <= j < |guards| && lo < guards[j] <= hi
  }

  /** Why an output ends where it does: it is full, a guard follows, or it is large and a boundary follows. */
  ghost predicate EndsAt(a: Output, b: Output, guards: seq<UserKey>, c: Crossings, s: Sizes) {
    || s.Full(a.entries) || GuardBetween(guards, a.largest.user, b.smallest.user)
    || (c.Large(a.entries) && c.Between(a.largest, b.smallest))
  }

  /** Outputs end where they have to and nowhere else. */
  ghost predicate EndRight(outputs: seq<Output>, guards: seq<UserKey>, c: Crossings, s: Sizes) {
    && (forall k :: 0 <= k < |outputs| ==> s.JustFull(outputs[k].entries) && c.PassesNone(outputs[k].entries))
    && (forall k :: 0 <= k < |outputs| - 1 ==> EndsAt(outputs[k], outputs[k + 1], guards, c, s))
  }

  ghost predicate EndsBy(a: Output, c: Crossings, s: Sizes, k: nat) {
    || s.Full(a.entries)
    || (c.Large(a.entries) && exists m: nat :: m < k && c.At(m) && Less(a.largest, c.input[m].key))
  }

  /** The open output has passed no boundary while it was large, up to key `k`. */
  ghost predicate GoesOn(a: Output, c: Crossings, n: nat, k: nat) {
    && a.Valid() && (forall j :: n <= j < |c.input| ==> Less(a.largest, c.input[j].key))
    && (c.Large(a.entries) ==> forall m: nat :: m < k && c.At(m) ==> AtMost(c.input[m].key, a.largest))
  }

  ghost predicate EndsSoFar(outputs: seq<Output>, builder: seq<Output>, guards: seq<UserKey>, c: Crossings, s: Sizes,
                            n: nat, k: nat) {
    && |builder| <= 1 && EndRight(outputs + builder, guards, c, s)
    && (|builder| == 0 && |outputs| > 0 ==> EndsBy(outputs[|outputs| - 1], c, s, k))
    && (|builder| > 0 ==> GoesOn(builder[0], c, n, k) && !s.Full(builder[0].entries))
  }

  lemma NoEnds(guards: seq<UserKey>, c: Crossings, s: Sizes)
    ensures EndsSoFar([], [], guards, c, s, 0, 0)
  {
  }

  /** The output ends at a boundary. */
  lemma EndAtCrossing(outputs: seq<Output>, b: Output, guards: seq<UserKey>, c: Crossings, s: Sizes, n: nat)
    requires EndsSoFar(outputs, [b], guards, c, s, n, n) && c.At(n) && c.Large(b.entries)
    ensures EndsSoFar(outputs + [b], [], guards, c, s, n, n + 1)
  {
    hide EndRight;
    assert outputs + [b] + [] == outputs + [b];
  }

  lemma NoEnd(outputs: seq<Output>, builder: seq<Output>, guards: seq<UserKey>, c: Crossings, s: Sizes, n: nat)
    requires EndsSoFar(outputs, builder, guards, c, s, n, n)
    requires |builder| > 0 && c.Large(builder[0].entries) ==> !c.At(n)
    ensures EndsSoFar(outputs, builder, guards, c, s, n, n + 1)
  {
    hide EndRight;
  }

  lemma EndDropped(outputs: seq<Output>, builder: seq<Output>, guards: seq<UserKey>, c: Crossings, s: Sizes, n: nat)
    requires EndsSoFar(outputs, builder, guards, c, s, n, n + 1)
    ensures EndsSoFar(outputs, builder, guards, c, s, n + 1, n + 1)
  {
    hide EndRight;
  }

  /** The last output is rightly ended by the one that opens. */
  lemma OpensAfter(all: seq<Output>, e: Entry, guards: seq<UserKey>, c: Crossings, s: Sizes)
    requires EndRight(all, guards, c, s)
    requires |all| > 0 ==> EndsAt(all[|all| - 1], Output(e.key, e.key, [e]), guards, c, s)
    ensures EndRight(all + [Output(e.key, e.key, [e])], guards, c, s)
  {
    var a := Output(e.key, e.key, [e]);
    hide EndsAt, Sizes.Full, Crossings.Large, Crossings.Between;
    assert forall k :: 0 <= k < |all| ==> (all + [a])[k] == all[k];
  }

  /** An entry, given how the last output ended: what is still open until the output is found full. */
  ghost predicate EndsButFull(outputs: seq<Output>, a: Output, guards: seq<UserKey>, c: Crossings, s: Sizes, n: nat) {
    EndRight(outputs + [a], guards, c, s) && GoesOn(a, c, n, n)
  }

  lemma StartsAt(e: Entry, c: Crossings, n: nat)
    requires n < |c.input| && e == c.input[n] && Sorted(c.input)
    ensures GoesOn(Output(e.key, e.key, [e]), c, n + 1, n + 1)
  {
    forall m: nat | m <= n ensures AtMost(c.input[m].key, e.key) { SortedAt(c.input, m, n); }
    assert forall j :: n < j < |c.input| ==> Less(c.input[n].key, c.input[j].key);
  }

  lemma OpenAfterEnd(outputs: seq<Output>, guards: seq<UserKey>, c: Crossings, s: Sizes, n: nat)
    requires EndsSoFar(outputs, [], guards, c, s, n, n + 1) && n < |c.input| && Sorted(c.input)
    ensures var e := c.input[n]; EndsButFull(outputs, Output(e.key, e.key, [e]), guards, c, s, n + 1)
  {
    var e := c.input[n];
    assert outputs + [] == outputs;
    StartsAt(e, c, n);
    if |outputs| > 0 { EndsByThen(outputs[|outputs| - 1], c, s, n, guards); }
    hide EndRight, EndsBy, GoesOn, EndsAt;
    OpensAfter(outputs, e, guards, c, s);
  }

  lemma EndsByThen(a: Output, c: Crossings, s: Sizes, n: nat, guards: seq<UserKey>)
    requires EndsBy(a, c, s, n + 1) && n < |c.input| && Sorted(c.input)
    ensures var e := c.input[n]; EndsAt(a, Output(e.key, e.key, [e]), guards, c, s)
  {
    forall m: nat | m <= n ensures AtMost(c.input[m].key, c.input[n].key) { SortedAt(c.input, m, n); }
  }

  /** An entry at or past a guard that the open output is before. */
  lemma OpenAfterGuard(outputs: seq<Output>, b: Output, guards: seq<UserKey>, c: Crossings, s: Sizes, n: nat)
    requires EndsSoFar(outputs, [b], guards, c, s, n, n + 1) && n < |c.input| && Sorted(c.input)
    requires GuardBetween(guards, b.largest.user, c.input[n].key.user)
    ensures var e := c.input[n]; EndsButFull(outputs + [b], Output(e.key, e.key, [e]), guards, c, s, n + 1)
  {
    var e := c.input[n];
    StartsAt(e, c, n);
    assert (outputs + [b])[|outputs|] == b;
    hide EndRight, GoesOn, GuardBetween;
    OpensAfter(outputs + [b], e, guards, c, s);
  }

  lemma GoOn(outputs: seq<Output>, b: Output, guards: seq<UserKey>, c: Crossings, s: Sizes, n: nat)
    requires EndsSoFar(outputs, [b], guards, c, s, n, n + 1) && n < |c.input| && Sorted(c.input)
    ensures var e := c.input[n];
            EndsButFull(outputs, Output(b.smallest, e.key, b.entries + [e]), guards, c, s, n + 1)
  {
    var e := c.input[n];
    var a := Output(b.smallest, e.key, b.entries + [e]);
    assert (outputs + [b])[|outputs|] == b;
    GrowJustFull(b.entries, e, s);
    GrowPasses(b, c, n);
    StartsAt(e, c, n);
    hide Sizes.JustFull, Crossings.PassesNone, Sizes.Full, Crossings.Between, Crossings.Large;
    LastGrows(outputs, b, a, guards, c, s);
  }

  lemma GrowPasses(b: Output, c: Crossings, n: nat)
    requires GoesOn(b, c, n, n + 1) && c.PassesNone(b.entries) && n < |c.input| && Sorted(c.input)
    ensures c.PassesNone(b.entries + [c.input[n]])
  {
    var es, e := b.entries, c.input[n];
    forall m | 0 < m < |es + [e]| && c.Large((es + [e])[..m])
      ensures !c.Between((es + [e])[m - 1].key, (es + [e])[m].key)
    {
      assert (es + [e])[..m] == if m == |es| then es else es[..m];
      if m == |es| { NoneBefore(b, c, n); }
    }
  }

  lemma NoneBefore(b: Output, c: Crossings, n: nat)
    requires GoesOn(b, c, n, n + 1) && c.Large(b.entries) && n < |c.input| && Sorted(c.input)
    ensures !c.Between(b.largest, c.input[n].key)
  {
    forall m: nat | c.At(m) && Less(b.largest, c.input[m].key) ensures Less(c.input[n].key, c.input[m].key) {
      assert m > n;
    }
  }

  /** Only the last output has changed. */
  lemma LastGrows(outputs: seq<Output>, b: Output, a: Output, guards: seq<UserKey>, c: Crossings, s: Sizes)
    requires EndRight(outputs + [b], guards, c, s) && a.smallest == b.smallest
    requires s.JustFull(a.entries) && c.PassesNone(a.entries)
    ensures EndRight(outputs + [a], guards, c, s)
  {
    hide Sizes.JustFull, Crossings.PassesNone, Sizes.Full, Crossings.Between, Crossings.Large, GuardBetween;
    var all, was := outputs + [a], outputs + [b];
    assert forall k :: 0 <= k < |outputs| ==> all[k] == was[k];
    forall k | 0 <= k < |all| - 1 ensures EndsAt(all[k], all[k + 1], guards, c, s) {
      assert EndsAt(was[k], was[k + 1], guards, c, s);
    }
  }

  /** The output ends if the entry filled it, and goes on if not. */
  lemma EndIfFull(outputs: seq<Output>, a: Output, guards: seq<UserKey>, c: Crossings, s: Sizes, n: nat)
    requires EndsButFull(outputs, a, guards, c, s, n)
    ensures if s.Full(a.entries) then EndsSoFar(outputs + [a], [], guards, c, s, n, n)
            else EndsSoFar(outputs, [a], guards, c, s, n, n)
  {
    hide EndRight;
    assert outputs + [a] + [] == outputs + [a];
  }

  lemma EndsRight(outputs: seq<Output>, builder: seq<Output>, guards: seq<UserKey>, c: Crossings, s: Sizes, n: nat)
    requires EndsSoFar(outputs, builder, guards, c, s, n, n)
    ensures EndRight(outputs + builder, guards, c, s)
  {
  }

  /** Close the open output, if any. */
  method FinishOutput(outputs: seq<Output>, builder: seq<Output>, ghost guards: seq<UserKey>, ghost current: nat)
    returns (outputs': seq<Output>, builder': seq<Output>)
    requires WellFormed(outputs, builder) && AllFit(outputs, guards) && BuilderFits(builder, guards, current)
    ensures builder' == [] && WellFormed(outputs', builder') && AllFit(outputs', guards)
    ensures outputs' == outputs + builder
    ensures Compactions.Written(outputs', builder') == Compactions.Written(outputs, builder)
  {
    outputs', builder' := outputs, builder;
    if |builder| > 0 {
      SlotsDoNotStraddle(builder[0].entries, guards, current);
      outputs', builder' := Finish(outputs, builder);
    }
  }

  /** Guards at or before the key are passed. */
  method Advance(guards: seq<UserKey>, current: nat, k: UserKey) returns (temp: nat)
    requires current <= |guards|
    ensures current <= temp <= |guards| && (temp < |guards| ==> k < guards[temp])
    ensures forall j :: current <= j < temp ==> guards[j] <= k
  {
    temp := current;
    while temp < |guards| && k >= guards[temp]
      invariant current <= temp <= |guards| && forall j :: current <= j < temp ==> guards[j] <= k
    {
      temp := temp + 1;
    }
  }

  /** One kept entry: close the open output at a guard, then add the entry. */
  method AddAtGuard(outputs0: seq<Output>, builder0: seq<Output>, input: seq<Entry>, n: nat, guards: seq<UserKey>,
                    current0: nat, ghost c: Crossings, ghost s: Sizes)
    returns (outputs: seq<Output>, builder: seq<Output>, current: nat)
    requires Sorted(input) && Ascending(guards) && n < |input| && current0 <= |guards| && c.input == input
    requires Past(input, n, guards, current0)
    requires WellFormed(outputs0, builder0) && AllFit(outputs0, guards) && BuilderFits(builder0, guards, current0)
    requires EndsSoFar(outputs0, builder0, guards, c, s, n, n + 1)
    ensures WellFormed(outputs, builder) && AllFit(outputs, guards) && BuilderFits(builder, guards, current)
    ensures |builder| == 1 && EndsButFull(outputs, builder[0], guards, c, s, n + 1)
    ensures current <= |guards| && Past(input, n, guards, current)
    ensures Compactions.Written(outputs, builder) == Compactions.Written(outputs0, builder0) + [input[n]]
  {
    hide WellFormed, AllFit, Compactions.Written, EndsButFull, EndsSoFar, Sorted, GuardBetween;
    OneBuilder(outputs0, builder0, guards, c, s, n);
    var e := input[n];
    outputs, builder, current := outputs0, builder0, current0;
    if current < |guards| && e.key.user >= guards[current] {
      var temp := Advance(guards, current, e.key.user);
      if |builder| == 1 {
        GuardAhead(builder[0], guards, current, e.key.user);
        OpenAfterGuard(outputs, builder[0], guards, c, s, n);
      } else {
        OpenAfterEnd(outputs, guards, c, s, n);
        assert outputs + [] == outputs;
      }
      outputs, builder := FinishOutput(outputs, builder, guards, current);
      PastGuards(input, n, guards, current, temp);
      current := temp;
    } else if |builder| == 0 {
      OpenAfterEnd(outputs, guards, c, s, n);
    } else {
      GoOn(outputs, builder[0], guards, c, s, n);
    }
    GrowSlot(if |builder| == 0 then [] else builder[0].entries, e, guards, current);
    builder := AddEntry(outputs, builder, e);
  }

  lemma OneBuilder(outputs: seq<Output>, builder: seq<Output>, guards: seq<UserKey>, c: Crossings, s: Sizes, n: nat)
    requires EndsSoFar(outputs, builder, guards, c, s, n, n + 1)
    ensures builder == [] || (builder == [builder[0]] && builder[0].Valid())
  {
  }

  /** The open output lies before the current guard. */
  lemma GuardAhead(b: Output, guards: seq<UserKey>, current: nat, k: UserKey)
    requires b.Valid() && InSlot(b.entries, guards, current) && current < |guards| && k >= guards[current]
    ensures GuardBetween(guards, b.largest.user, k)
  {
    var e := b.entries[|b.entries| - 1];
    assert e in b.entries && !(guards[current] <= e.key.user);
  }

  lemma PastGuards(input: seq<Entry>, p: nat, guards: seq<UserKey>, i: nat, k: nat)
    requires Sorted(input) && Past(input, p, guards, i) && p < |input| && i <= k <= |guards|
    requires forall j :: i <= j < k ==> guards[j] <= input[p].key.user
    ensures Past(input, p, guards, k)
  {
    forall q | p <= q < |input| ensures input[p].key.user <= input[q].key.user { UsersAscend(input, p, q); }
  }

  /** DoCompactionWorkGuards. Whichever entries are dropped and wherever boundaries lie, the outputs hold the kept
      entries in order, none spans a guard, and they end only where they have to. */
  method DoCompactionWorkGuards(input: seq<Entry>, guards: seq<UserKey>, drop: seq<bool>, crosses: seq<bool>,
                                fileSize: seq<Entry> -> nat, minOutputFileSize: nat, maxOutputFileSize: nat)
    returns (outputs: seq<Output>)
    requires Sorted(input) && Ascending(guards) && |drop| == |crosses| == |input|
    ensures Concat(outputs) == Kept(input, drop, |input|) && AllFit(outputs, guards)
    ensures forall i :: 0 <= i < |outputs| ==> outputs[i].Valid()
    ensures EndRight(outputs, guards, Crossings(input, crosses, fileSize, minOutputFileSize),
                     Sizes(fileSize, maxOutputFileSize))
  {
    hide AllFit, BuilderFits, Past, Sorted, Ascending, EndRight, EndsSoFar, EndsButFull;
    ghost var c := Crossings(input, crosses, fileSize, minOutputFileSize);
    ghost var s := Sizes(fileSize, maxOutputFileSize);
    outputs := [];
    var builder: seq<Output> := [];
    var current: nat, n: nat := 0, 0;
    NothingYet(input, guards);
    NoEnds(guards, c, s);
    while n < |input|
      invariant n <= |input| && current <= |guards|
      invariant WellFormed(outputs, builder) && AllFit(outputs, guards) && BuilderFits(builder, guards, current)
      invariant Past(input, n, guards, current)
      invariant Compactions.Written(outputs, builder) == Kept(input, drop, n)
      invariant EndsSoFar(outputs, builder, guards, c, s, n, n)
    {
      outputs, builder := EndAtBoundary(outputs, builder, input, n, crosses, fileSize, minOutputFileSize, guards,
                                        current, c, s);
      if !drop[n] {
        outputs, builder, current := AddAtGuard(outputs, builder, input, n, guards, current, c, s);
        EndIfFull(outputs, builder[0], guards, c, s, n + 1);
        assert builder == [builder[0]];
        if fileSize(builder[0].entries) >= maxOutputFileSize {
          outputs, builder := FinishOutput(outputs, builder, guards, current);
          NothingOpen(guards, current);
        }
      } else {
        EndDropped(outputs, builder, guards, c, s, n);
      }
      PastNext(input, n, guards, current);
      n := n + 1;
    }
    EndsRight(outputs, builder, guards, c, s, n);
    outputs, builder := FinishOutput(outputs, builder, guards, current);
    assert outputs + builder == outputs;
  }

  /** At a new user key past a boundary a large output ends. */
  method EndAtBoundary(outputs0: seq<Output>, builder0: seq<Output>, input: seq<Entry>, n: nat, crosses: seq<bool>,
                       fileSize: seq<Entry> -> nat, minOutputFileSize: nat, ghost guards: seq<UserKey>,
                       ghost current: nat, ghost c: Crossings, ghost s: Sizes)
    returns (outputs: seq<Output>, builder: seq<Output>)
    requires n < |input| == |crosses| && c == Crossings(input, crosses, fileSize, minOutputFileSize)
    requires WellFormed(outputs0, builder0) && AllFit(outputs0, guards) && BuilderFits(builder0, guards, current)
    requires EndsSoFar(outputs0, builder0, guards, c, s, n, n)
    ensures WellFormed(outputs, builder) && AllFit(outputs, guards) && BuilderFits(builder, guards, current)
    ensures Compactions.Written(outputs, builder) == Compactions.Written(outputs0, builder0)
    ensures EndsSoFar(outputs, builder, guards, c, s, n, n + 1)
  {
    hide AllFit, BuilderFits, EndsSoFar, WellFormed, Compactions.Written;
    if |builder0| > 0 { AtMostOneOpen(outputs0, builder0, guards, c, s, n); }
    outputs, builder := outputs0, builder0;
    if n > 0 && input[n].key.user != input[n - 1].key.user && |builder| > 0
       && fileSize(builder[0].entries) >= minOutputFileSize && crosses[n] {
      EndAtCrossing(outputs, builder[0], guards, c, s, n);
      outputs, builder := FinishOutput(outputs, builder, guards, current);
      NothingOpen(guards, current);
    } else {
      NoEnd(outputs, builder, guards, c, s, n);
    }
  }

  lemma AtMostOneOpen(outputs: seq<Output>, builder: seq<Output>, guards: seq<UserKey>, c: Crossings, s: Sizes, n: nat)
    requires EndsSoFar(outputs, builder, guards, c, s, n, n) && |builder| > 0
    ensures builder == [builder[0]]
  {
  }

  lemma NothingYet(input: seq<Entry>, guards: seq<UserKey>)
    ensures AllFit([], guards) && BuilderFits([], guards, 0) && Past(input, 0, guards, 0)
  {
  }

  lemma NothingOpen(guards: seq<UserKey>, current: nat)
    ensures BuilderFits([], guards, current)
  {
  }

  lemma PastNext(input: seq<Entry>, p: nat, guards: seq<UserKey>, i: nat)
    requires Past(input, p, guards, i)
    ensures Past(input, p + 1, guards, i)
  {
  }
}
