/** DBIter: the user-visible iterator over the internal entries, in both directions. */
module DbIter {
  import opened Dbformat
  import opened Reads

  datatype Direction = Forward | Reverse

  datatype Saved = Cleared | Key(user: UserKey)

  /** Index of the first entry at or after `target`: Seek of the internal iterator. */
  function LowerBound(es: seq<Entry>, target: InternalKey): (r: nat)
    ensures r <= |es|
  {
    if |es| == 0 || !Less(es[0].key, target) then 0 else 1 + LowerBound(es[1..], target)
  }

  lemma {:induction false} LowerBoundIs(es: seq<Entry>, target: InternalKey)
    requires Sorted(es)
    ensures forall i :: 0 <= i < LowerBound(es, target) ==> Less(es[i].key, target)
    ensures forall i :: LowerBound(es, target) <= i < |es| ==> !Less(es[i].key, target)
  {
    if |es| > 0 {
      if Less(es[0].key, target) {
        var rest := es[1..];
        LowerBoundIs(rest, target);
        forall i | 0 <= i < |es|
          ensures i < LowerBound(es, target) <==> Less(es[i].key, target)
        {
          assert i > 0 ==> es[i] == rest[i - 1];
        }
      } else {
        forall i | 0 < i < |es| ensures !Less(es[i].key, target) {
          assert Less(es[0].key, es[i].key);
        }
      }
    }
  }

  /** Entry `i` is what a reader at `s` sees for its user key. */
  ghost predicate Shows(es: seq<Entry>, s: nat, i: int) {
    && 0 <= i < |es|
    && es[i].key.sequence <= s && es[i].key.kind.Value?
    && forall j :: 0 <= j < i && es[j].key.user == es[i].key.user ==> es[j].key.sequence > s
  }

  /** Internal key order with one entry per user key and sequence number. */
  predicate Before(a: Entry, b: Entry) {
    a.key.user < b.key.user || (a.key.user == b.key.user && a.key.sequence > b.key.sequence)
  }

  ghost predicate WellFormed(es: seq<Entry>) {
    |es| > 1 ==> WellFormed(es[..|es| - 1]) && Before(es[|es| - 2], es[|es| - 1])
  }

  lemma {:induction false} SortedUsers(es: seq<Entry>, i: int, j: int)
    requires WellFormed(es) && 0 <= i < j < |es|
    ensures Before(es[i], es[j])
    decreases |es|
  {
    var front := es[..|es| - 1];
    if j < |es| - 1 {
      SortedUsers(front, i, j);
    } else if i < |es| - 2 {
      SortedUsers(front, i, j - 1);
    }
  }

  lemma {:induction false} WellFormedIff(es: seq<Entry>)
    ensures WellFormed(es) <==> Sorted(es) && UniqueSequences(Contents(es))
  {
    if WellFormed(es) {
      forall i, j | 0 <= i < j < |es| ensures Less(es[i].key, es[j].key) { SortedUsers(es, i, j); }
      WellFormedUnique(es);
    }
    if Sorted(es) && UniqueSequences(Contents(es)) && |es| > 1 {
      var front, n := es[..|es| - 1], |es|;
      assert forall e :: e in Contents(front) ==> e in Contents(es);
      WellFormedIff(front);
      assert Less(es[n - 2].key, es[n - 1].key) && es[n - 2] in Contents(es) && es[n - 1] in Contents(es);
    }
  }

  lemma WellFormedUnique(es: seq<Entry>)
    requires WellFormed(es)
    ensures UniqueSequences(Contents(es))
  {
    forall a, b | a in Contents(es) && b in Contents(es) && a.key.user == b.key.user && a.key.sequence == b.key.sequence
      ensures a == b
    {
      var i :| 0 <= i < |es| && es[i] == a;
      var j :| 0 <= j < |es| && es[j] == b;
      if i < j { SortedUsers(es, i, j); } else if j < i { SortedUsers(es, j, i); }
    }
  }

  lemma ShowsIsRead(es: seq<Entry>, s: nat, i: int)
    requires WellFormed(es) && Shows(es, s, i)
    ensures Read(Contents(es), es[i].key.user, s) == Found(es[i].value)
  {
    var k := es[i].key.user;
    forall e | e in Contents(es) && Visible(e, k, s) ensures e.key.sequence <= es[i].key.sequence {
      var j :| 0 <= j < |es| && es[j] == e;
      if i < j { SortedUsers(es, i, j); }
    }
    assert es[i] in Contents(es);
    WellFormedUnique(es);
    assert Newest(Contents(es), k, s, es[i]);
    ReadNewest(Contents(es), k, s, es[i]);
  }

  /** A key is live exactly when some entry shows it. */
  lemma LiveShows(es: seq<Entry>, s: nat, k: UserKey) returns (i: int)
    requires WellFormed(es) && Read(Contents(es), k, s).Found?
    ensures Shows(es, s, i) && es[i].key.user == k
  {
    NewestExists(Contents(es), k, s);
    if Absent(Contents(es), k, s) { ReadAbsent(Contents(es), k, s); }
    var e :| Newest(Contents(es), k, s, e);
    WellFormedUnique(es);
    ReadNewest(Contents(es), k, s, e);
    i :| 0 <= i < |es| && es[i] == e;
    forall j | 0 <= j < i && es[j].key.user == k ensures es[j].key.sequence > s {
      SortedUsers(es, j, i);
      assert es[j] in Contents(es);
      assert es[j].key.sequence <= s ==> Visible(es[j], k, s);
    }
  }

  // ---- the abstract cursor over the map visible at `s` -----------------------------------------

  datatype Op = SeekToFirst | SeekToLast | Seek(target: UserKey) | Next | Prev

  ghost predicate Live(es: seq<Entry>, s: nat, k: UserKey) { Read(Contents(es), k, s).Found? }

  /** The keys an operation may land on, from cursor `before`. */
  predicate InRange(op: Op, before: Saved, k: UserKey) {
    match op
    case SeekToFirst => true
    case SeekToLast => true
    case Seek(target) => target <= k
    case Next => before.Key? && before.user < k
    case Prev => before.Key? && k < before.user
  }

  predicate Backward(op: Op) { op.SeekToLast? || op.Prev? }

  /** `after` is the first live key in range, from the side the operation moves from; Cleared when there is none. */
  ghost predicate Lands(es: seq<Entry>, s: nat, op: Op, before: Saved, after: Saved) {
    match after
    case Cleared => forall k :: InRange(op, before, k) ==> !Live(es, s, k)
    case Key(a) =>
      && Live(es, s, a) && InRange(op, before, a)
      && forall k :: InRange(op, before, k) && Live(es, s, k) ==> if Backward(op) then k <= a else a <= k
  }

  /** The abstract cursor is a function of the operation and the previous cursor. */
  lemma LandsUnique(es: seq<Entry>, s: nat, op: Op, before: Saved, a: Saved, b: Saved)
    requires Lands(es, s, op, before, a) && Lands(es, s, op, before, b)
    ensures a == b
  {
    if a.Key? && b.Key? { assert a.user <= b.user && b.user <= a.user; }
  }

  lemma ShowsIsLive(es: seq<Entry>, s: nat, i: int)
    requires WellFormed(es) && Shows(es, s, i)
    ensures Live(es, s, es[i].key.user)
  {
    ShowsIsRead(es, s, i);
  }

  /** Landing on the lowest shown entry among those in range. */
  lemma LandsOn(es: seq<Entry>, s: nat, op: Op, before: Saved, i: int)
    requires WellFormed(es) && Shows(es, s, i) && InRange(op, before, es[i].key.user)
    requires forall j :: Shows(es, s, j) && InRange(op, before, es[j].key.user) ==>
               if Backward(op) then j <= i else i <= j
    ensures Lands(es, s, op, before, Key(es[i].key.user))
  {
    ShowsIsLive(es, s, i);
    forall k | InRange(op, before, k) && Live(es, s, k)
      ensures if Backward(op) then k <= es[i].key.user else es[i].key.user <= k
    {
      var j := LiveShows(es, s, k);
      if i < j { SortedUsers(es, i, j); } else if j < i { SortedUsers(es, j, i); }
    }
  }

  lemma LandsNowhere(es: seq<Entry>, s: nat, op: Op, before: Saved)
    requires WellFormed(es)
    requires forall j :: Shows(es, s, j) ==> !InRange(op, before, es[j].key.user)
    ensures Lands(es, s, op, before, Cleared)
  {
    forall k | InRange(op, before, k) ensures !Live(es, s, k) {
      if Live(es, s, k) { var j := LiveShows(es, s, k); }
    }
  }

  /** The internal position `p` is before `k`, and only invisible entries lie between it and `k`. */
  ghost predicate Behind(es: seq<Entry>, s: nat, p: nat, k: UserKey) {
    && (p < |es| ==> es[p].key.user < k)
    && (forall i :: 0 <= i < |es| && (p < |es| ==> i > p) && es[i].key.user < k ==> es[i].key.sequence > s)
  }

  /** Everything visible before `start` is either to be skipped or of a smaller user key. */
  ghost predicate Resumable(es: seq<Entry>, s: nat, start: nat, skipping: bool, skip: Saved) {
    && start <= |es| && (skipping ==> skip.Key?)
    && forall j :: 0 <= j < start && es[j].key.sequence <= s ==>
         (skipping && es[j].key.user <= skip.user) || (start < |es| ==> es[j].key.user < es[start].key.user)
  }

  /** Nothing visible from `start` on has a user key below the one to skip. */
  ghost predicate Ahead(es: seq<Entry>, s: nat, start: nat, skipping: bool, skip: Saved) {
    skipping ==> skip.Key? && forall i :: start <= i < |es| && es[i].key.sequence <= s ==> skip.user <= es[i].key.user
  }

  /** What shows in [start, end) was to be skipped. */
  ghost predicate Passed(es: seq<Entry>, s: nat, start: nat, end: nat, skipping: bool, skip: Saved)
    requires skipping ==> skip.Key?
  {
    forall i :: start <= i < end && Shows(es, s, i) ==> skipping && es[i].key.user <= skip.user
  }

  /** The forward scan from `start` has reached `p`; its skip key is the initial one or that of a deletion it met. */
  ghost predicate Scan(es: seq<Entry>, s: nat, start: nat, p: nat, skipping0: bool, skip0: Saved, skipping: bool,
                       skip: Saved) {
    && WellFormed(es) && start <= p <= |es| && (skipping0 ==> skipping) && Ahead(es, s, start, skipping0, skip0)
    && Resumable(es, s, p, skipping, skip)
    && (skipping ==> (skipping0 && skip == skip0) || MetDeletion(es, s, start, p, skip))
    && (skipping0 ==> skip0.user <= skip.user)
    && Passed(es, s, start, p, skipping0, skip0)
  }

  ghost predicate MetDeletion(es: seq<Entry>, s: nat, start: nat, p: nat, skip: Saved)
    requires skip.Key? && p <= |es|
  {
    exists j :: start <= j < p && es[j].key.sequence <= s && es[j].key.user == skip.user
  }

  lemma ScanStart(es: seq<Entry>, s: nat, start: nat, skipping: bool, skip: Saved)
    requires WellFormed(es) && Resumable(es, s, start, skipping, skip) && Ahead(es, s, start, skipping, skip)
    ensures Scan(es, s, start, start, skipping, skip, skipping, skip)
  {
  }

  lemma ScanEnd(es: seq<Entry>, s: nat, start: nat, skipping0: bool, skip0: Saved, skipping: bool, skip: Saved)
    requires Scan(es, s, start, |es|, skipping0, skip0, skipping, skip)
    ensures WellFormed(es) && (skipping0 ==> skip0.Key?) && Passed(es, s, start, |es|, skipping0, skip0)
  {
  }

  lemma ResumeNext(es: seq<Entry>, s: nat, p: nat, skipping: bool, skip: Saved)
    requires WellFormed(es) && p < |es| && Resumable(es, s, p, skipping, skip)
    requires es[p].key.sequence <= s ==> skipping && es[p].key.user <= skip.user
    ensures Resumable(es, s, p + 1, skipping, skip)
  {
    if p + 1 < |es| { SortedUsers(es, p, p + 1); }
  }

  lemma PassedNext(es: seq<Entry>, s: nat, start: nat, p: nat, skipping: bool, skip: Saved)
    requires skipping ==> skip.Key?
    requires Passed(es, s, start, p, skipping, skip) && (Shows(es, s, p) ==> skipping && es[p].key.user <= skip.user)
    ensures Passed(es, s, start, p + 1, skipping, skip)
  {
  }

  lemma ScanInvisible(es: seq<Entry>, s: nat, start: nat, p: nat, skipping0: bool, skip0: Saved, skipping: bool,
                      skip: Saved)
    requires Scan(es, s, start, p, skipping0, skip0, skipping, skip) && p < |es| && es[p].key.sequence > s
    ensures Scan(es, s, start, p + 1, skipping0, skip0, skipping, skip)
  {
    ResumeNext(es, s, p, skipping, skip);
    PassedNext(es, s, start, p, skipping0, skip0);
    if skipping && MetDeletion(es, s, start, p, skip) { MetLater(es, s, start, p, skip); }
  }

  lemma MetLater(es: seq<Entry>, s: nat, start: nat, p: nat, skip: Saved)
    requires skip.Key? && p < |es| && MetDeletion(es, s, start, p, skip)
    ensures MetDeletion(es, s, start, p + 1, skip)
  {
    var j :| start <= j < p && es[j].key.sequence <= s && es[j].key.user == skip.user;
  }

  lemma ScanHidden(es: seq<Entry>, s: nat, start: nat, p: nat, skipping0: bool, skip0: Saved, skipping: bool,
                   skip: Saved)
    requires Scan(es, s, start, p, skipping0, skip0, skipping, skip) && p < |es| && es[p].key.sequence <= s
    requires skipping && es[p].key.user <= skip.user
    ensures Scan(es, s, start, p + 1, skipping0, skip0, skipping, skip)
  {
    assert skip.Key? && (skipping0 ==> skip0.Key?);
    ResumeNext(es, s, p, skipping, skip);
    if MetDeletion(es, s, start, p, skip) {
      MetLater(es, s, start, p, skip);
      var j :| start <= j < p && es[j].key.sequence <= s && es[j].key.user == skip.user;
      SortedUsers(es, j, p);
      assert !Shows(es, s, p);
    }
    PassedNext(es, s, start, p, skipping0, skip0);
  }

  lemma ScanShows(es: seq<Entry>, s: nat, start: nat, p: nat, skipping0: bool, skip0: Saved, skipping: bool,
                  skip: Saved)
    requires Scan(es, s, start, p, skipping0, skip0, skipping, skip) && p < |es| && es[p].key.sequence <= s
    requires es[p].key.kind.Value? && !(skipping && es[p].key.user <= skip.user)
    ensures WellFormed(es) && start <= p && (skipping0 ==> skip0.Key?) && Passed(es, s, start, p, skipping0, skip0)
    ensures Shows(es, s, p) && !(skipping0 && es[p].key.user <= skip0.user)
  {
  }

  lemma ScanDeletion(es: seq<Entry>, s: nat, start: nat, p: nat, skipping0: bool, skip0: Saved, skipping: bool,
                     skip: Saved)
    requires Scan(es, s, start, p, skipping0, skip0, skipping, skip) && p < |es|
    requires es[p].key.sequence <= s && es[p].key.kind.Deletion?
    ensures Scan(es, s, start, p + 1, skipping0, skip0, true, Key(es[p].key.user))
  {
    var k := es[p].key.user;
    assert MetDeletion(es, s, start, p + 1, Key(k));
    PassedNext(es, s, start, p, skipping0, skip0);
    forall j | 0 <= j < p ensures es[j].key.user <= k { SortedUsers(es, j, p); }
  }

  lemma ForwardLands(es: seq<Entry>, s: nat, op: Op, before: Saved, start: nat, end: nat, shown: bool, skipping: bool,
                     skip: Saved)
    requires WellFormed(es) && !Backward(op) && (skipping ==> op.Next? && skip.Key? && before == skip)
    requires forall j :: 0 <= j < start && Shows(es, s, j) ==> !InRange(op, before, es[j].key.user)
    requires Passed(es, s, start, end, skipping, skip)
    requires if shown then start <= end < |es| && Shows(es, s, end) && InRange(op, before, es[end].key.user)
               else end == |es|
    ensures Lands(es, s, op, before, if shown then Key(es[end].key.user) else Cleared)
  {
    if shown { LandsOn(es, s, op, before, end); } else { LandsNowhere(es, s, op, before); }
  }

  lemma SeekPosition(es: seq<Entry>, s: nat, target: UserKey)
    requires WellFormed(es)
    ensures var p := LowerBound(es, LookupKey(target, s));
            && Resumable(es, s, p, false, Cleared)
            && (forall j :: 0 <= j < p && Shows(es, s, j) ==> es[j].key.user < target)
            && (forall j :: p <= j < |es| ==> target <= es[j].key.user)
  {
    WellFormedIff(es);
    LowerBoundIs(es, LookupKey(target, s));
    hide WellFormed, Sorted;
    BoundFacts(es, s, target, LowerBound(es, LookupKey(target, s)));
  }

  lemma BoundFacts(es: seq<Entry>, s: nat, target: UserKey, p: nat)
    requires p <= |es|
    requires forall i :: 0 <= i < p ==> Less(es[i].key, LookupKey(target, s))
    requires forall i :: p <= i < |es| ==> !Less(es[i].key, LookupKey(target, s))
    ensures Resumable(es, s, p, false, Cleared)
    ensures forall j :: 0 <= j < p && Shows(es, s, j) ==> es[j].key.user < target
    ensures forall j :: p <= j < |es| ==> target <= es[j].key.user
  {
    forall j | 0 <= j < p && es[j].key.sequence <= s ensures es[j].key.user < target {
      assert Less(es[j].key, LookupKey(target, s));
    }
  }

  /** Where Next resumes: every entry before is of a key up to the current one, nothing visible after is below it. */
  lemma ForwardStart(es: seq<Entry>, s: nat, p: nat, direction: Direction, k: UserKey)
    requires WellFormed(es) && p <= |es|
    requires direction == Forward ==> p < |es| && es[p].key.user == k
    requires direction == Reverse ==> Behind(es, s, p, k)
    ensures var start := if p == |es| then 0 else p + 1;
            && start <= |es| && Resumable(es, s, start, true, Key(k)) && Ahead(es, s, start, true, Key(k))
            && (forall j :: 0 <= j < start ==> es[j].key.user <= k)
  {
    if p < |es| {
      forall j | 0 <= j < p ensures es[j].key.user <= es[p].key.user { SortedUsers(es, j, p); }
      forall j | p < j < |es| ensures es[p].key.user <= es[j].key.user { SortedUsers(es, p, j); }
    }
  }

  /** Nothing that shows after `start` is in the operation's range. */
  ghost predicate ClearAfter(es: seq<Entry>, s: nat, op: Op, before: Saved, start: int) {
    forall i :: start < i && Shows(es, s, i) ==> !InRange(op, before, es[i].key.user)
  }

  lemma BehindClear(es: seq<Entry>, s: nat, p: nat, k: UserKey)
    requires WellFormed(es) && p <= |es| && Behind(es, s, p, k)
    ensures ClearAfter(es, s, Op.Prev, Key(k), if p < |es| then p else -1)
    ensures p < |es| ==> forall i :: 0 <= i <= p ==> es[i].key.user < k
  {
    if p < |es| { UsersUpTo(es, p, k); }
  }

  lemma BackLands(es: seq<Entry>, s: nat, op: Op, before: Saved, start: int, shown: bool, j: int)
    requires WellFormed(es) && Backward(op)
    requires ClearAfter(es, s, op, before, start)
    requires forall i :: (if shown then j else -1) < i <= start ==> !Shows(es, s, i)
    requires shown ==> j <= start && Shows(es, s, j) && InRange(op, before, es[j].key.user)
    ensures Lands(es, s, op, before, if shown then Key(es[j].key.user) else Cleared)
  {
    if shown { LandsOn(es, s, op, before, j); } else { LandsNowhere(es, s, op, before); }
  }

  lemma UsersUpTo(es: seq<Entry>, p: int, k: UserKey)
    requires WellFormed(es) && 0 <= p < |es| && es[p].key.user < k
    ensures forall i :: 0 <= i <= p ==> es[i].key.user < k
  {
    forall i | 0 <= i < p ensures es[i].key.user < k { SortedUsers(es, i, p); }
  }

  lemma UsersFrom(es: seq<Entry>, p: int)
    requires WellFormed(es) && 0 <= p < |es|
    ensures forall i :: p <= i < |es| ==> es[p].key.user <= es[i].key.user
  {
    forall i | p < i < |es| ensures es[p].key.user <= es[i].key.user { SortedUsers(es, p, i); }
  }

  // ---- the backward scan ------------------------------------------------------------------------

  /** The backward scan from `start` is about to look at `q`. With a value saved, it comes from entry `j` and no
      visible entry lies between; nothing else scanned shows. */
  ghost predicate ScanBack(es: seq<Entry>, s: nat, start: int, q: int, kind: ValueType, key: Saved, value: Bytes,
                           j: int) {
    && WellFormed(es) && -1 <= q <= start < |es|
    && (kind.Deletion? ==> forall i :: q < i <= start ==> !Shows(es, s, i))
    && (kind.Value? ==>
          && q < j <= start && es[j].key.sequence <= s && es[j].key.kind.Value?
          && key == Key(es[j].key.user) && value == es[j].value
          && (forall i :: q < i < j ==> es[i].key.sequence > s)
          && (forall i :: j < i <= start ==> !Shows(es, s, i)))
  }

  lemma BackInvisible(es: seq<Entry>, s: nat, start: int, q: int, kind: ValueType, key: Saved, value: Bytes, j: int)
    requires ScanBack(es, s, start, q, kind, key, value, j) && q >= 0 && es[q].key.sequence > s
    ensures ScanBack(es, s, start, q - 1, kind, key, value, j)
  {
  }

  /** A visible entry of the saved key, or any visible entry when nothing is saved, takes over. */
  lemma BackTakeOver(es: seq<Entry>, s: nat, start: int, q: int, kind: ValueType, key: Saved, value: Bytes, j: int)
    requires ScanBack(es, s, start, q, kind, key, value, j) && q >= 0 && es[q].key.sequence <= s
    requires kind.Value? ==> key.Key? && !(es[q].key.user < key.user)
    ensures es[q].key.kind.Deletion? ==> ScanBack(es, s, start, q - 1, Deletion, Cleared, [], q)
    ensures es[q].key.kind.Value? ==> ScanBack(es, s, start, q - 1, Value, Key(es[q].key.user), es[q].value, q)
  {
    if kind.Value? {
      SortedUsers(es, q, j);
      assert !Shows(es, s, j);
    }
  }

  /** Reaching a visible entry of a smaller key, or the beginning, settles the saved entry. */
  lemma BackSettled(es: seq<Entry>, s: nat, start: int, q: int, key: Saved, value: Bytes, j: int)
    requires ScanBack(es, s, start, q, Value, key, value, j)
    requires q >= 0 ==> es[q].key.sequence <= s && es[q].key.user < key.user
    ensures Shows(es, s, j) && Read(Contents(es), key.user, s) == Found(value)
    ensures Behind(es, s, if q >= 0 then q else |es|, key.user)
  {
    forall i | 0 <= i < j && es[i].key.user == es[j].key.user ensures es[i].key.sequence > s {
      if i < q { SortedUsers(es, i, q); }
    }
    ShowsIsRead(es, s, j);
    forall i | q < i < |es| && es[i].key.user < key.user ensures es[i].key.sequence > s {
      if j < i { SortedUsers(es, j, i); }
    }
  }

  class Iter {
    const es: seq<Entry>
    const sequence: nat
    /** Position of the internal iterator; |es| when it is not valid. */
    var pos: nat
    var direction: Direction
    var valid: bool
    var savedKey: Saved
    var savedValue: Bytes

    constructor (es: seq<Entry>, sequence: nat)
      requires WellFormed(es)
      ensures this.es == es && this.sequence == sequence && Valid() && !valid
    {
      this.es, this.sequence := es, sequence;
      pos, direction, valid, savedKey, savedValue := |es|, Forward, false, Cleared, [];
    }

    /** Forward: on the entry that shows the key. Reverse: before every entry of the saved key, with nothing
        visible skipped in between. */
    ghost predicate Valid()
      reads this
    {
      && WellFormed(es) && pos <= |es|
      && (valid && direction == Forward ==> Shows(es, sequence, pos))
      && (valid && direction == Reverse ==>
            savedKey.Key? && Behind(es, sequence, pos, savedKey.user)
              && Read(Contents(es), savedKey.user, sequence) == Found(savedValue))
    }

    function CurrentKey(): UserKey
      reads this
      requires Valid() && valid
    {
      if direction == Forward then es[pos].key.user else savedKey.user
    }

    function CurrentValue(): Bytes
      reads this
      requires Valid() && valid
    {
      if direction == Forward then es[pos].value else savedValue
    }

    /** The iterator never shows anything but the visible value of a live key. */
    lemma CurrentIsLive()
      requires Valid() && valid
      ensures Read(Contents(es), CurrentKey(), sequence) == Found(CurrentValue())
    {
      if direction == Forward { ShowsIsRead(es, sequence, pos); }
    }

    ghost function Cursor(): Saved
      reads this
      requires Valid()
    {
      if valid then Key(CurrentKey()) else Cleared
    }

    /** From an entry boundary, move to the next entry to show, skipping keys up to the saved one. */
    method FindNextUserEntry(skipping0: bool)
      requires Valid() && direction == Forward
      requires Resumable(es, sequence, pos, skipping0, savedKey) && Ahead(es, sequence, pos, skipping0, savedKey)
      modifies this`pos, this`valid, this`savedKey
      ensures Valid() && direction == Forward
      ensures valid ==> old(pos) <= pos && !(skipping0 && es[pos].key.user <= old(savedKey).user)
      ensures Passed(es, sequence, old(pos), if valid then pos else |es|, skipping0, old(savedKey))
    {
      var skipping := skipping0;
      ghost var start, skip0 := pos, savedKey;
      ScanStart(es, sequence, start, skipping0, skip0);
      while pos < |es|
        invariant pos <= |es|
        invariant Scan(es, sequence, start, pos, skipping0, skip0, skipping, savedKey)
        decreases |es| - pos
      {
        var shown;
        shown, skipping := Examine(skipping, start, skipping0, skip0);
        if shown { return; }
        pos := pos + 1;
      }
      ScanEnd(es, sequence, start, skipping0, skip0, skipping, savedKey);
      savedKey, valid := Cleared, false;
    }

    /** One turn of the forward loop at the current internal entry. */
    method Examine(skipping: bool, ghost start: nat, ghost skipping0: bool,
                   ghost skip0: Saved) returns (shown: bool, skipping': bool)
      requires pos < |es| && Scan(es, sequence, start, pos, skipping0, skip0, skipping, savedKey)
      modifies this`valid, this`savedKey
      ensures shown ==>
                valid && WellFormed(es) && Shows(es, sequence, pos) && start <= pos && (skipping0 ==> skip0.Key?)
      ensures shown ==>
                !(skipping0 && es[pos].key.user <= skip0.user) && Passed(es, sequence, start, pos, skipping0, skip0)
      ensures !shown ==> Scan(es, sequence, start, pos + 1, skipping0, skip0, skipping', savedKey)
    {
      hide Shows, WellFormed, Passed;
      shown, skipping' := false, skipping;
      var e := es[pos];
      if e.key.sequence <= sequence {
        if e.key.kind.Deletion? {
          ScanDeletion(es, sequence, start, pos, skipping0, skip0, skipping, savedKey);
          savedKey, skipping' := Key(e.key.user), true;
        } else if skipping && e.key.user <= savedKey.user {
          ScanHidden(es, sequence, start, pos, skipping0, skip0, skipping, savedKey);
        } else {
          ScanShows(es, sequence, start, pos, skipping0, skip0, skipping, savedKey);
          valid, savedKey, shown := true, Cleared, true;
        }
      } else {
        ScanInvisible(es, sequence, start, pos, skipping0, skip0, skipping, savedKey);
      }
    }

    /** The internal iterator's Prev: invalid before the first entry. */
    method StepBack()
      requires pos < |es|
      modifies this`pos
      ensures pos == if old(pos) == 0 then |es| else old(pos) - 1
    {
      pos := if pos == 0 then |es| else pos - 1;
    }

    /** From the current internal entry backward, find the last entry to show. */
    method FindPrevUserEntry() returns (ghost j: int)
      requires WellFormed(es) && pos <= |es| && direction == Reverse
      modifies this
      ensures Valid()
      ensures valid ==> direction == Reverse && old(pos) < |es| && j <= old(pos) && Shows(es, sequence, j)
      ensures valid ==> savedKey == Key(es[j].key.user)
      ensures forall i :: (if valid then j else -1) < i <= old(pos) < |es| ==> !Shows(es, sequence, i)
    {
      var kind := Deletion;
      j := -1;
      ghost var start := pos;
      if pos < |es| {
        ghost var q: int := pos;
        while pos < |es|
          invariant direction == Reverse && pos <= |es| && q == (if pos < |es| then pos else -1)
          invariant ScanBack(es, sequence, start, q, kind, savedKey, savedValue, j)
          decreases q
        {
          var e := es[pos];
          if e.key.sequence <= sequence {
            if kind.Value? && e.key.user < savedKey.user {
              break;
            }
            BackTakeOver(es, sequence, start, q, kind, savedKey, savedValue, j);
            j := q;
            kind := e.key.kind;
            if kind.Deletion? {
              savedKey, savedValue := Cleared, [];
            } else {
              savedKey, savedValue := Key(e.key.user), e.value;
            }
          } else {
            BackInvisible(es, sequence, start, q, kind, savedKey, savedValue, j);
          }
          StepBack();
          q := q - 1;
        }
        if kind.Value? { BackSettled(es, sequence, start, q, savedKey, savedValue, j); }
      }
      if kind.Deletion? {
        valid, savedKey, savedValue, direction := false, Cleared, [], Forward;
      } else {
        valid := true;
      }
    }

    method SeekToFirst()
      requires Valid()
      modifies this
      ensures Valid() && Lands(es, sequence, Op.SeekToFirst, old(Cursor()), Cursor())
    {
      direction, savedValue, pos, valid := Forward, [], 0, false;
      if pos < |es| { FindNextUserEntry(false); }
      ForwardLands(es, sequence, Op.SeekToFirst, old(Cursor()), 0, if valid then pos else |es|, valid, false, Cleared);
    }

    method Seek(target: UserKey)
      requires Valid()
      modifies this
      ensures Valid() && Lands(es, sequence, Op.Seek(target), old(Cursor()), Cursor())
    {
      direction, savedValue, savedKey, valid := Forward, [], Cleared, false;
      pos := LowerBound(es, LookupKey(target, sequence));
      ghost var start := pos;
      SeekPosition(es, sequence, target);
      if pos < |es| { FindNextUserEntry(false); }
      ForwardLands(es, sequence, Op.Seek(target), old(Cursor()), start, if valid then pos else |es|, valid, false,
                   Cleared);
    }

    method SeekToLast()
      requires Valid()
      modifies this
      ensures Valid() && Lands(es, sequence, Op.SeekToLast, old(Cursor()), Cursor())
    {
      direction, savedValue := Reverse, [];
      pos := if |es| == 0 then |es| else |es| - 1;
      ghost var j := FindPrevUserEntry();
      BackLands(es, sequence, Op.SeekToLast, old(Cursor()), |es| - 1, valid, j);
    }

    /** Move to the first entry past the current one, and skip what is left of its user key. */
    method StepPast(ghost k: UserKey)
      requires Valid() && valid && k == CurrentKey()
      modifies this`direction, this`pos, this`savedKey
      ensures direction == Forward && savedKey == Key(k)
      ensures pos <= |es| && Resumable(es, sequence, pos, true, Key(k)) && Ahead(es, sequence, pos, true, Key(k))
      ensures forall j :: 0 <= j < pos ==> es[j].key.user <= k
    {
      ForwardStart(es, sequence, pos, direction, k);
      if direction == Reverse {
        direction := Forward;
        pos := if pos == |es| then 0 else pos + 1;
      } else {
        savedKey := Key(es[pos].key.user);
        pos := pos + 1;
      }
    }

    method Next()
      requires Valid() && valid
      modifies this
      ensures Valid() && Lands(es, sequence, Op.Next, old(Cursor()), Cursor())
    {
      ghost var k := CurrentKey();
      StepPast(k);
      ghost var start := pos;
      valid := false;
      if pos == |es| {
        savedKey := Cleared;
      } else {
        FindNextUserEntry(true);
      }
      ForwardLands(es, sequence, Op.Next, Key(k), start, if valid then pos else |es|, valid, true, Key(k));
    }

    method Prev()
      requires Valid() && valid
      modifies this
      ensures Valid() && Lands(es, sequence, Op.Prev, old(Cursor()), Cursor())
    {
      ghost var k := CurrentKey();
      if direction == Forward {
        savedKey := Key(es[pos].key.user);
        ScanBeforeKey();
        if pos == |es| {
          BehindClear(es, sequence, pos, k);
          valid, savedKey, savedValue := false, Cleared, [];
          BackLands(es, sequence, Op.Prev, Key(k), -1, false, -1);
          return;
        }
        direction := Reverse;
      }
      BehindClear(es, sequence, pos, k);
      ghost var start: int := if pos < |es| then pos else -1;
      ghost var j := FindPrevUserEntry();
      BackLands(es, sequence, Op.Prev, Key(k), start, valid, j);
    }

    /** Step back until the user key drops below the saved one. */
    method ScanBeforeKey()
      requires WellFormed(es) && pos < |es| && savedKey == Key(es[pos].key.user)
      modifies this`pos
      ensures pos <= |es| && Behind(es, sequence, pos, savedKey.user)
    {
      ghost var q: int := pos;
      UsersFrom(es, q);
      StepBack();
      q := q - 1;
      while pos < |es| && !(es[pos].key.user < savedKey.user)
        invariant pos <= |es| && q == (if pos < |es| then pos else -1)
        invariant forall i :: q < i < |es| ==> savedKey.user <= es[i].key.user
        decreases q
      {
        StepBack();
        q := q - 1;
      }
    }
  }
}
