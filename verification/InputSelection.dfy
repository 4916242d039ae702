/** Which files a compaction takes: overlapping files, boundary files, and the files of the next level. */
module InputSelection {
  import opened Dbformat
  import opened Reads
  import opened Wrappers
  import opened LsmRuns

  /** A user-key range; a missing bound is unbounded. */
  datatype Range = Range(lo: Option<UserKey>, hi: Option<UserKey>) {
    predicate Has(k: UserKey) { (lo.None? || lo.value <= k) && (hi.None? || k <= hi.value) }

    predicate Overlaps(f: File) {
      (lo.None? || f.largest.user >= lo.value) && (hi.None? || f.smallest.user <= hi.value)
    }

    /** The file adds nothing to the range. */
    predicate Contains(f: File) {
      (lo.None? || f.smallest.user >= lo.value) && (hi.None? || f.largest.user <= hi.value)
    }

    predicate NonEmpty() { lo.None? || hi.None? || lo.value <= hi.value }
  }

  function UserRange(lo: InternalKey, hi: InternalKey): Range { Range(Some(lo.user), Some(hi.user)) }

  function Overlapping(files: Level, r: Range): (out: Level)
    ensures forall f :: f in out <==> f in files && r.Overlaps(f)
  {
    if |files| == 0 then []
    else
      var n := |files| - 1;
      assert files == files[..n] + [files[n]];
      Overlapping(files[..n], r) + if r.Overlaps(files[n]) then [files[n]] else []
  }

  ghost predicate AllValid(files: Level) { forall f :: f in files ==> f.Valid() }

  lemma KeysAscend(f: File)
    requires f.Valid()
    ensures f.smallest.user <= f.largest.user && AtMost(f.smallest, f.largest)
  {
    InValidFile(f, f.entries[0]);
  }

  predicate Meet(f: File, g: File) { f.smallest.user <= g.largest.user && g.smallest.user <= f.largest.user }

  /** `t` holds every file that overlaps `r` and every file that overlaps one of its own. */
  ghost predicate OverlapClosed(files: Level, r: Range, t: set<File>) {
    && (forall f :: f in files && r.Overlaps(f) ==> f in t)
    && (forall f, g :: f in files && g in t && Meet(f, g) ==> f in t)
  }

  /** Every key of `r` is in the requested range or in a file of `t`. */
  ghost predicate Swept(r0: Range, r: Range, t: set<File>) {
    r == r0 || (r.NonEmpty() && forall k :: r.Has(k) ==> r0.Has(k) || exists g :: g in t && g.CoversUser(k))
  }

  lemma SweptAbsorbs(files: Level, r0: Range, r: Range, t: set<File>, f: File)
    requires f in files && f.smallest.user <= f.largest.user && OverlapClosed(files, r0, t) && Swept(r0, r, t)
    requires r.Overlaps(f)
    ensures f in t
  {
    if r != r0 {
      var k := if r.lo.Some? && r.lo.value > f.smallest.user then r.lo.value else f.smallest.user;
      assert r.Has(k) && f.CoversUser(k);
      if r0.Has(k) {
        assert r0.Overlaps(f);
      } else {
        var g :| g in t && g.CoversUser(k);
        assert Meet(f, g);
      }
    }
  }

  function Lower(r: Range, f: File): Range { r.(lo := Some(f.smallest.user)) }
  function Raise(r: Range, f: File): Range { r.(hi := Some(f.largest.user)) }

  lemma SweptGrows(files: Level, r0: Range, r: Range, t: set<File>, f: File)
    requires f in files && f.smallest.user <= f.largest.user && OverlapClosed(files, r0, t) && Swept(r0, r, t)
    requires r.Overlaps(f)
    ensures r.lo.Some? ==> Swept(r0, Lower(r, f), t)
    ensures r.hi.Some? ==> Swept(r0, Raise(r, f), t)
  {
    SweptAbsorbs(files, r0, r, t, f);
    forall k | !r.Has(k) && !f.CoversUser(k)
      ensures r.lo.Some? ==> !Lower(r, f).Has(k)
      ensures r.hi.Some? ==> !Raise(r, f).Has(k)
    {
    }
  }

  /** How many files stick out of the range below or above. */
  ghost function Outside(files: Level, r: Range): nat {
    if |files| == 0 then 0
    else
      var f := files[0];
      (if r.lo.Some? && f.smallest.user < r.lo.value then 1 else 0)
      + (if r.hi.Some? && f.largest.user > r.hi.value then 1 else 0)
      + Outside(files[1..], r)
  }

  /** Growing the range to take in a file that stuck out leaves fewer files outside. */
  lemma {:induction false} OutsideShrinks(files: Level, r: Range, r': Range, f: File)
    requires f in files
    requires || (r.lo.Some? && f.smallest.user < r.lo.value && r' == Lower(r, f))
             || (r.hi.Some? && f.largest.user > r.hi.value && r' == Raise(r, f))
    ensures Outside(files, r') < Outside(files, r)
  {
    if files[0] == f {
      OutsideMonotone(files[1..], r, r', f);
    } else {
      OutsideShrinks(files[1..], r, r', f);
    }
  }

  lemma {:induction false} OutsideMonotone(files: Level, r: Range, r': Range, f: File)
    requires || (r.lo.Some? && f.smallest.user < r.lo.value && r' == Lower(r, f))
             || (r.hi.Some? && f.largest.user > r.hi.value && r' == Raise(r, f))
    ensures Outside(files, r') <= Outside(files, r)
  {
    if |files| > 0 {
      OutsideMonotone(files[1..], r, r', f);
    }
  }

  ghost predicate Least(files: Level, r0: Range, inputs: Level) {
    && OverlapClosed(files, r0, set f | f in inputs)
    && forall t: set<File> :: OverlapClosed(files, r0, t) ==> forall f :: f in inputs ==> f in t
  }

  /** The search takes the next file exactly if it overlaps. */
  lemma OverlappingSnoc(files: Level, i: nat, r: Range)
    requires i < |files|
    ensures Overlapping(files[..i + 1], r) ==
              Overlapping(files[..i], r) + if r.Overlaps(files[i]) then [files[i]] else []
  {
    assert files[..i + 1][..i] == files[..i];
  }

  /** Every overlap-closed set sweeps the range. */
  ghost predicate AllSweep(files: Level, r0: Range, r: Range) {
    forall t: set<File> :: OverlapClosed(files, r0, t) ==> Swept(r0, r, t)
  }

  lemma StartOfSweep(files: Level, r0: Range)
    ensures AllSweep(files, r0, r0) && Wider(r0, r0)
  {
  }

  /** A file that overlaps the range may widen it on either side. */
  lemma AllSweepGrows(files: Level, r0: Range, r: Range, f: File)
    requires f in files && f.Valid() && AllSweep(files, r0, r) && r.Overlaps(f) && Wider(r0, r)
    ensures r.lo.Some? ==>
              AllSweep(files, r0, Lower(r, f)) && (f.smallest.user < r.lo.value ==> Wider(r0, Lower(r, f)))
    ensures r.hi.Some? ==>
              AllSweep(files, r0, Raise(r, f)) && (f.largest.user > r.hi.value ==> Wider(r0, Raise(r, f)))
  {
    KeysAscend(f);
    hide OverlapClosed, Swept, File.Valid;
    forall t: set<File> | OverlapClosed(files, r0, t)
      ensures (r.lo.Some? ==> Swept(r0, Lower(r, f), t)) && (r.hi.Some? ==> Swept(r0, Raise(r, f), t))
    {
      SweptGrows(files, r0, r, t, f);
    }
  }

  /** GetOverlappingInputs. Above level 0 the result is exactly the overlapping files; at level 0 the search restarts
      whenever a file widens the range, and ends with the least overlap-closed set. */
  method GetOverlappingInputs(level: nat, files: Level, begin: Option<UserKey>,
                              end: Option<UserKey>) returns (inputs: Level, ghost range: Range)
    requires AllValid(files)
    ensures inputs == Overlapping(files, range)
    ensures level > 0 ==> range == Range(begin, end)
    ensures level == 0 ==> Least(files, Range(begin, end), inputs)
  {
    var userBegin, userEnd := begin, end;
    inputs := [];
    var i := 0;
    ghost var r0 := Range(begin, end);
    hide AllSweep, Least, File.Valid, Wider;
    StartOfSweep(files, r0);
    while i < |files|
      invariant 0 <= i <= |files|
      invariant inputs == Overlapping(files[..i], Range(userBegin, userEnd))
      invariant level > 0 ==> Range(userBegin, userEnd) == r0
      invariant level == 0 ==> forall f :: f in inputs ==> Range(userBegin, userEnd).Contains(f)
      invariant Wider(r0, Range(userBegin, userEnd))
      invariant AllSweep(files, r0, Range(userBegin, userEnd))
      decreases Outside(files, Range(userBegin, userEnd)), |files| - i
    {
      var f := files[i];
      ghost var r := Range(userBegin, userEnd);
      OverlappingSnoc(files, i, r);
      i := i + 1;
      if userBegin.Some? && f.largest.user < userBegin.value {
      } else if userEnd.Some? && f.smallest.user > userEnd.value {
      } else {
        inputs := inputs + [f];
        if level == 0 {
          AllSweepGrows(files, r0, r, f);
          if userBegin.Some? && f.smallest.user < userBegin.value {
            userBegin := Some(f.smallest.user);
            inputs, i := [], 0;
            OutsideShrinks(files, r, Range(userBegin, userEnd), f);
          } else if userEnd.Some? && f.largest.user > userEnd.value {
            userEnd := Some(f.largest.user);
            inputs, i := [], 0;
            OutsideShrinks(files, r, Range(userBegin, userEnd), f);
          }
        }
      }
    }
    assert files[..i] == files;
    range := Range(userBegin, userEnd);
    if level == 0 {
      StableIsLeast(files, r0, range, inputs);
    }
  }

  /** `r` reaches at least as far as `r0` on each side. */
  ghost predicate Wider(r0: Range, r: Range) {
    && (r0.lo.None? <==> r.lo.None?) && (r0.hi.None? <==> r.hi.None?)
    && (r.lo.Some? ==> r.lo.value <= r0.lo.value) && (r.hi.Some? ==> r.hi.value >= r0.hi.value)
  }

  /** A pass that widens nothing has found the least closed set. */
  lemma StableIsLeast(files: Level, r0: Range, r: Range, inputs: Level)
    requires AllValid(files) && inputs == Overlapping(files, r) && Wider(r0, r)
    requires forall f :: f in inputs ==> r.Contains(f)
    requires AllSweep(files, r0, r)
    ensures Least(files, r0, inputs)
  {
    forall t: set<File>, f | OverlapClosed(files, r0, t) && f in inputs
      ensures f in t
    {
      KeysAscend(f);
      SweptAbsorbs(files, r0, r, t, f);
    }
    var s := set f | f in inputs;
    forall f | f in files && r0.Overlaps(f) ensures f in s {
      assert r.Overlaps(f);
    }
    forall f, g | f in files && g in s && Meet(f, g) ensures f in s {
      assert r.Contains(g) && r.Overlaps(f);
    }
  }

  /** `lo` and `hi` are the smallest and the largest key of the files. */
  ghost predicate HullOf(files: Level, lo: InternalKey, hi: InternalKey) {
    && (exists f :: f in files && f.smallest == lo) && (exists f :: f in files && f.largest == hi)
    && forall f :: f in files ==> AtMost(lo, f.smallest) && AtMost(f.largest, hi)
  }

  lemma HullSnoc(files: Level, f: File, lo: InternalKey, hi: InternalKey)
    requires HullOf(files, lo, hi)
    ensures HullOf(files + [f], if Less(f.smallest, lo) then f.smallest else lo,
                   if Less(hi, f.largest) then f.largest else hi)
  {
    assert f in files + [f] && forall g :: g in files ==> g in files + [f];
  }

  method GetRange(inputs: Level) returns (smallest: InternalKey, largest: InternalKey)
    requires |inputs| > 0
    ensures HullOf(inputs, smallest, largest)
  {
    smallest, largest := inputs[0].smallest, inputs[0].largest;
    for i := 1 to |inputs|
      invariant HullOf(inputs[..i], smallest, largest)
    {
      var f := inputs[i];
      assert inputs[..i + 1] == inputs[..i] + [f];
      HullSnoc(inputs[..i], f, smallest, largest);
      hide HullOf;
      if Less(f.smallest, smallest) { smallest := f.smallest; }
      if Less(largest, f.largest) { largest := f.largest; }
    }
    assert inputs[..|inputs|] == inputs;
  }

  /** A file that continues the user key at which the inputs end. */
  predicate IsBoundary(f: File, largest: InternalKey) {
    Less(largest, f.smallest) && f.smallest.user == largest.user
  }

  ghost predicate NoBoundary(files: Level, largest: InternalKey) { forall f :: f in files ==> !IsBoundary(f, largest) }

  method FindSmallestBoundaryFile(files: Level, largest: InternalKey) returns (r: Option<File>)
    ensures r.None? ==> NoBoundary(files, largest)
    ensures r.Some? ==> r.value in files && IsBoundary(r.value, largest)
    ensures r.Some? ==> forall f :: f in files && IsBoundary(f, largest) ==> AtMost(r.value.smallest, f.smallest)
  {
    r := None;
    for i := 0 to |files|
      invariant r.None? ==> NoBoundary(files[..i], largest)
      invariant r.Some? ==> r.value in files && IsBoundary(r.value, largest)
      invariant r.Some? ==>
                  forall f :: f in files[..i] && IsBoundary(f, largest) ==> AtMost(r.value.smallest, f.smallest)
    {
      var f := files[i];
      assert files[..i + 1] == files[..i] + [f];
      if Less(largest, f.smallest) && f.smallest.user == largest.user {
        if r.None? || Less(f.smallest, r.value.smallest) {
          r := Some(f);
        }
      }
    }
    assert files[..|files|] == files;
  }

  /** FindLargestKey, for a non-empty list. */
  method FindLargestKey(files: Level) returns (largest: InternalKey)
    requires |files| > 0
    ensures exists lo :: HullOf(files, lo, largest)
  {
    var lo;
    lo, largest := GetRange(files);
  }

  /** Files of a level above 0: any two lie apart. */
  ghost predicate Apart(files: Level) {
    forall f, g :: f in files && g in files ==> f == g || Less(f.largest, g.smallest) || Less(g.largest, f.smallest)
  }

  lemma SortedApart(files: Level)
    requires DisjointSorted(files)
    ensures Apart(files) && AllValid(files)
  {
    forall f, g | f in files && g in files
      ensures f == g || Less(f.largest, g.smallest) || Less(g.largest, f.smallest)
    {
      var i :| 0 <= i < |files| && files[i] == f;
      var j :| 0 <= j < |files| && files[j] == g;
    }
  }

  /** The selection has no hole: a file inside its key range belongs to it. */
  ghost predicate Convex(files: Level, inputs: Level) {
    forall a, c, f ::
      a in inputs && c in inputs && f in files && AtMost(a.smallest, f.smallest) && AtMost(f.largest, c.largest) ==>
        f in inputs
  }

  /** What may be compacted: at level 0 all files that share user keys, elsewhere a run of neighbours. */
  ghost predicate Selectable(level: nat, files: Level, inputs: Level) {
    && |inputs| > 0 && (forall f :: f in inputs ==> f in files)
    && if level == 0 then forall f, g :: f in files && g in inputs && Meet(f, g) ==> f in inputs
       else Convex(files, inputs)
  }

  lemma HullUnique(files: Level, lo: InternalKey, hi: InternalKey, lo': InternalKey, hi': InternalKey)
    requires HullOf(files, lo, hi) && HullOf(files, lo', hi')
    ensures lo == lo' && hi == hi'
  {
  }

  /** Taking the next boundary file moves the upper end and leaves no hole. */
  lemma BoundaryExtends(level: nat, files: Level, inputs: Level, lo: InternalKey, hi: InternalKey, b: File)
    requires AllValid(files) && (level > 0 ==> Apart(files)) && Selectable(level, files, inputs)
    requires HullOf(inputs, lo, hi)
    requires b in files && IsBoundary(b, hi)
    requires forall f :: f in files && IsBoundary(f, hi) ==> AtMost(b.smallest, f.smallest)
    ensures level > 0 && HullOf(inputs + [b], lo, b.largest) && Selectable(level, files, inputs + [b])
  {
    hide Convex, Apart;
    KeysAscend(b);
    var m :| m in inputs && m.largest == hi;
    KeysAscend(m);
    assert level == 0 ==> Meet(b, m);
    HullGrows(inputs, lo, hi, b);
    BoundaryConvex(files, inputs, m, b);
  }

  lemma HullGrows(inputs: Level, lo: InternalKey, hi: InternalKey, b: File)
    requires HullOf(inputs, lo, hi) && Less(hi, b.smallest) && AtMost(b.smallest, b.largest) && AtMost(lo, hi)
    ensures HullOf(inputs + [b], lo, b.largest)
  {
    var m :| m in inputs && m.smallest == lo;
    assert m in inputs + [b] && b in inputs + [b];
  }

  lemma BoundaryConvex(files: Level, inputs: Level, m: File, b: File)
    requires AllValid(files) && Apart(files) && Convex(files, inputs) && b in files && m in inputs && m in files
    requires IsBoundary(b, m.largest)
    requires forall f :: f in files && IsBoundary(f, m.largest) ==> AtMost(b.smallest, f.smallest)
    requires forall f :: f in inputs ==> AtMost(f.largest, m.largest)
    ensures Convex(files, inputs + [b])
  {
    forall a, c, f | a in inputs + [b] && c in inputs + [b] && f in files && AtMost(a.smallest, f.smallest)
      && AtMost(f.largest, c.largest)
      ensures f in inputs + [b]
    {
      if Less(m.largest, f.largest) {
        NextIsBoundary(files, m, b, f);
      } else {
        KeysAscend(f);
        assert a in inputs && m in inputs && AtMost(f.largest, m.largest);
      }
    }
  }

  /** Of the files past `m`, the boundary file comes first. */
  lemma NextIsBoundary(files: Level, m: File, b: File, f: File)
    requires Apart(files) && m in files && b in files && f in files && m.Valid() && f.Valid() && b.Valid()
    requires IsBoundary(b, m.largest) && (IsBoundary(f, m.largest) ==> AtMost(b.smallest, f.smallest))
    requires Less(m.largest, f.largest) && AtMost(f.largest, b.largest)
    ensures f == b
  {
    KeysAscend(f);
    KeysAscend(b);
    KeysAscend(m);
    assert f == m || Less(f.largest, m.smallest) || Less(m.largest, f.smallest);
    assert f == b || Less(f.largest, b.smallest) || Less(b.largest, f.smallest);
  }

  ghost predicate Extends(inputs: Level, inputs': Level) { forall f :: f in inputs ==> f in inputs' }

  /** How many files start after `key`. */
  ghost function StartingAfter(files: Level, key: InternalKey): nat {
    if |files| == 0 then 0 else (if Less(key, files[0].smallest) then 1 else 0) + StartingAfter(files[1..], key)
  }

  lemma {:induction false} FewerStartAfter(files: Level, key: InternalKey, key': InternalKey)
    requires Less(key, key')
    ensures StartingAfter(files, key') <= StartingAfter(files, key)
    ensures (exists f :: f in files && Less(key, f.smallest) && AtMost(f.smallest, key')) ==>
              StartingAfter(files, key') < StartingAfter(files, key)
  {
    if |files| > 0 {
      FewerStartAfter(files[1..], key, key');
    }
  }

  /** The boundary file with the smallest key. */
  ghost predicate SmallestBoundary(files: Level, largest: InternalKey, b: File) {
    && b in files && IsBoundary(b, largest)
    && forall f :: f in files && IsBoundary(f, largest) ==> AtMost(b.smallest, f.smallest)
  }

  /** The largest key once `n` files are taken, from `hi` for the first `m`. */
  function LargestOf(inputs: Level, m: nat, n: nat, hi: InternalKey): InternalKey
    requires m <= n <= |inputs|
  {
    if n == m then hi else inputs[n - 1].largest
  }

  /** Each file added is the smallest boundary file of what was there before it. */
  ghost predicate Chained(files: Level, inputs0: Level, hi: InternalKey, inputs: Level) {
    && inputs0 <= inputs
    && forall n :: |inputs0| <= n < |inputs| ==>
         SmallestBoundary(files, LargestOf(inputs, |inputs0|, n, hi), inputs[n])
  }

  /** `inputs` is `inputs0` and its boundary files, one after another until there is none. */
  ghost predicate Closes(files: Level, inputs0: Level, inputs: Level) {
    forall lo, hi :: HullOf(inputs0, lo, hi) ==>
      Chained(files, inputs0, hi, inputs) && NoBoundary(files, LargestOf(inputs, |inputs0|, |inputs|, hi))
  }

  /** AddBoundaryInputs: it ends with no file left that continues the largest user key. */
  method AddBoundaryInputs(level: nat, files: Level,
                           inputs0: Level) returns (inputs: Level, ghost lo: InternalKey, ghost hi: InternalKey)
    requires AllValid(files) && (level > 0 ==> Apart(files)) && Selectable(level, files, inputs0)
    ensures inputs0 <= inputs && Selectable(level, files, inputs) && HullOf(inputs, lo, hi) && NoBoundary(files, hi)
    ensures level == 0 ==> inputs == inputs0
    ensures Closes(files, inputs0, inputs)
  {
    hide Chained, SmallestBoundary, Selectable;
    StartChain(files, inputs0);
    NonEmptyInputs(level, files, inputs0);
    inputs := inputs0;
    var largest := FindLargestKey(inputs);
    lo :| HullOf(inputs, lo, largest);
    ghost var lo0, hi0 := lo, largest;
    var searching := true;
    while searching
      invariant inputs0 <= inputs && Selectable(level, files, inputs) && HullOf(inputs, lo, largest)
      invariant level == 0 ==> inputs == inputs0
      invariant !searching ==> NoBoundary(files, largest)
      invariant Chained(files, inputs0, hi0, inputs) && largest == LargestOf(inputs, |inputs0|, |inputs|, hi0)
      decreases searching, StartingAfter(files, largest)
    {
      var b := FindSmallestBoundaryFile(files, largest);
      if b.Some? {
        BoundaryExtends(level, files, inputs, lo, largest, b.value);
        KeysAscend(b.value);
        FewerStartAfter(files, largest, b.value.largest);
        SmallestIs(files, largest, b.value);
        ChainMore(files, inputs0, hi0, inputs, b.value);
        inputs := inputs + [b.value];
        largest := b.value.largest;
      } else {
        searching := false;
      }
    }
    hi := largest;
    ClosesIntro(files, inputs0, lo0, hi0, inputs);
  }

  lemma StartChain(files: Level, inputs0: Level)
    ensures forall hi :: Chained(files, inputs0, hi, inputs0)
  {
  }

  lemma SmallestIs(files: Level, largest: InternalKey, b: File)
    requires b in files && IsBoundary(b, largest)
    requires forall f :: f in files && IsBoundary(f, largest) ==> AtMost(b.smallest, f.smallest)
    ensures SmallestBoundary(files, largest, b)
  {
  }

  lemma ChainMore(files: Level, inputs0: Level, hi: InternalKey, inputs: Level, b: File)
    requires Chained(files, inputs0, hi, inputs)
    requires SmallestBoundary(files, LargestOf(inputs, |inputs0|, |inputs|, hi), b)
    ensures Chained(files, inputs0, hi, inputs + [b])
  {
    hide SmallestBoundary;
    var more := inputs + [b];
    forall n | |inputs0| <= n < |more|
      ensures SmallestBoundary(files, LargestOf(more, |inputs0|, n, hi), more[n])
    {
      assert LargestOf(more, |inputs0|, n, hi) == LargestOf(inputs, |inputs0|, n, hi);
    }
  }

  lemma ClosesIntro(files: Level, inputs0: Level, lo: InternalKey, hi: InternalKey, inputs: Level)
    requires HullOf(inputs0, lo, hi) && Chained(files, inputs0, hi, inputs)
    requires NoBoundary(files, LargestOf(inputs, |inputs0|, |inputs|, hi))
    ensures Closes(files, inputs0, inputs)
  {
    assert |inputs0| <= |inputs|;
    hide Chained, NoBoundary;
    forall lo', hi' | HullOf(inputs0, lo', hi')
      ensures Chained(files, inputs0, hi', inputs) && NoBoundary(files, LargestOf(inputs, |inputs0|, |inputs|, hi'))
    {
      HullUnique(inputs0, lo, hi, lo', hi');
    }
  }

  /** What the overlap search returns is selectable. */
  lemma OverlappingSelectable(files: Level, r: Range)
    requires AllValid(files) && Apart(files)
    ensures Convex(files, Overlapping(files, r))
  {
    var inputs := Overlapping(files, r);
    forall a, c, f | a in inputs && c in inputs && f in files && AtMost(a.smallest, f.smallest)
      && AtMost(f.largest, c.largest)
      ensures f in inputs
    {
      hide File.Valid;
      BetweenOverlaps(r, a, c, f);
    }
  }

  /** A file between two that overlap the range overlaps it. */
  lemma BetweenOverlaps(r: Range, a: File, c: File, f: File)
    requires a.Valid() && c.Valid() && f.Valid() && r.Overlaps(a) && r.Overlaps(c)
    requires AtMost(a.smallest, f.smallest) && AtMost(f.largest, c.largest)
    requires a == f || Less(a.largest, f.smallest) || Less(f.largest, a.smallest)
    requires c == f || Less(c.largest, f.smallest) || Less(f.largest, c.smallest)
    ensures r.Overlaps(f)
  {
    KeysAscend(f);
    KeysAscend(a);
    KeysAscend(c);
  }

  lemma LeastSelectable(files: Level, r: Range, inputs: Level)
    requires Least(files, r, inputs) && |inputs| > 0 && (forall f :: f in inputs ==> f in files)
    ensures Selectable(0, files, inputs)
  {
    var s := set f | f in inputs;
    assert OverlapClosed(files, r, s);
  }

  lemma OneFileSelectable(files: Level, f: File)
    requires AllValid(files) && Apart(files) && f in files
    ensures Convex(files, [f])
  {
    forall a, c, g | a in [f] && c in [f] && g in files && AtMost(a.smallest, g.smallest)
      && AtMost(g.largest, c.largest)
      ensures g in [f]
    {
      KeysAscend(g);
    }
  }

  /** A wider range that catches no more files catches the same files. */
  lemma {:induction false} SameCountSameFiles(files: Level, r: Range, wide: Range)
    requires forall f :: f in files && r.Overlaps(f) ==> wide.Overlaps(f)
    ensures |Overlapping(files, r)| <= |Overlapping(files, wide)|
    ensures |Overlapping(files, r)| == |Overlapping(files, wide)| ==> Overlapping(files, r) == Overlapping(files, wide)
  {
    if |files| > 0 {
      SameCountSameFiles(files[..|files| - 1], r, wide);
    }
  }

  function TotalFileSize(files: Level): nat {
    if |files| == 0 then 0 else files[0].fileSize + TotalFileSize(files[1..])
  }

  lemma {:induction false} TotalSnoc(files: Level, f: File)
    ensures TotalFileSize(files + [f]) == TotalFileSize(files) + f.fileSize
  {
    if |files| > 0 {
      TotalSnoc(files[1..], f);
      assert (files + [f])[1..] == files[1..] + [f];
    }
  }

  datatype Picked = Picked(inputs0: Level, inputs1: Level, grandparents: Level, compactPointer: InternalKey)

  /** The files of the next level are exactly those that overlap the user range of the selection. */
  ghost predicate CoversNext(v: Version, level: nat, inputs0: Level, inputs1: Level)
    requires level + 1 < |v|
  {
    forall lo, hi :: HullOf(inputs0, lo, hi) ==> inputs1 == Overlapping(v[level + 1], UserRange(lo, hi))
  }

  lemma CoversNextIntro(v: Version, level: nat, inputs0: Level, inputs1: Level, lo: InternalKey, hi: InternalKey)
    requires level + 1 < |v| && HullOf(inputs0, lo, hi) && inputs1 == Overlapping(v[level + 1], UserRange(lo, hi))
    ensures CoversNext(v, level, inputs0, inputs1)
  {
    forall lo', hi' | HullOf(inputs0, lo', hi') ensures inputs1 == Overlapping(v[level + 1], UserRange(lo', hi')) {
      HullUnique(inputs0, lo, hi, lo', hi');
    }
  }

  /** What is compacted from `level`, closed under boundary files. */
  ghost predicate Finished(level: nat, files: Level, inputs: Level) {
    Selectable(level, files, inputs) && exists lo, hi :: HullOf(inputs, lo, hi) && NoBoundary(files, hi)
  }

  /** What GetOverlappingInputs returns for a range of keys. */
  ghost predicate Overlaps(level: nat, files: Level, r: Range, inputs: Level) {
    && (exists range :: inputs == Overlapping(files, range))
    && if level == 0 then Least(files, r, inputs) else inputs == Overlapping(files, r)
  }

  /** The files of a range and their boundary files. */
  ghost predicate Grown(level: nat, files: Level, r: Range, inputs: Level) {
    exists overlapping :: Overlaps(level, files, r, overlapping) && Closes(files, overlapping, inputs)
  }

  /** The larger selection is taken when it has more files, fits the limit and needs no more files of the next level. */
  ghost predicate Takes(v: Version, level: nat, inputs0: Level, inputs1: Level, more0: Level, sizeLimit: nat)
    requires level + 1 < |v|
  {
    && |more0| > |inputs0| && TotalFileSize(inputs1) + TotalFileSize(more0) < sizeLimit
    && forall lo, hi :: HullOf(more0, lo, hi) ==> |Overlapping(v[level + 1], UserRange(lo, hi))| == |inputs1|
  }

  /** What Expand makes of a selection. */
  ghost predicate Expanded(v: Version, level: nat, inputs0: Level, inputs1: Level, sizeLimit: nat, expanded0: Level)
    requires level + 1 < |v|
  {
    if inputs1 == [] then expanded0 == inputs0
    else exists lo, hi, more0 ::
      && HullOf(inputs0 + inputs1, lo, hi) && Grown(level, v[level], UserRange(lo, hi), more0)
      && expanded0 == if Takes(v, level, inputs0, inputs1, more0, sizeLimit) then more0 else inputs0
  }

  /** One selection at `level`: overlap search then boundary files. */
  method Grow(v: Version, level: nat, inputs0: Level, begin: InternalKey,
              end: InternalKey) returns (expanded: Level, lo: InternalKey, hi: InternalKey)
    requires ValidVersion(v) && level < |v| && Selectable(level, v[level], inputs0)
    requires forall f :: f in inputs0 ==> begin.user <= f.largest.user && f.smallest.user <= end.user
    ensures Finished(level, v[level], expanded) && HullOf(expanded, lo, hi) && Extends(inputs0, expanded)
    ensures Grown(level, v[level], UserRange(begin, end), expanded)
  {
    LevelFacts(v, level);
    hide Closes;
    var overlapping, r := GetOverlappingInputs(level, v[level], Some(begin.user), Some(end.user));
    var r0 := UserRange(begin, end);
    if level == 0 {
      assert OverlapClosed(v[0], r0, set f | f in overlapping);
    }
    forall f | f in inputs0 ensures f in overlapping { assert r0.Overlaps(f); }
    assert inputs0[0] in overlapping;
    if level == 0 {
      LeastSelectable(v[0], r0, overlapping);
    } else {
      OverlappingSelectable(v[level], r0);
    }
    ghost var gl, gh;
    expanded, gl, gh := AddBoundaryInputs(level, v[level], overlapping);
    assert Overlaps(level, v[level], r0, overlapping);
    lo, hi := GetRange(expanded);
  }

  lemma LevelFacts(v: Version, level: nat)
    requires ValidVersion(v) && level < |v|
    ensures AllValid(v[level]) && (level > 0 ==> Apart(v[level]))
  {
    if level > 0 { SortedApart(v[level]); }
  }

  /** SetupOtherInputs, from the files first picked at `level`. */
  method SetupOtherInputs(v: Version, level: nat, picked: Level, sizeLimit: nat) returns (c: Picked, ghost base: Level)
    requires ValidVersion(v) && level + 1 < |v| && Selectable(level, v[level], picked)
    ensures picked <= base && Finished(level, v[level], base) && Extends(base, c.inputs0)
    ensures Closes(v[level], picked, base) && Expanded(v, level, base, c.inputs1, sizeLimit, c.inputs0)
    ensures Finished(level, v[level], c.inputs0)
    ensures CoversNext(v, level, c.inputs0, c.inputs1) && CoversNext(v, level, base, c.inputs1)
    ensures exists lo :: HullOf(c.inputs0, lo, c.compactPointer)
    ensures level + 2 < |v| ==>
              exists lo, hi :: HullOf(c.inputs0 + c.inputs1, lo, hi)
                               && c.grandparents == Overlapping(v[level + 2], UserRange(lo, hi))
  {
    hide HullOf, Selectable, NoBoundary, ValidVersion, Closes, Expanded;
    LevelFacts(v, level);
    ghost var gl, gh;
    var inputs0;
    inputs0, gl, gh := AddBoundaryInputs(level, v[level], picked);
    base := inputs0;
    NonEmptyInputs(level, v[level], base);
    var inputs1, smallest, largest := NextInputs(v, level, inputs0);
    var largest';
    inputs0, inputs1, largest' := Expand(v, level, inputs0, inputs1, smallest, largest, sizeLimit);
    NonEmptyInputs(level, v[level], inputs0);
    var allStart, allLimit := GetRange(inputs0 + inputs1);
    var grandparents: Level := [];
    if level + 2 < |v| {
      LevelFacts(v, level + 2);
      ghost var r3;
      grandparents, r3 := GetOverlappingInputs(level + 2, v[level + 2], Some(allStart.user), Some(allLimit.user));
    }
    c := Picked(inputs0, inputs1, grandparents, largest');
  }

  lemma NonEmptyInputs(level: nat, files: Level, inputs: Level)
    requires Selectable(level, files, inputs)
    ensures |inputs| > 0
  {
  }

  /** The files of the next level that overlap the selection. */
  method NextInputs(v: Version, level: nat,
                    inputs0: Level) returns (inputs1: Level, smallest: InternalKey, largest: InternalKey)
    requires ValidVersion(v) && level + 1 < |v| && |inputs0| > 0
    ensures HullOf(inputs0, smallest, largest) && CoversNext(v, level, inputs0, inputs1)
  {
    LevelFacts(v, level + 1);
    smallest, largest := GetRange(inputs0);
    ghost var r;
    inputs1, r := GetOverlappingInputs(level + 1, v[level + 1], Some(smallest.user), Some(largest.user));
    CoversNextIntro(v, level, inputs0, inputs1, smallest, largest);
  }

  /** Take more files of `level` if that leaves the files of the next level as they are. */
  method Expand(v: Version, level: nat, inputs0: Level, inputs1: Level, smallest: InternalKey, largest: InternalKey,
                sizeLimit: nat)
    returns (expanded0: Level, expanded1: Level, pointer: InternalKey)
    requires ValidVersion(v) && level + 1 < |v| && Finished(level, v[level], inputs0)
    requires HullOf(inputs0, smallest, largest) && CoversNext(v, level, inputs0, inputs1)
    ensures Finished(level, v[level], expanded0) && Extends(inputs0, expanded0)
    ensures expanded1 == inputs1 && CoversNext(v, level, expanded0, expanded1)
    ensures exists lo :: HullOf(expanded0, lo, pointer)
    ensures Expanded(v, level, inputs0, inputs1, sizeLimit, expanded0)
  {
    hide Grown, Expanded, Takes, Closes;
    expanded0, expanded1, pointer := inputs0, inputs1, largest;
    NotExpanded(v, level, inputs0, inputs1, sizeLimit);
    if |inputs1| > 0 {
      LevelFacts(v, level);
      var allStart, allLimit := GetRange(inputs0 + inputs1);
      InsideHull(inputs0, inputs1, allStart, allLimit, v[level]);
      var more0, lo0, hi0 := Grow(v, level, inputs0, allStart, allLimit);
      if |more0| > |inputs0| && TotalFileSize(inputs1) + TotalFileSize(more0) < sizeLimit {
        var more1, newStart, newLimit := NextInputs(v, level, more0);
        TakesIff(v, level, inputs0, inputs1, more0, sizeLimit, newStart, newLimit, more1);
        if |more1| == |inputs1| {
          SameNext(v, level, inputs0, smallest, largest, inputs1, more0, newStart, newLimit, more1);
          expanded0, expanded1, pointer := more0, more1, newLimit;
        }
      } else {
        TakesNot(v, level, inputs0, inputs1, more0, sizeLimit);
      }
      ExpandedIntro(v, level, inputs0, inputs1, sizeLimit, allStart, allLimit, more0, expanded0);
    }
  }

  lemma NotExpanded(v: Version, level: nat, inputs0: Level, inputs1: Level, sizeLimit: nat)
    requires level + 1 < |v|
    ensures |inputs1| == 0 ==> Expanded(v, level, inputs0, inputs1, sizeLimit, inputs0)
  {
  }

  lemma TakesNot(v: Version, level: nat, inputs0: Level, inputs1: Level, more0: Level, sizeLimit: nat)
    requires level + 1 < |v|
    requires |more0| <= |inputs0| || TotalFileSize(inputs1) + TotalFileSize(more0) >= sizeLimit
    ensures !Takes(v, level, inputs0, inputs1, more0, sizeLimit)
  {
  }

  lemma TakesIff(v: Version, level: nat, inputs0: Level, inputs1: Level, more0: Level, sizeLimit: nat, lo: InternalKey,
                 hi: InternalKey, more1: Level)
    requires level + 1 < |v| && HullOf(more0, lo, hi) && CoversNext(v, level, more0, more1)
    requires |more0| > |inputs0| && TotalFileSize(inputs1) + TotalFileSize(more0) < sizeLimit
    ensures Takes(v, level, inputs0, inputs1, more0, sizeLimit) <==> |more1| == |inputs1|
  {
    assert more1 == Overlapping(v[level + 1], UserRange(lo, hi));
    hide HullOf;
  }

  lemma ExpandedIntro(v: Version, level: nat, inputs0: Level, inputs1: Level, sizeLimit: nat, lo: InternalKey,
                      hi: InternalKey, more0: Level, expanded0: Level)
    requires level + 1 < |v| && |inputs1| > 0 && HullOf(inputs0 + inputs1, lo, hi)
    requires Grown(level, v[level], UserRange(lo, hi), more0)
    requires expanded0 == if Takes(v, level, inputs0, inputs1, more0, sizeLimit) then more0 else inputs0
    ensures Expanded(v, level, inputs0, inputs1, sizeLimit, expanded0)
  {
    hide HullOf, Grown, Takes;
  }

  lemma SameNext(v: Version, level: nat, inputs0: Level, lo: InternalKey, hi: InternalKey, inputs1: Level,
                 more0: Level, lo': InternalKey, hi': InternalKey, more1: Level)
    requires level + 1 < |v| && Extends(inputs0, more0) && HullOf(inputs0, lo, hi) && HullOf(more0, lo', hi')
    requires CoversNext(v, level, inputs0, inputs1) && CoversNext(v, level, more0, more1) && |inputs1| == |more1|
    ensures inputs1 == more1
  {
    WiderHull(inputs0, more0, lo, hi, lo', hi');
    SameCountSameFiles(v[level + 1], UserRange(lo, hi), UserRange(lo', hi'));
  }

  lemma InsideHull(inputs0: Level, inputs1: Level, lo: InternalKey, hi: InternalKey, files: Level)
    requires HullOf(inputs0 + inputs1, lo, hi) && AllValid(files) && forall f :: f in inputs0 ==> f in files
    ensures forall f :: f in inputs0 ==> lo.user <= f.largest.user && f.smallest.user <= hi.user
  {
    forall f | f in inputs0 ensures lo.user <= f.largest.user && f.smallest.user <= hi.user {
      KeysAscend(f);
      assert f in inputs0 + inputs1;
    }
  }

  lemma WiderHull(inputs: Level, more: Level, lo: InternalKey, hi: InternalKey, lo': InternalKey, hi': InternalKey)
    requires HullOf(inputs, lo, hi) && HullOf(more, lo', hi') && Extends(inputs, more)
    ensures lo'.user <= lo.user && hi.user <= hi'.user
  {
  }

  /** A prefix of the overlapping files is still a run of neighbours. */
  lemma PrefixSelectable(files: Level, inputs: Level, n: nat)
    requires DisjointSorted(inputs) && AllValid(files) && Convex(files, inputs) && n <= |inputs|
    ensures Convex(files, inputs[..n])
  {
    forall a, c, f | a in inputs[..n] && c in inputs[..n] && f in files && AtMost(a.smallest, f.smallest)
      && AtMost(f.largest, c.largest)
      ensures f in inputs[..n]
    {
      assert f in inputs;
      PrefixMember(inputs, n, c, f);
    }
  }

  lemma PrefixMember(inputs: Level, n: nat, c: File, f: File)
    requires DisjointSorted(inputs) && n <= |inputs| && c in inputs[..n] && f in inputs && AtMost(f.largest, c.largest)
    ensures f in inputs[..n]
  {
    var i :| 0 <= i < |inputs| && inputs[i] == f;
    var j :| 0 <= j < n && inputs[j] == c;
    KeysAscend(inputs[i]);
    if i < n { assert inputs[..n][i] == f; }
  }

  lemma {:induction false} OverlappingSorted(files: Level, r: Range)
    requires DisjointSorted(files)
    ensures DisjointSorted(Overlapping(files, r))
  {
    if |files| > 0 {
      var front := files[..|files| - 1];
      OverlappingSorted(front, r);
      forall f | f in Overlapping(front, r) ensures Less(f.largest, files[|files| - 1].smallest) {
        var i :| 0 <= i < |front| && front[i] == f;
        assert files[i] == f;
      }
    }
  }

  /** The files a compaction starts from: the chosen one, at level 0 with all it overlaps. */
  ghost predicate PickedFirst(level: nat, files: Level, f: File, picked: Level) {
    if level == 0 then Overlaps(0, files, UserRange(f.smallest, f.largest), picked) else picked == [f]
  }

  lemma OneFileHull(f: File, lo: InternalKey, hi: InternalKey)
    requires HullOf([f], lo, hi)
    ensures lo == f.smallest && hi == f.largest
  {
  }

  /** PickCompaction, after it chose file `f` of `level`. */
  method PickCompaction(v: Version, level: nat, f: File, sizeLimit: nat) returns (c: Picked, ghost base: Level)
    requires ValidVersion(v) && level + 1 < |v| && f in v[level]
    ensures f in c.inputs0 && Finished(level, v[level], c.inputs0) && CoversNext(v, level, c.inputs0, c.inputs1)
    ensures Expanded(v, level, base, c.inputs1, sizeLimit, c.inputs0)
    ensures exists picked :: PickedFirst(level, v[level], f, picked) && Closes(v[level], picked, base)
  {
    hide ValidVersion, HullOf, Finished, CoversNext, Closes, Expanded, PickedFirst, Selectable;
    var inputs := StartPick(v, level, f);
    c, base := SetupOtherInputs(v, level, inputs, sizeLimit);
  }

  method StartPick(v: Version, level: nat, f: File) returns (inputs: Level)
    requires ValidVersion(v) && level < |v| && f in v[level]
    ensures f in inputs && Selectable(level, v[level], inputs) && PickedFirst(level, v[level], f, inputs)
  {
    LevelFacts(v, level);
    hide ValidVersion, File.Valid, HullOf;
    inputs := [f];
    if level == 0 {
      KeysAscend(f);
      ghost var r;
      var smallest, largest := GetRange(inputs);
      OneFileHull(f, smallest, largest);
      inputs, r := GetOverlappingInputs(0, v[0], Some(smallest.user), Some(largest.user));
      ghost var r0 := UserRange(smallest, largest);
      assert OverlapClosed(v[0], r0, set g | g in inputs) && r0.Overlaps(f);
      LeastSelectable(v[0], r0, inputs);
    } else {
      OneFileSelectable(v[level], f);
    }
  }

  /** The first `n` files reach the limit or are all, and fewer do not reach it. */
  ghost predicate CutAt(inputs: Level, n: nat, fileLimit: nat)
    requires n <= |inputs|
  {
    (n < |inputs| ==> TotalFileSize(inputs[..n]) >= fileLimit) && (n > 1 ==> TotalFileSize(inputs[..n - 1]) < fileLimit)
  }

  /** The files a manual compaction starts from. */
  ghost predicate RangeFirst(level: nat, files: Level, r: Range, fileLimit: nat, picked: Level) {
    if level == 0 then Overlaps(0, files, r, picked)
    else
      && 0 < |picked| && picked <= Overlapping(files, r)
      && CutAt(Overlapping(files, r), |picked|, fileLimit)
  }

  /** How many files a manual compaction takes: up to the one that reaches the limit. */
  method CutShort(inputs: Level, fileLimit: nat) returns (n: nat)
    requires |inputs| > 0
    ensures 0 < n <= |inputs| && CutAt(inputs, n, fileLimit)
  {
    n := 0;
    var total := 0;
    while n < |inputs|
      invariant 0 <= n <= |inputs| && total == TotalFileSize(inputs[..n])
      invariant n > 0 ==> TotalFileSize(inputs[..n]) < fileLimit
      invariant n > 1 ==> TotalFileSize(inputs[..n - 1]) < fileLimit
    {
      TotalSnoc(inputs[..n], inputs[n]);
      assert inputs[..n + 1] == inputs[..n] + [inputs[n]];
      total := total + inputs[n].fileSize;
      n := n + 1;
      if total >= fileLimit {
        break;
      }
    }
  }

  /** CompactRange: a manual compaction of [begin, end], cut short above level 0 once it is large enough. */
  method CompactRange(v: Version, level: nat, begin: Option<UserKey>, end: Option<UserKey>, fileLimit: nat,
                      sizeLimit: nat)
    returns (c: Option<Picked>, ghost base: Level)
    requires ValidVersion(v) && level + 1 < |v|
    ensures c.None? <==> Overlapping(v[level], Range(begin, end)) == []
    ensures c.Some? ==>
              Finished(level, v[level], c.value.inputs0) && CoversNext(v, level, c.value.inputs0, c.value.inputs1)
    ensures c.Some? && level > 0 ==> Overlapping(v[level], Range(begin, end))[0] in c.value.inputs0
    ensures c.Some? ==> Expanded(v, level, base, c.value.inputs1, sizeLimit, c.value.inputs0)
    ensures c.Some? ==> exists picked ::
              RangeFirst(level, v[level], Range(begin, end), fileLimit, picked) && Closes(v[level], picked, base)
  {
    hide ValidVersion, HullOf, Finished, CoversNext, Closes, Expanded, RangeFirst, Selectable;
    var inputs := StartRange(v, level, begin, end, fileLimit);
    if |inputs| == 0 {
      return None, [];
    }
    var picked;
    picked, base := SetupOtherInputs(v, level, inputs, sizeLimit);
    assert inputs[0] in base;
    return Some(picked), base;
  }

  method StartRange(v: Version, level: nat, begin: Option<UserKey>, end: Option<UserKey>, fileLimit: nat)
    returns (inputs: Level)
    requires ValidVersion(v) && level < |v|
    ensures inputs == [] <==> Overlapping(v[level], Range(begin, end)) == []
    ensures inputs != [] ==>
              Selectable(level, v[level], inputs) && RangeFirst(level, v[level], Range(begin, end), fileLimit, inputs)
    ensures inputs != [] && level > 0 ==> inputs[0] == Overlapping(v[level], Range(begin, end))[0]
  {
    LevelFacts(v, level);
    assert level > 0 ==> DisjointSorted(v[level]);
    hide ValidVersion, File.Valid, DisjointSorted, Convex, Least, CutAt;
    ghost var r;
    inputs, r := GetOverlappingInputs(level, v[level], begin, end);
    ghost var r0 := Range(begin, end);
    NothingOverlaps(level, v[level], r0, inputs, r);
    if |inputs| == 0 {
      return [];
    }
    if level > 0 {
      OverlappingSelectable(v[level], r0);
      OverlappingSorted(v[level], r0);
      var n := CutShort(inputs, fileLimit);
      PrefixSelectable(v[level], inputs, n);
      inputs := inputs[..n];
    } else {
      LeastSelectable(v[0], r0, inputs);
    }
  }

  lemma NothingOverlaps(level: nat, files: Level, r0: Range, inputs: Level, r: Range)
    requires inputs == Overlapping(files, r) && (level > 0 ==> r == r0) && (level == 0 ==> Least(files, r0, inputs))
    ensures inputs == [] <==> Overlapping(files, r0) == []
  {
    assert inputs == [] || inputs[0] in inputs;
    if level == 0 {
      assert OverlapClosed(files, r0, set f | f in inputs);
      if Overlapping(files, r0) != [] {
        var f := Overlapping(files, r0)[0];
        assert f in Overlapping(files, r0);
        assert f in inputs;
      } else {
        assert forall f :: f in files && r0.Overlaps(f) ==> f in Overlapping(files, r0);
        assert OverlapClosed(files, r0, {});
      }
    }
  }

  /** A file left at the level holds only newer entries of the keys it shares with the inputs. */
  lemma LeftBehindIsNewer(level: nat, files: Level, inputs: Level, f: File, y: Entry, g: File, x: Entry)
    requires AllValid(files) && (level > 0 ==> Apart(files)) && Finished(level, files, inputs)
    requires UniqueSequences(FilesContents(files))
    requires f in files && f !in inputs && y in f.entries && g in inputs && x in g.entries && x.key.user == y.key.user
    ensures y.key.sequence > x.key.sequence
  {
    assert g in files && f.Valid() && g.Valid();
    assert x in FilesContents(files) && y in FilesContents(files);
    assert x.key.sequence == y.key.sequence ==> x == y;
    hide UniqueSequences, FilesContents, File.Valid, Finished;
    if level == 0 {
      NoSharedKeys(files, inputs, f, y, g, x);
    } else {
      assert Less(f.largest, g.smallest) || Less(g.largest, f.smallest);
      InValidFile(f, y);
      InValidFile(g, x);
      if Less(g.largest, f.smallest) { NoneContinues(level, files, inputs, f, g); }
    }
  }

  /** At level 0 a file left behind shares no user key with the inputs. */
  lemma NoSharedKeys(files: Level, inputs: Level, f: File, y: Entry, g: File, x: Entry)
    requires Finished(0, files, inputs) && f in files && f !in inputs && g in inputs
    requires f.Valid() && g.Valid() && y in f.entries && x in g.entries
    ensures x.key.user != y.key.user
  {
    assert !Meet(f, g);
    InValidFile(f, y);
    InValidFile(g, x);
  }

  /** No file left at the level starts with the user key that ends an input. */
  lemma NoneContinues(level: nat, files: Level, inputs: Level, f: File, g: File)
    requires level > 0 && AllValid(files) && Apart(files) && Finished(level, files, inputs)
    requires f in files && f !in inputs && g in inputs && Less(g.largest, f.smallest)
    ensures f.smallest.user != g.largest.user
  {
    var lo, hi :| HullOf(inputs, lo, hi) && NoBoundary(files, hi);
    assert HullOf(inputs, lo, hi) && NoBoundary(files, hi);
    PastTheHull(files, inputs, lo, hi, f, g);
    assert !IsBoundary(f, hi);
    hide HullOf, AllValid, Apart, Finished;
  }

  lemma PastTheHull(files: Level, inputs: Level, lo: InternalKey, hi: InternalKey, f: File, g: File)
    requires AllValid(files) && Apart(files) && Convex(files, inputs) && HullOf(inputs, lo, hi)
    requires (forall f :: f in inputs ==> f in files)
    requires f in files && f !in inputs && g in inputs && Less(g.largest, f.smallest)
    ensures Less(hi, f.smallest) && AtMost(g.largest, hi)
  {
    var m :| m in inputs && m.largest == hi;
    KeysAscend(g);
    KeysAscend(f);
    KeysAscend(m);
  }

  ghost function Numbers(files: Level): set<nat> { set f | f in files :: f.number }

  ghost predicate NumbersIdentify(files: Level) {
    forall f, g :: f in files && g in files && f.number == g.number ==> f == g
  }

  /** Every file of the next level that continues the last user key of `inputs1`; none if there is no such file. */
  ghost predicate NextClosed(files: Level, inputs1: Level) {
    forall lo, hi :: HullOf(inputs1, lo, hi) ==> NoBoundary(files, hi)
  }

  /** The chosen inputs of a compaction as the runs use them. */
  ghost predicate Chosen(v: Version, level: nat, c: Picked) {
    && ValidVersion(v) && level + 1 < |v| && LevelOrdered(v)
    && UniqueSequences(FilesContents(v[level])) && UniqueSequences(FilesContents(v[level + 1]))
    && NumbersIdentify(v[level]) && NumbersIdentify(v[level + 1])
    && Finished(level, v[level], c.inputs0) && CoversNext(v, level, c.inputs0, c.inputs1)
  }

  lemma LeftBehind(files: Level, inputs: Level, y: Entry) returns (f: File)
    requires NumbersIdentify(files) && (forall g :: g in inputs ==> g in files)
    requires y in FilesContents(Without(files, Numbers(inputs)))
    ensures f in files && f !in inputs && y in f.entries
  {
    WithoutOnly(files, Numbers(inputs));
    f :| f in Without(files, Numbers(inputs)) && y in f.entries;
  }

  lemma IsLeftBehind(files: Level, inputs: Level, f: File, y: Entry)
    requires NumbersIdentify(files) && (forall g :: g in inputs ==> g in files)
    requires f in files && f !in inputs && y in f.entries
    ensures y in FilesContents(Without(files, Numbers(inputs)))
  {
    WithoutOnly(files, Numbers(inputs));
  }

  /** The level itself is always closed: boundary files saw to that. */
  lemma LevelIsClosed(v: Version, level: nat, c: Picked)
    requires Chosen(v, level, c)
    ensures NewerThan(FilesContents(Without(v[level], Numbers(c.inputs0))),
                      FilesContents(c.inputs0) + FilesContents(c.inputs1))
  {
    LevelFacts(v, level);
    forall y, x | y in FilesContents(Without(v[level], Numbers(c.inputs0)))
      && x in FilesContents(c.inputs0) + FilesContents(c.inputs1)
                  && y.key.user == x.key.user
      ensures y.key.sequence > x.key.sequence
    {
      var f := LeftBehind(v[level], c.inputs0, y);
      if x in FilesContents(c.inputs0) {
        var g :| g in c.inputs0 && x in g.entries;
        LeftBehindIsNewer(level, v[level], c.inputs0, f, y, g, x);
      } else {
        var lo, hi := NextInputsAreFiles(v, level, c);
        assert y in FilesContents(v[level]) && x in FilesContents(v[level + 1]);
        assert NewerThan(FilesContents(v[level]), FilesContents(v[level + 1]));
      }
    }
  }

  lemma NextInputsAreFiles(v: Version, level: nat, c: Picked) returns (lo: InternalKey, hi: InternalKey)
    requires Chosen(v, level, c)
    ensures HullOf(c.inputs0, lo, hi) && c.inputs1 == Overlapping(v[level + 1], UserRange(lo, hi))
    ensures forall f :: f in c.inputs1 ==> f in v[level + 1]
  {
    lo, hi :| HullOf(c.inputs0, lo, hi) && NoBoundary(v[level], hi);
  }

  /** No file left at the next level shares a user key with the inputs from `level`. */
  lemma NextIsApart(files: Level, inputs0: Level, lo: InternalKey, hi: InternalKey, f: File, y: Entry, g: File,
                    x: Entry)
    requires HullOf(inputs0, lo, hi) && f in files && f !in Overlapping(files, UserRange(lo, hi))
    requires f.Valid() && y in f.entries && g.Valid() && g in inputs0 && x in g.entries
    ensures y.key.user != x.key.user
  {
    InValidFile(g, x);
    InValidFile(f, y);
    assert AtMost(lo, g.smallest) && AtMost(g.largest, hi);
  }

  lemma NextIsNewer(files: Level, r: Range, f: File, y: Entry, g: File, x: Entry)
    requires AllValid(files) && Apart(files) && UniqueSequences(FilesContents(files))
    requires NextClosed(files, Overlapping(files, r))
    requires f in files && f !in Overlapping(files, r) && y in f.entries && g in Overlapping(files, r) && x in g.entries
    requires x.key.user == y.key.user
    ensures y.key.sequence > x.key.sequence
  {
    var inputs := Overlapping(files, r);
    OverlappingSelectable(files, r);
    var lo1, hi1 := Hull(inputs);
    assert Finished(1, files, inputs);
    LeftBehindIsNewer(1, files, inputs, f, y, g, x);
  }

  /** The next level is closed if its files do not split the last user key taken from it ... */
  lemma NextClosedIsNewer(v: Version, level: nat, c: Picked)
    requires Chosen(v, level, c) && NextClosed(v[level + 1], c.inputs1)
    ensures NewerThan(FilesContents(Without(v[level + 1], Numbers(c.inputs1))),
                      FilesContents(c.inputs0) + FilesContents(c.inputs1))
  {
    NextFacts(v, level, c);
    var lo, hi := NextInputsAreFiles(v, level, c);
    hide Chosen, UniqueSequences, NextClosed, HullOf, AllValid, Apart, Numbers;
    var files := v[level + 1];
    forall y, x | y in FilesContents(Without(files, Numbers(c.inputs1)))
      && x in FilesContents(c.inputs0) + FilesContents(c.inputs1)
                  && y.key.user == x.key.user
      ensures y.key.sequence > x.key.sequence
    {
      var f := LeftBehind(files, c.inputs1, y);
      LeftNextIsNewer(files, c.inputs0, lo, hi, f, y, x);
    }
  }

  lemma NextFacts(v: Version, level: nat, c: Picked)
    requires Chosen(v, level, c)
    ensures level + 1 < |v| && AllValid(v[level + 1]) && Apart(v[level + 1]) && AllValid(c.inputs0)
    ensures UniqueSequences(FilesContents(v[level + 1]))
  {
    LevelFacts(v, level);
    LevelFacts(v, level + 1);
  }

  lemma LeftNextIsNewer(files: Level, inputs0: Level, lo: InternalKey, hi: InternalKey, f: File, y: Entry, x: Entry)
    requires AllValid(files) && Apart(files) && UniqueSequences(FilesContents(files)) && AllValid(inputs0)
    requires HullOf(inputs0, lo, hi)
    requires var inputs1 := Overlapping(files, UserRange(lo, hi));
             && NextClosed(files, inputs1) && f in files && f !in inputs1 && y in f.entries && x.key.user == y.key.user
             && x in FilesContents(inputs0) + FilesContents(inputs1)
    ensures y.key.sequence > x.key.sequence
  {
    hide UniqueSequences, NextClosed, HullOf, File.Valid, Apart;
    if x in FilesContents(inputs0) {
      var g :| g in inputs0 && x in g.entries;
      NextIsApart(files, inputs0, lo, hi, f, y, g, x);
    } else {
      var g :| g in Overlapping(files, UserRange(lo, hi)) && x in g.entries;
      NextIsNewer(files, UserRange(lo, hi), f, y, g, x);
    }
  }

  lemma Hull(files: Level) returns (lo: InternalKey, hi: InternalKey)
    requires |files| > 0
    ensures HullOf(files, lo, hi)
  {
    if |files| == 1 {
      lo, hi := files[0].smallest, files[0].largest;
      assert files[0] in files;
    } else {
      var f := files[0];
      lo, hi := Hull(files[1..]);
      assert files == [f] + files[1..];
      if Less(f.smallest, lo) { lo := f.smallest; }
      if Less(hi, f.largest) { hi := f.largest; }
    }
  }

  /** ... and not otherwise: the first entry of a boundary file is older than the last entry taken. */
  lemma BoundaryIsOlder(v: Version, level: nat, c: Picked)
    requires Chosen(v, level, c) && !NextClosed(v[level + 1], c.inputs1)
    ensures !NewerThan(FilesContents(Without(v[level + 1], Numbers(c.inputs1))),
                       FilesContents(c.inputs0) + FilesContents(c.inputs1))
  {
    hide ValidVersion, LevelOrdered, UniqueSequences, NumbersIdentify, Convex;
    LevelFacts(v, level + 1);
    var l0, h0 := NextInputsAreFiles(v, level, c);
    var y, x := OlderPair(v[level + 1], c.inputs1);
    assert x in FilesContents(c.inputs0) + FilesContents(c.inputs1);
    assert y in FilesContents(Without(v[level + 1], Numbers(c.inputs1)));
  }

  lemma OlderPair(files: Level, inputs: Level) returns (y: Entry, x: Entry)
    requires AllValid(files) && NumbersIdentify(files) && (forall f :: f in inputs ==> f in files)
    requires !NextClosed(files, inputs)
    ensures y in FilesContents(Without(files, Numbers(inputs))) && x in FilesContents(inputs)
    ensures y.key.user == x.key.user && y.key.sequence <= x.key.sequence
  {
    var lo, hi :| HullOf(inputs, lo, hi) && !NoBoundary(files, hi);
    assert HullOf(inputs, lo, hi);
    var b :| b in files && IsBoundary(b, hi);
    var m :| m in inputs && m.largest == hi;
    KeysAscend(b);
    assert b !in inputs;
    y, x := b.entries[0], m.entries[|m.entries| - 1];
    OlderEntries(b, m, y, x);
    hide HullOf, NoBoundary, NextClosed, IsBoundary, AllValid;
    IsLeftBehind(files, inputs, b, y);
  }

  lemma OlderEntries(b: File, m: File, y: Entry, x: Entry)
    requires b.Valid() && m.Valid() && IsBoundary(b, m.largest) && y == b.entries[0] && x == m.entries[|m.entries| - 1]
    ensures y.key.user == x.key.user && y.key.sequence <= x.key.sequence && y in b.entries && x in m.entries
  {
  }

  /** The inputs are always closed at their own level, and at the next one, as a read-preserving compaction needs,
      exactly when no file of that level continues the last user key taken from it. */
  lemma ClosedInputsIff(v: Version, level: nat, c: Picked, input: seq<Entry>)
    requires Chosen(v, level, c) && Contents(input) == FilesContents(c.inputs0) + FilesContents(c.inputs1)
    ensures LeftIsNewer(v[level], Numbers(c.inputs0), input)
    ensures LeftIsNewer(v[level + 1], Numbers(c.inputs1), input) <==> NextClosed(v[level + 1], c.inputs1)
  {
    LevelIsClosed(v, level, c);
    if NextClosed(v[level + 1], c.inputs1) {
      NextClosedIsNewer(v, level, c);
    } else {
      BoundaryIsOlder(v, level, c);
    }
  }
}
