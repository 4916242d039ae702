/** VersionSet::Builder: many edits applied to one builder and saved once, against one version per edit. */
module VersionBuilder {
  import opened WriteBatches
  import opened VersionEdits

  /** The order of internal keys, as a rank. */
  type Rank = Bytes -> int

  /** BySmallestKey. */
  predicate FileLess(rank: Rank, a: Meta, b: Meta) {
    rank(a.smallest) < rank(b.smallest) || (rank(a.smallest) == rank(b.smallest) && a.number < b.number)
  }

  ghost predicate Ordered(rank: Rank, fs: seq<Meta>) {
    forall i, j :: 0 <= i < j < |fs| ==> FileLess(rank, fs[i], fs[j])
  }

  /** A number names one file. */
  ghost predicate Distinct(fs: set<Meta>) { forall f, g :: f in fs && g in fs && f.number == g.number ==> f == g }

  ghost function Elems(fs: seq<Meta>): set<Meta> { set f | f in fs }

  ghost function Numbers(fs: seq<Meta>): set<nat> { set f | f in fs :: f.number }

  /** Two ordered lists with the same files are the same list. */
  lemma {:induction false} OrderedUnique(rank: Rank, a: seq<Meta>, b: seq<Meta>)
    requires Ordered(rank, a) && Ordered(rank, b) && forall f :: f in a <==> f in b
    ensures a == b
  {
    assert |b| == 0 || b[0] in b;
    if |a| > 0 {
      assert a[0] in a && a[0] in b;
      assert b[0] in b && b[0] in a;
      assert a[0] == b[0];
      forall f ensures f in a[1..] <==> f in b[1..] {
        assert f in a[1..] ==> f in a && FileLess(rank, a[0], f);
        assert f in b[1..] ==> f in b && FileLess(rank, b[0], f);
      }
      OrderedUnique(rank, a[1..], b[1..]);
      assert a == [a[0]] + a[1..] && b == [b[0]] + b[1..];
    }
  }

  /** std::set::insert under BySmallestKey: an equivalent file already there wins. */
  function SetAdd(rank: Rank, added: seq<Meta>, f: Meta): seq<Meta> {
    if |added| == 0 || FileLess(rank, added[|added| - 1], f) then added + [f]
    else if !FileLess(rank, f, added[|added| - 1]) then added
    else SetAdd(rank, added[..|added| - 1], f) + [added[|added| - 1]]
  }

  lemma LastOrdered(rank: Rank, front: seq<Meta>, last: Meta)
    requires Ordered(rank, front) && forall i :: 0 <= i < |front| ==> FileLess(rank, front[i], last)
    ensures Ordered(rank, front + [last])
  {
  }

  lemma {:induction false} SetAddFresh(rank: Rank, added: seq<Meta>, f: Meta)
    requires Ordered(rank, added) && f.number !in Numbers(added)
    ensures Ordered(rank, SetAdd(rank, added, f)) && forall g :: g in SetAdd(rank, added, f) <==> g in added || g == f
  {
    if |added| > 0 {
      var front, last := added[..|added| - 1], added[|added| - 1];
      assert added == front + [last];
      assert last in added;
      if FileLess(rank, last, f) {
      } else {
        SetAddFresh(rank, front, f);
        var r := SetAdd(rank, front, f);
        forall i | 0 <= i < |r| ensures FileLess(rank, r[i], last) {
          assert r[i] in r;
        }
        LastOrdered(rank, r, last);
        hide Ordered;
      }
    }
  }

  datatype LevelState = LevelState(deleted: set<nat>, added: seq<Meta>)

  const FRESH := LevelState({}, [])

  function GoneAt(edit: Edit, level: nat): set<nat> {
    set i | 0 <= i < |edit.deleted| && edit.deleted[i].0 == level :: edit.deleted[i].1
  }

  function NewAt(files: seq<(nat, Meta)>, level: nat): seq<Meta> {
    if |files| == 0 then []
    else
      var n := |files| - 1;
      NewAt(files[..n], level) + if files[n].0 == level then [files[n].1] else []
  }

  function AddFile(rank: Rank, ls: LevelState, f: Meta): LevelState {
    LevelState(ls.deleted - {f.number}, SetAdd(rank, ls.added, f))
  }

  function AddFiles(rank: Rank, ls: LevelState, fs: seq<Meta>): LevelState {
    if |fs| == 0 then ls else AddFile(rank, AddFiles(rank, ls, fs[..|fs| - 1]), fs[|fs| - 1])
  }

  /** Builder::Apply at one level: deletions, then additions. */
  function ApplyLevel(rank: Rank, ls: LevelState, edit: Edit, level: nat): LevelState {
    AddFiles(rank, ls.(deleted := ls.deleted + GoneAt(edit, level)), NewAt(edit.newFiles, level))
  }

  function Keep(f: Meta, deleted: set<nat>): seq<Meta> { if f.number in deleted then [] else [f] }

  /** Builder::SaveTo at one level: merge base and added files, dropping deleted ones. */
  function Save(rank: Rank, base: seq<Meta>, ls: LevelState): seq<Meta>
    decreases |base| + |ls.added|
  {
    if |base| == 0 && |ls.added| == 0 then []
    else if |ls.added| == 0 || (|base| > 0 && !FileLess(rank, ls.added[0], base[0]))
    then Keep(base[0], ls.deleted) + Save(rank, base[1..], ls)
    else Keep(ls.added[0], ls.deleted) + Save(rank, base, ls.(added := ls.added[1..]))
  }

  lemma {:induction false} SaveContents(rank: Rank, base: seq<Meta>, ls: LevelState)
    ensures forall f :: f in Save(rank, base, ls) <==> (f in base || f in ls.added) && f.number !in ls.deleted
    decreases |base| + |ls.added|
  {
    if |base| == 0 && |ls.added| == 0 {
    } else if |ls.added| == 0 || (|base| > 0 && !FileLess(rank, ls.added[0], base[0])) {
      SaveContents(rank, base[1..], ls);
      assert base == [base[0]] + base[1..];
    } else {
      SaveContents(rank, base, ls.(added := ls.added[1..]));
      assert ls.added == [ls.added[0]] + ls.added[1..];
    }
  }

  ghost predicate Comparable(rank: Rank, a: seq<Meta>, b: seq<Meta>) {
    forall x, y :: x in a && y in b ==> FileLess(rank, x, y) || FileLess(rank, y, x)
  }

  lemma {:induction false} SaveOrdered(rank: Rank, base: seq<Meta>, ls: LevelState)
    requires Ordered(rank, base) && Ordered(rank, ls.added) && Comparable(rank, base, ls.added)
    ensures Ordered(rank, Save(rank, base, ls))
    decreases |base| + |ls.added|
  {
    if |base| == 0 && |ls.added| == 0 {
    } else if |ls.added| == 0 || (|base| > 0 && !FileLess(rank, ls.added[0], base[0])) {
      SaveOrdered(rank, base[1..], ls);
      FirstIsLeast(rank, base[0], base, ls.added);
      HeadFirst(rank, base[0], base[1..], ls);
    } else {
      var rest := ls.(added := ls.added[1..]);
      SaveOrdered(rank, base, rest);
      FirstIsLeast(rank, ls.added[0], base, ls.added);
      HeadFirst(rank, ls.added[0], base, rest);
    }
  }

  /** The file the merge takes next comes before all others. */
  lemma FirstIsLeast(rank: Rank, f: Meta, base: seq<Meta>, added: seq<Meta>)
    requires Ordered(rank, base) && Ordered(rank, added) && Comparable(rank, base, added)
    requires (|base| > 0 && f == base[0] && (|added| == 0 || !FileLess(rank, added[0], f)))
             || (|added| > 0 && f == added[0] && (|base| == 0 || FileLess(rank, f, base[0])))
    ensures forall g :: (g in base || g in added) && g != f ==> FileLess(rank, f, g)
  {
    forall g | g in base && g != f ensures FileLess(rank, f, g) {
      assert base[0] in base;
      var i :| 0 <= i < |base| && base[i] == g;
    }
    forall g | g in added && g != f ensures FileLess(rank, f, g) {
      assert added[0] in added;
      var i :| 0 <= i < |added| && added[i] == g;
    }
  }

  lemma HeadFirst(rank: Rank, f: Meta, base: seq<Meta>, rest: LevelState)
    requires Ordered(rank, Save(rank, base, rest))
    requires forall g :: g in base || g in rest.added ==> FileLess(rank, f, g)
    ensures Ordered(rank, Keep(f, rest.deleted) + Save(rank, base, rest))
  {
    SaveContents(rank, base, rest);
    var tail := Save(rank, base, rest);
    forall i | 0 <= i < |tail| ensures FileLess(rank, f, tail[i]) { assert tail[i] in tail; }
  }

  /** One version per edit: the level after the first `n` edits, as LogAndApply leaves it. */
  function History(rank: Rank, base: seq<Meta>, edits: seq<Edit>, level: nat, n: nat): seq<Meta>
    requires n <= |edits|
  {
    if n == 0 then base
    else Save(rank, History(rank, base, edits, level, n - 1), ApplyLevel(rank, FRESH, edits[n - 1], level))
  }

  /** The builder of Recover after the first `n` edits. */
  function Batch(rank: Rank, edits: seq<Edit>, level: nat, n: nat): LevelState
    requires n <= |edits|
  {
    if n == 0 then FRESH else ApplyLevel(rank, Batch(rank, edits, level, n - 1), edits[n - 1], level)
  }

  /** The numbers the level has ever seen. */
  ghost function Used(base: seq<Meta>, edits: seq<Edit>, level: nat, n: nat): set<nat>
    requires n <= |edits|
  {
    if n == 0 then Numbers(base) else Used(base, edits, level, n - 1) + Numbers(NewAt(edits[n - 1].newFiles, level))
  }

  /** The new files have numbers of their own. */
  ghost predicate NewNumbers(fs: seq<Meta>, used: set<nat>) {
    && (forall i :: 0 <= i < |fs| ==> fs[i].number !in used)
    && (forall i, j :: 0 <= i < j < |fs| ==> fs[i].number != fs[j].number)
  }

  /** No number is added again at this level. */
  ghost predicate NeverReadded(base: seq<Meta>, edits: seq<Edit>, level: nat) {
    forall i :: 0 <= i < |edits| ==> NewNumbers(NewAt(edits[i].newFiles, level), Used(base, edits, level, i))
  }

  lemma LastIsNew(fs: seq<Meta>, used: set<nat>)
    requires NewNumbers(fs, used) && |fs| > 0
    ensures var front, last := fs[..|fs| - 1], fs[|fs| - 1];
            NewNumbers(front, used) && last.number !in used && last.number !in Numbers(front)
  {
  }

  lemma NumbersSnoc(fs: seq<Meta>)
    requires |fs| > 0
    ensures Numbers(fs) == Numbers(fs[..|fs| - 1]) + {fs[|fs| - 1].number}
    ensures forall f :: f in fs <==> f in fs[..|fs| - 1] || f == fs[|fs| - 1]
  {
    assert fs == fs[..|fs| - 1] + [fs[|fs| - 1]];
  }

  /** Adding new files to a level state. */
  lemma {:induction false} AddFilesIs(rank: Rank, ls: LevelState, fs: seq<Meta>)
    requires Ordered(rank, ls.added) && NewNumbers(fs, Numbers(ls.added))
    ensures var r := AddFiles(rank, ls, fs);
            && Ordered(rank, r.added) && (forall f :: f in r.added <==> f in ls.added || f in fs)
            && r.deleted == ls.deleted - Numbers(fs)
  {
    hide Ordered, NewNumbers;
    if |fs| > 0 {
      var front, last := fs[..|fs| - 1], fs[|fs| - 1];
      LastIsNew(fs, Numbers(ls.added));
      NumbersSnoc(fs);
      AddFilesIs(rank, ls, front);
      var r := AddFiles(rank, ls, front);
      assert last.number !in Numbers(r.added);
      hide Numbers;
      SetAddFresh(rank, r.added, last);
    }
  }

  /** `files` is what saving `ls` over `base` must give. */
  ghost predicate Represents(base: seq<Meta>, ls: LevelState, files: seq<Meta>) {
    forall f :: f in files <==> (f in base || f in ls.added) && f.number !in ls.deleted
  }

  /** The numbers in play at the level, each naming one file. */
  ghost predicate Numbered(rank: Rank, base: seq<Meta>, ls: LevelState, used: set<nat>) {
    && Ordered(rank, base) && Ordered(rank, ls.added)
    && Distinct(Elems(base) + Elems(ls.added)) && Numbers(base) + Numbers(ls.added) <= used
    && (forall x, y :: x in base && y in ls.added ==> x.number != y.number)
  }

  lemma ApplyNumbered(rank: Rank, base: seq<Meta>, ls: LevelState, edit: Edit, level: nat, used: set<nat>)
    requires Numbered(rank, base, ls, used) && NewNumbers(NewAt(edit.newFiles, level), used)
    ensures Numbered(rank, base, ApplyLevel(rank, ls, edit, level), used + Numbers(NewAt(edit.newFiles, level)))
  {
    var fs := NewAt(edit.newFiles, level);
    AddFilesIs(rank, ls.(deleted := ls.deleted + GoneAt(edit, level)), fs);
    var r := ApplyLevel(rank, ls, edit, level);
    forall f, g | f in Elems(base) + Elems(r.added) && g in Elems(base) + Elems(r.added) && f.number == g.number
      ensures f == g
    {
      OneName(base, ls, fs, used, f, g);
    }
    forall x, y | x in base && y in r.added ensures x.number != y.number {
      assert x.number in Numbers(base);
      if y in fs {
        var i :| 0 <= i < |fs| && fs[i] == y;
      }
    }
  }

  lemma OneName(base: seq<Meta>, ls: LevelState, fs: seq<Meta>, used: set<nat>, f: Meta, g: Meta)
    requires Distinct(Elems(base) + Elems(ls.added)) && Numbers(base) + Numbers(ls.added) <= used
    requires NewNumbers(fs, used)
    requires (f in base || f in ls.added || f in fs) && (g in base || g in ls.added || g in fs) && f.number == g.number
    ensures f == g
  {
    assert f in base ==> f.number in Numbers(base);
    assert f in ls.added ==> f.number in Numbers(ls.added);
    assert g in base ==> g.number in Numbers(base);
    assert g in ls.added ==> g.number in Numbers(ls.added);
    if f in fs { var i :| 0 <= i < |fs| && fs[i] == f; }
    if g in fs { var j :| 0 <= j < |fs| && fs[j] == g; }
  }

  lemma ComparableNumbers(rank: Rank, a: seq<Meta>, b: seq<Meta>)
    requires forall x, y :: x in a && y in b ==> x.number != y.number
    ensures Comparable(rank, a, b)
  {
  }

  /** One more edit: saving it over the current files agrees with adding it to the batch. */
  lemma StepAgrees(rank: Rank, base: seq<Meta>, ls: LevelState, files: seq<Meta>, edit: Edit, level: nat,
                   used: set<nat>)
    requires Numbered(rank, base, ls, used) && Represents(base, ls, files) && Ordered(rank, files)
    requires NewNumbers(NewAt(edit.newFiles, level), used)
    ensures var files' := Save(rank, files, ApplyLevel(rank, FRESH, edit, level));
            Represents(base, ApplyLevel(rank, ls, edit, level), files') && Ordered(rank, files')
  {
    hide Ordered, NewNumbers, Distinct;
    var fs, one := NewAt(edit.newFiles, level), ApplyLevel(rank, FRESH, edit, level);
    FewerUsed(fs, Numbers(base) + Numbers(ls.added), used);
    FewerUsed(fs, Numbers(ls.added), used);
    AddFilesIs(rank, ls.(deleted := ls.deleted + GoneAt(edit, level)), fs);
    OneEdit(rank, edit, level, used);
    ApartNumbers(base, ls, files, fs);
    ComparableNumbers(rank, files, one.added);
    SaveContents(rank, files, one);
    SaveOrdered(rank, files, one);
    SameFiles(base, ls, files, fs, GoneAt(edit, level), used);
  }

  lemma FewerUsed(fs: seq<Meta>, some: set<nat>, used: set<nat>)
    requires NewNumbers(fs, used) && some <= used
    ensures NewNumbers(fs, some)
  {
  }

  /** What one edit alone adds and deletes. */
  lemma OneEdit(rank: Rank, edit: Edit, level: nat, used: set<nat>)
    requires NewNumbers(NewAt(edit.newFiles, level), used)
    ensures var fs, one := NewAt(edit.newFiles, level), ApplyLevel(rank, FRESH, edit, level);
            && Ordered(rank, one.added) && (forall f :: f in one.added <==> f in fs)
            && one.deleted == GoneAt(edit, level) - Numbers(fs)
  {
    FewerUsed(NewAt(edit.newFiles, level), {}, used);
    AddFilesIs(rank, FRESH.(deleted := {} + GoneAt(edit, level)), NewAt(edit.newFiles, level));
  }

  lemma ApartNumbers(base: seq<Meta>, ls: LevelState, files: seq<Meta>, fs: seq<Meta>)
    requires Represents(base, ls, files) && NewNumbers(fs, Numbers(base) + Numbers(ls.added))
    ensures forall x, y :: x in files && y in fs ==> x.number != y.number
  {
    forall x, y | x in files && y in fs ensures x.number != y.number {
      assert x.number in Numbers(base) + Numbers(ls.added);
      var i :| 0 <= i < |fs| && fs[i] == y;
    }
  }

  /** Deleting and adding commute with the batch's bookkeeping, since the new numbers are fresh. */
  lemma SameFiles(base: seq<Meta>, ls: LevelState, files: seq<Meta>, fs: seq<Meta>, gone: set<nat>, used: set<nat>)
    requires Represents(base, ls, files) && Numbers(base) + Numbers(ls.added) <= used && NewNumbers(fs, used)
    ensures forall f :: (f in files || f in fs) && f.number !in gone - Numbers(fs) <==>
                        (f in base || f in ls.added || f in fs) && f.number !in ls.deleted + gone - Numbers(fs)
  {
    forall f | f in base || f in ls.added ensures f.number !in Numbers(fs) {
      assert f.number in Numbers(base) + Numbers(ls.added);
    }
  }

  lemma NothingApplied(rank: Rank, base: seq<Meta>)
    requires Ordered(rank, base) && Distinct(Elems(base))
    ensures Agrees(rank, base, FRESH, base, Numbers(base))
  {
  }

  lemma FreshAt(base: seq<Meta>, edits: seq<Edit>, level: nat, i: nat)
    requires NeverReadded(base, edits, level) && i < |edits|
    ensures NewNumbers(NewAt(edits[i].newFiles, level), Used(base, edits, level, i))
  {
  }

  /** After `n` edits the batch stands for the same files as history, in order. */
  ghost predicate Agrees(rank: Rank, base: seq<Meta>, ls: LevelState, files: seq<Meta>, used: set<nat>) {
    Numbered(rank, base, ls, used) && Represents(base, ls, files) && Ordered(rank, files)
  }

  lemma AgreesStep(rank: Rank, base: seq<Meta>, ls: LevelState, files: seq<Meta>, used: set<nat>, edit: Edit,
                   level: nat)
    requires Agrees(rank, base, ls, files, used) && NewNumbers(NewAt(edit.newFiles, level), used)
    ensures Agrees(rank, base, ApplyLevel(rank, ls, edit, level),
                   Save(rank, files, ApplyLevel(rank, FRESH, edit, level)), used + Numbers(NewAt(edit.newFiles, level)))
  {
    hide Numbered, Represents, Ordered, NewNumbers, ApplyLevel;
    ApplyNumbered(rank, base, ls, edit, level, used);
    StepAgrees(rank, base, ls, files, edit, level, used);
  }

  lemma {:induction false} HistoryAgrees(rank: Rank, base: seq<Meta>, edits: seq<Edit>, level: nat, n: nat)
    requires n <= |edits| && Ordered(rank, base) && Distinct(Elems(base)) && NeverReadded(base, edits, level)
    ensures Agrees(rank, base, Batch(rank, edits, level, n), History(rank, base, edits, level, n),
                   Used(base, edits, level, n))
  {
    hide Agrees, Ordered, NewNumbers, Distinct, ApplyLevel, NeverReadded;
    if n == 0 {
      NothingApplied(rank, base);
    } else {
      FreshAt(base, edits, level, n - 1);
      HistoryAgrees(rank, base, edits, level, n - 1);
      AgreesStep(rank, base, Batch(rank, edits, level, n - 1), History(rank, base, edits, level, n - 1),
                 Used(base, edits, level, n - 1), edits[n - 1], level);
    }
  }

  /** Recovery equals history: one save of all edits gives the same ordered list as one save per edit. */
  lemma RecoveryEqualsHistory(rank: Rank, base: seq<Meta>, edits: seq<Edit>, level: nat)
    requires Ordered(rank, base) && Distinct(Elems(base)) && NeverReadded(base, edits, level)
    ensures Save(rank, base, Batch(rank, edits, level, |edits|)) == History(rank, base, edits, level, |edits|)
  {
    var n := |edits|;
    HistoryAgrees(rank, base, edits, level, n);
    var ls := Batch(rank, edits, level, n);
    SaveContents(rank, base, ls);
    ComparableNumbers(rank, base, ls.added);
    SaveOrdered(rank, base, ls);
    OrderedUnique(rank, Save(rank, base, ls), History(rank, base, edits, level, n));
  }

  /** Adding a number again breaks the agreement: whenever a file is added, deleted and added again with other contents
      under the same number and smallest key, the builder keeps the file it saw first and history has the last one. */
  lemma ReaddingDiffers(rank: Rank, first: Meta, again: Meta, edits: seq<Edit>)
    requires first != again && first.number == again.number && first.smallest == again.smallest && |edits| == 3
    requires edits[0] == EMPTY.(newFiles := [(1, first)]) && edits[2] == EMPTY.(newFiles := [(1, again)])
    requires edits[1] == EMPTY.(deleted := [(1, first.number)])
    ensures Save(rank, [], Batch(rank, edits, 1, |edits|)) != History(rank, [], edits, 1, |edits|)
  {
    ReaddedBatch(rank, first, again, edits);
    BatchThree(rank, edits);
    ApplyOne(rank, FRESH, edits[2], again);
    hide ApplyLevel;
    SaveContents(rank, [], LevelState({}, [first]));
    SaveContents(rank, History(rank, [], edits, 1, 2), ApplyLevel(rank, FRESH, edits[2], 1));
    assert again !in Save(rank, [], LevelState({}, [first])) && again in [again];
  }

  lemma ReaddedBatch(rank: Rank, first: Meta, again: Meta, edits: seq<Edit>)
    requires first.number == again.number && first.smallest == again.smallest && |edits| == 3
    requires edits[0] == EMPTY.(newFiles := [(1, first)]) && edits[2] == EMPTY.(newFiles := [(1, again)])
    requires edits[1] == EMPTY.(deleted := [(1, first.number)])
    ensures Batch(rank, edits, 1, 3) == LevelState({}, [first])
  {
    hide ApplyLevel, GoneAt;
    BatchThree(rank, edits);
    GoneOne(edits[1], first.number);
    GoneNone(edits[0]);
    GoneNone(edits[2]);
    SetAddTwice(rank, first, again);
    ApplyOne(rank, FRESH, edits[0], first);
    assert {} - {first.number} == {} && {} + {first.number} == {first.number} && {first.number} - {first.number} == {};
    ApplyNone(rank, LevelState({}, [first]), edits[1]);
    ApplyOne(rank, LevelState({first.number}, [first]), edits[2], again);
  }

  lemma GoneOne(e: Edit, number: nat)
    requires e.deleted == [(1, number)]
    ensures GoneAt(e, 1) == {number}
  {
    assert e.deleted[0] == (1, number);
  }

  lemma GoneNone(e: Edit)
    requires e.deleted == []
    ensures GoneAt(e, 1) == {}
  {
  }

  lemma SetAddTwice(rank: Rank, f: Meta, g: Meta)
    requires f.number == g.number && f.smallest == g.smallest
    ensures SetAdd(rank, [], f) == [f] && SetAdd(rank, [f], g) == [f]
  {
  }

  lemma BatchThree(rank: Rank, edits: seq<Edit>)
    requires |edits| == 3
    ensures Batch(rank, edits, 1, 3) ==
              ApplyLevel(rank, ApplyLevel(rank, ApplyLevel(rank, FRESH, edits[0], 1), edits[1], 1), edits[2], 1)
    ensures History(rank, [], edits, 1, 3) ==
              Save(rank, History(rank, [], edits, 1, 2), ApplyLevel(rank, FRESH, edits[2], 1))
  {
    hide ApplyLevel;
    assert Batch(rank, edits, 1, 1) == ApplyLevel(rank, Batch(rank, edits, 1, 0), edits[0], 1);
    assert Batch(rank, edits, 1, 2) == ApplyLevel(rank, Batch(rank, edits, 1, 1), edits[1], 1);
  }

  lemma ApplyNone(rank: Rank, ls: LevelState, e: Edit)
    requires e.newFiles == []
    ensures ApplyLevel(rank, ls, e, 1) == ls.(deleted := ls.deleted + GoneAt(e, 1))
  {
  }

  lemma ApplyOne(rank: Rank, ls: LevelState, e: Edit, f: Meta)
    requires e.newFiles == [(1, f)] && GoneAt(e, 1) == {}
    ensures ApplyLevel(rank, ls, e, 1) == LevelState(ls.deleted - {f.number}, SetAdd(rank, ls.added, f))
  {
    NewAtOne(f);
    AddFilesSnoc(rank, ls, [], f);
    assert ls.deleted + {} == ls.deleted && [] + [f] == [f];
  }

  lemma NewAtOne(f: Meta)
    ensures NewAt([(1, f)], 1) == [f]
  {
    assert [(1, f)][..0] == [];
  }

  lemma AddFilesSnoc(rank: Rank, ls: LevelState, fs: seq<Meta>, f: Meta)
    ensures AddFiles(rank, ls, fs + [f]) == AddFile(rank, AddFiles(rank, ls, fs), f)
  {
    assert (fs + [f])[..|fs|] == fs;
  }

  class Builder {
    const rank: Rank
    const base: seq<seq<Meta>>
    var levels: seq<LevelState>
    /** The version set's compact_pointer_, which Apply updates. */
    var compactPointers: seq<Bytes>

    constructor (rank: Rank, base: seq<seq<Meta>>, compactPointers: seq<Bytes>)
      requires |base| == Dbformat.NUM_LEVELS == |compactPointers|
      ensures this.rank == rank && this.base == base && Valid()
      ensures levels == seq(Dbformat.NUM_LEVELS, _ => FRESH) && this.compactPointers == compactPointers
    {
      this.rank, this.base, levels := rank, base, seq(Dbformat.NUM_LEVELS, _ => FRESH);
      this.compactPointers := compactPointers;
    }

    ghost predicate Valid()
      reads this
    {
      |base| == Dbformat.NUM_LEVELS == |levels| == |compactPointers|
    }

    /** Builder::Apply. */
    method Apply(edit: Edit)
      requires Valid() && EditLevels(edit)
      modifies this
      ensures Valid()
      ensures forall l :: 0 <= l < Dbformat.NUM_LEVELS ==> levels[l] == ApplyLevel(rank, old(levels[l]), edit, l)
      ensures forall l :: 0 <= l < Dbformat.NUM_LEVELS ==>
                compactPointers[l] ==
                  PointerAfter(old(compactPointers[l]), edit.compactPointers, |edit.compactPointers|, l)
    {
      InstallPointers(edit);
      DeleteFiles(edit);
      NewFiles(edit);
    }

    /** The last pointer an edit sets for a level wins. */
    method InstallPointers(edit: Edit)
      requires Valid() && EditLevels(edit)
      modifies this`compactPointers
      ensures Valid() && forall l :: 0 <= l < Dbformat.NUM_LEVELS ==>
                compactPointers[l] ==
                  PointerAfter(old(compactPointers[l]), edit.compactPointers, |edit.compactPointers|, l)
    {
      for i := 0 to |edit.compactPointers|
        invariant Valid() && forall l :: 0 <= l < Dbformat.NUM_LEVELS ==>
                    compactPointers[l] == PointerAfter(old(compactPointers[l]), edit.compactPointers, i, l)
      {
        var (level, key) := edit.compactPointers[i];
        compactPointers := compactPointers[level := key];
      }
    }

    method DeleteFiles(edit: Edit)
      requires Valid() && EditLevels(edit)
      modifies this`levels
      ensures Valid()
      ensures forall l :: 0 <= l < Dbformat.NUM_LEVELS ==>
                levels[l] == old(levels[l]).(deleted := old(levels[l]).deleted + GoneAt(edit, l))
    {
      for i := 0 to |edit.deleted|
        invariant Valid()
        invariant forall l :: 0 <= l < Dbformat.NUM_LEVELS ==>
                    levels[l] == old(levels[l]).(deleted := old(levels[l]).deleted + DeletedUpTo(edit, l, i))
      {
        var (level, number) := edit.deleted[i];
        levels := levels[level := levels[level].(deleted := levels[level].deleted + {number})];
        DeletedStep(edit, i);
      }
    }

    method NewFiles(edit: Edit)
      requires Valid() && EditLevels(edit)
      modifies this`levels
      ensures Valid() && forall l :: 0 <= l < Dbformat.NUM_LEVELS ==>
                levels[l] == AddFiles(rank, old(levels[l]), NewAt(edit.newFiles, l))
    {
      for i := 0 to |edit.newFiles|
        invariant Valid()
        invariant forall l :: 0 <= l < Dbformat.NUM_LEVELS ==>
                    levels[l] == AddFiles(rank, old(levels[l]), NewAt(edit.newFiles[..i], l))
      {
        var (level, f) := edit.newFiles[i];
        NewStep(rank, edit.newFiles, i);
        levels := levels[level := AddFile(rank, levels[level], f)];
      }
      assert edit.newFiles[..|edit.newFiles|] == edit.newFiles;
    }

    /** Builder::SaveTo. */
    method SaveTo() returns (v: seq<seq<Meta>>)
      requires Valid()
      ensures |v| == Dbformat.NUM_LEVELS
      ensures forall l :: 0 <= l < Dbformat.NUM_LEVELS ==> v[l] == Save(rank, base[l], levels[l])
    {
      v := [];
      for l := 0 to Dbformat.NUM_LEVELS
        invariant |v| == l && forall k :: 0 <= k < l ==> v[k] == Save(rank, base[k], levels[k])
      {
        var files := SaveLevel(rank, base[l], levels[l]);
        v := v + [files];
      }
    }
  }

  /** The compact pointer of a level after the first `n` of these are installed. */
  function PointerAfter(before: Bytes, pointers: seq<(nat, Bytes)>, n: nat, level: nat): Bytes
    requires n <= |pointers|
  {
    if n == 0 then before
    else if pointers[n - 1].0 == level then pointers[n - 1].1
    else PointerAfter(before, pointers, n - 1, level)
  }

  predicate EditLevels(e: Edit) {
    && (forall i :: 0 <= i < |e.compactPointers| ==> e.compactPointers[i].0 < Dbformat.NUM_LEVELS)
    && (forall i :: 0 <= i < |e.deleted| ==> e.deleted[i].0 < Dbformat.NUM_LEVELS)
    && (forall i :: 0 <= i < |e.newFiles| ==> e.newFiles[i].0 < Dbformat.NUM_LEVELS)
  }

  ghost function DeletedUpTo(edit: Edit, level: nat, n: nat): set<nat>
    requires n <= |edit.deleted|
  {
    GoneAt(edit.(deleted := edit.deleted[..n]), level)
  }

  lemma DeletedStep(edit: Edit, n: nat)
    requires n < |edit.deleted|
    ensures forall l :: DeletedUpTo(edit, l, n + 1) ==
                        DeletedUpTo(edit, l, n) + if edit.deleted[n].0 == l then {edit.deleted[n].1} else {}
    ensures n + 1 == |edit.deleted| ==> forall l :: DeletedUpTo(edit, l, n + 1) == GoneAt(edit, l)
  {
    var d := edit.deleted;
    assert d[..n + 1] == d[..n] + [d[n]];
    forall l: nat
      ensures DeletedUpTo(edit, l, n + 1) == DeletedUpTo(edit, l, n) + if d[n].0 == l then {d[n].1} else {}
    {
      GoneSnoc(edit, d[..n], d[n], l);
    }
    assert n + 1 == |d| ==> d[..n + 1] == d;
  }

  lemma GoneSnoc(edit: Edit, d: seq<(nat, nat)>, x: (nat, nat), level: nat)
    ensures GoneAt(edit.(deleted := d + [x]), level) ==
              GoneAt(edit.(deleted := d), level) + if x.0 == level then {x.1} else {}
  {
    var a, b := edit.(deleted := d), edit.(deleted := d + [x]);
    forall y | y in GoneAt(a, level) ensures y in GoneAt(b, level) {
      var i :| 0 <= i < |d| && d[i].0 == level && d[i].1 == y;
      assert b.deleted[i] == d[i];
    }
    assert b.deleted[|d|] == x;
    forall y | y in GoneAt(b, level) ensures y in GoneAt(a, level) || (x.0 == level && y == x.1) {
      var i :| 0 <= i < |d + [x]| && (d + [x])[i].0 == level && (d + [x])[i].1 == y;
      assert i < |d| ==> a.deleted[i] == (d + [x])[i];
    }
  }

  lemma NewStep(rank: Rank, files: seq<(nat, Meta)>, n: nat)
    requires n < |files|
    ensures forall l, ls :: AddFiles(rank, ls, NewAt(files[..n + 1], l)) ==
              if files[n].0 == l then AddFile(rank, AddFiles(rank, ls, NewAt(files[..n], l)), files[n].1)
                else AddFiles(rank, ls, NewAt(files[..n], l))
  {
    assert files[..n + 1][..n] == files[..n];
    forall l: nat, ls
      ensures AddFiles(rank, ls, NewAt(files[..n + 1], l)) ==
              if files[n].0 == l then AddFile(rank, AddFiles(rank, ls, NewAt(files[..n], l)), files[n].1)
                else AddFiles(rank, ls, NewAt(files[..n], l))
    {
      AddFilesSnoc(rank, ls, NewAt(files[..n], l), files[n].1);
      assert NewAt(files[..n], l) + [] == NewAt(files[..n], l);
    }
  }

  /** What is still to be saved. */
  ghost function Rest(rank: Rank, base: seq<Meta>, b: nat, ls: LevelState, a: nat): seq<Meta>
    requires b <= |base| && a <= |ls.added|
  {
    Save(rank, base[b..], ls.(added := ls.added[a..]))
  }

  lemma TakeBase(rank: Rank, base: seq<Meta>, b: nat, ls: LevelState, a: nat)
    requires b < |base| && a <= |ls.added| && (a == |ls.added| || !FileLess(rank, ls.added[a], base[b]))
    ensures Rest(rank, base, b, ls, a) == Keep(base[b], ls.deleted) + Rest(rank, base, b + 1, ls, a)
  {
    assert base[b..][1..] == base[b + 1..];
  }

  lemma TakeAdded(rank: Rank, base: seq<Meta>, b: nat, ls: LevelState, a: nat)
    requires b <= |base| && a < |ls.added| && (b == |base| || FileLess(rank, ls.added[a], base[b]))
    ensures Rest(rank, base, b, ls, a) == Keep(ls.added[a], ls.deleted) + Rest(rank, base, b, ls, a + 1)
  {
    assert ls.added[a..][1..] == ls.added[a + 1..];
  }

  lemma Ends(rank: Rank, base: seq<Meta>, ls: LevelState)
    ensures Rest(rank, base, 0, ls, 0) == Save(rank, base, ls) && Rest(rank, base, |base|, ls, |ls.added|) == []
  {
    assert base[0..] == base && ls.added[0..] == ls.added;
  }

  /** The loop of SaveTo at one level: base files up to each added file, then that file, then the remaining base files.
      */
  method SaveLevel(rank: Rank, base: seq<Meta>, ls: LevelState) returns (files: seq<Meta>)
    ensures files == Save(rank, base, ls)
  {
    hide Rest, Keep;
    Ends(rank, base, ls);
    files := [];
    var b, a := 0, 0;
    while a < |ls.added|
      invariant 0 <= a <= |ls.added| && 0 <= b <= |base|
      invariant files + Rest(rank, base, b, ls, a) == Save(rank, base, ls)
    {
      while b < |base| && !FileLess(rank, ls.added[a], base[b])
        invariant 0 <= b <= |base|
        invariant files + Rest(rank, base, b, ls, a) == Save(rank, base, ls)
      {
        TakeBase(rank, base, b, ls, a);
        files := files + Keep(base[b], ls.deleted);
        b := b + 1;
      }
      TakeAdded(rank, base, b, ls, a);
      files := files + Keep(ls.added[a], ls.deleted);
      a := a + 1;
    }
    while b < |base|
      invariant 0 <= b <= |base|
      invariant files + Rest(rank, base, b, ls, a) == Save(rank, base, ls)
    {
      TakeBase(rank, base, b, ls, a);
      files := files + Keep(base[b], ls.deleted);
      b := b + 1;
    }
  }
}
