/** Exactly when one save of many edits agrees with one version per edit, file numbers added again included. */
module RecoveryExact {
  import opened VersionEdits
  import opened VersionBuilder

  /** The builder's set cannot tell the two files apart. */
  predicate Same(rank: Rank, f: Meta, g: Meta) { f.number == g.number && rank(f.smallest) == rank(g.smallest) }

  ghost predicate Known(rank: Rank, fs: seq<Meta>, f: Meta) { exists g :: g in fs && Same(rank, f, g) }

  lemma OrderedSame(rank: Rank, fs: seq<Meta>, f: Meta, g: Meta)
    requires Ordered(rank, fs) && f in fs && g in fs && Same(rank, f, g)
    ensures f == g
  {
    var i :| 0 <= i < |fs| && fs[i] == f;
    var j :| 0 <= j < |fs| && fs[j] == g;
  }

  /** Inserting into the set: a file it cannot tell from one it has is lost, any other joins in order. */
  lemma {:induction false} SetAddIs(rank: Rank, added: seq<Meta>, f: Meta)
    requires Ordered(rank, added)
    ensures Ordered(rank, SetAdd(rank, added, f))
    ensures Known(rank, added, f) ==> SetAdd(rank, added, f) == added
    ensures !Known(rank, added, f) ==> forall g :: g in SetAdd(rank, added, f) <==> g in added || g == f
  {
    if |added| > 0 {
      var front, last := added[..|added| - 1], added[|added| - 1];
      assert added == front + [last] && last in added;
      if FileLess(rank, last, f) {
        assert !Known(rank, added, f);
      } else if FileLess(rank, f, last) {
        SetAddIs(rank, front, f);
        assert Known(rank, front, f) <==> Known(rank, added, f);
        var r := SetAdd(rank, front, f);
        forall i | 0 <= i < |r| ensures FileLess(rank, r[i], last) { assert r[i] in r; }
      } else {
        assert Same(rank, f, last);
      }
    }
  }

  /** What adding a list of files does to a level state, told by what it does to a fresh one. */
  ghost predicate AddedLike(rank: Rank, added: seq<Meta>, alone: seq<Meta>, r: seq<Meta>) {
    && Ordered(rank, r) && Ordered(rank, alone)
    && forall g :: g in r <==> g in added || (g in alone && !Known(rank, added, g))
  }

  lemma AddedLikeStep(rank: Rank, added: seq<Meta>, alone: seq<Meta>, r: seq<Meta>, f: Meta)
    requires AddedLike(rank, added, alone, r)
    ensures AddedLike(rank, added, SetAdd(rank, alone, f), SetAdd(rank, r, f))
  {
    SetAddIs(rank, alone, f);
    SetAddIs(rank, r, f);
    if Known(rank, alone, f) {
      var h :| h in alone && Same(rank, f, h);
      if Known(rank, added, h) {
        var a :| a in added && Same(rank, h, a);
        assert a in r && Same(rank, f, a);
      } else {
        assert h in r;
      }
      assert Known(rank, r, f);
    } else if Known(rank, r, f) {
      var x :| x in r && Same(rank, f, x);
      assert x in added;
    } else {
      assert forall a :: a in added ==> a in r;
    }
  }

  lemma {:induction false} AddFilesLike(rank: Rank, ls: LevelState, alone: LevelState, fs: seq<Meta>)
    requires Ordered(rank, ls.added) && alone.added == []
    ensures AddedLike(rank, ls.added, AddFiles(rank, alone, fs).added, AddFiles(rank, ls, fs).added)
    ensures AddFiles(rank, ls, fs).deleted == ls.deleted - Numbers(fs)
    ensures AddFiles(rank, alone, fs).deleted == alone.deleted - Numbers(fs)
    ensures Numbers(AddFiles(rank, alone, fs).added) == Numbers(fs)
  {
    if |fs| > 0 {
      var front, last := fs[..|fs| - 1], fs[|fs| - 1];
      AddFilesLike(rank, ls, alone, front);
      hide AddedLike;
      assert fs == front + [last];
      assert Numbers(fs) == Numbers(front) + {last.number};
      AddedLikeStep(rank, ls.added, AddFiles(rank, alone, front).added, AddFiles(rank, ls, front).added, last);
      AloneNumbers(rank, ls.added, AddFiles(rank, alone, front).added, AddFiles(rank, ls, front).added, last);
    }
  }

  lemma AloneNumbers(rank: Rank, added: seq<Meta>, alone: seq<Meta>, r: seq<Meta>, f: Meta)
    requires AddedLike(rank, added, alone, r)
    ensures Numbers(SetAdd(rank, alone, f)) == Numbers(alone) + {f.number}
  {
    SetAddIs(rank, alone, f);
    if Known(rank, alone, f) {
      var h :| h in alone && Same(rank, f, h);
      assert h.number in Numbers(alone);
    } else {
      assert f in SetAdd(rank, alone, f);
    }
  }

  /** The guard on one edit, before it is applied: a number the builder has seen before may be added again while it
      stands if the builder can tell the file apart, and after it was deleted if the edit brings back every file the
      builder has under it. */
  ghost predicate ReaddsAgree(rank: Rank, ls: LevelState, alone: seq<Meta>) {
    forall f :: f in alone && f.number in Numbers(ls.added) ==>
      if f.number in ls.deleted then forall g :: g in ls.added && g.number == f.number ==> g in alone
      else !Known(rank, ls.added, f)
  }

  lemma {:induction false} SaveCount(rank: Rank, base: seq<Meta>, ls: LevelState, f: Meta)
    requires f.number !in ls.deleted
    ensures multiset(Save(rank, base, ls))[f] == multiset(base)[f] + multiset(ls.added)[f]
    decreases |base| + |ls.added|
  {
    if |base| == 0 && |ls.added| == 0 {
    } else if |ls.added| == 0 || (|base| > 0 && !FileLess(rank, ls.added[0], base[0])) {
      SaveCount(rank, base[1..], ls, f);
      KeepCount(base, Save(rank, base[1..], ls), ls.deleted, f);
    } else {
      SaveCount(rank, base, ls.(added := ls.added[1..]), f);
      KeepCount(ls.added, Save(rank, base, ls.(added := ls.added[1..])), ls.deleted, f);
    }
  }

  lemma KeepCount(fs: seq<Meta>, rest: seq<Meta>, deleted: set<nat>, f: Meta)
    requires |fs| > 0 && f.number !in deleted
    ensures multiset(Keep(fs[0], deleted) + rest)[f] + multiset(fs[1..])[f] == multiset(fs)[f] + multiset(rest)[f]
  {
    assert fs == [fs[0]] + fs[1..];
  }

  lemma {:induction false} OrderedOnce(rank: Rank, fs: seq<Meta>, f: Meta)
    requires Ordered(rank, fs)
    ensures multiset(fs)[f] <= 1
  {
    if |fs| > 0 {
      OrderedOnce(rank, fs[1..], f);
      assert fs == [fs[0]] + fs[1..];
      assert forall i :: 0 <= i < |fs[1..]| ==> FileLess(rank, fs[0], fs[1..][i]);
    }
  }

  /** The level before and after one edit, both ways. */
  ghost predicate OneEdit(rank: Rank, ls: LevelState, ls': LevelState, one: LevelState, gone: set<nat>) {
    && Ordered(rank, ls.added) && AddedLike(rank, ls.added, one.added, ls'.added)
    && ls'.deleted == ls.deleted + gone - Numbers(one.added) && one.deleted == gone - Numbers(one.added)
  }

  lemma EditIsOne(rank: Rank, ls: LevelState, edit: Edit, level: nat)
    requires Ordered(rank, ls.added)
    ensures OneEdit(rank, ls, ApplyLevel(rank, ls, edit, level), ApplyLevel(rank, FRESH, edit, level),
                    GoneAt(edit, level))
  {
    var fs, gone := NewAt(edit.newFiles, level), GoneAt(edit, level);
    AddFilesLike(rank, ls.(deleted := ls.deleted + gone), FRESH.(deleted := {} + gone), fs);
  }

  lemma SaveNothingBelow(rank: Rank, ls: LevelState)
    requires Ordered(rank, ls.added)
    ensures Ordered(rank, Save(rank, [], ls))
    ensures forall g :: g in Save(rank, [], ls) <==> g in ls.added && g.number !in ls.deleted
  {
    SaveOrdered(rank, [], ls);
    SaveContents(rank, [], ls);
  }

  /** The guard makes the two agree. */
  lemma GuardAgrees(rank: Rank, ls: LevelState, ls': LevelState, one: LevelState, gone: set<nat>)
    requires OneEdit(rank, ls, ls', one, gone) && ReaddsAgree(rank, ls, one.added)
    ensures Save(rank, [], ls') == Save(rank, Save(rank, [], ls), one)
  {
    var files := Save(rank, [], ls);
    SaveNothingBelow(rank, ls);
    SaveNothingBelow(rank, ls');
    GuardComparable(rank, ls, files, one);
    SaveOrdered(rank, files, one);
    SaveContents(rank, files, one);
    forall g ensures g in Save(rank, [], ls') <==> g in Save(rank, files, one) {
      GuardSameFile(rank, ls, ls', one, gone, g);
    }
    OrderedUnique(rank, Save(rank, [], ls'), Save(rank, files, one));
  }

  lemma GuardComparable(rank: Rank, ls: LevelState, files: seq<Meta>, one: LevelState)
    requires ReaddsAgree(rank, ls, one.added) && forall g :: g in files <==> g in ls.added && g.number !in ls.deleted
    ensures Comparable(rank, files, one.added)
  {
    forall x, y | x in files && y in one.added ensures FileLess(rank, x, y) || FileLess(rank, y, x) {
      if x.number == y.number {
        assert y.number in Numbers(ls.added);
        assert !Same(rank, y, x);
      }
    }
  }

  lemma GuardSameFile(rank: Rank, ls: LevelState, ls': LevelState, one: LevelState, gone: set<nat>, g: Meta)
    requires OneEdit(rank, ls, ls', one, gone) && ReaddsAgree(rank, ls, one.added)
    ensures g in ls'.added && g.number !in ls'.deleted <==>
            ((g in ls.added && g.number !in ls.deleted) || g in one.added) && g.number !in one.deleted
  {
    assert g in ls.added ==> g.number in Numbers(ls.added);
    assert g in one.added ==> g.number in Numbers(one.added);
    if g.number in Numbers(one.added) {
      var f :| f in one.added && f.number == g.number;
      if g in one.added && Known(rank, ls.added, g) {
        var h :| h in ls.added && Same(rank, g, h);
        assert h.number in Numbers(ls.added) && h in one.added;
        OrderedSame(rank, one.added, g, h);
      }
    }
  }

  /** Without the guard they differ: a file is lost or doubled, or one stays that history dropped. */
  lemma AgreementGuards(rank: Rank, ls: LevelState, ls': LevelState, one: LevelState, gone: set<nat>)
    requires OneEdit(rank, ls, ls', one, gone) && Save(rank, [], ls') == Save(rank, Save(rank, [], ls), one)
    ensures ReaddsAgree(rank, ls, one.added)
  {
    var files := Save(rank, [], ls);
    SaveNothingBelow(rank, ls);
    SaveNothingBelow(rank, ls');
    SaveContents(rank, files, one);
    forall f | f in one.added && f.number in Numbers(ls.added)
      ensures if f.number in ls.deleted then forall g :: g in ls.added && g.number == f.number ==> g in one.added
              else !Known(rank, ls.added, f)
    {
      assert f.number in Numbers(one.added);
      if f.number !in ls.deleted && Known(rank, ls.added, f) {
        var g :| g in ls.added && Same(rank, f, g);
        assert g in files && g in Save(rank, files, one) && f in Save(rank, files, one);
        OrderedSame(rank, Save(rank, [], ls'), f, g);
        SaveCount(rank, files, one, f);
        OrderedOnce(rank, Save(rank, [], ls'), f);
      }
    }
  }

  lemma {:induction false} BatchOrdered(rank: Rank, edits: seq<Edit>, level: nat, n: nat)
    requires n <= |edits|
    ensures Ordered(rank, Batch(rank, edits, level, n).added)
  {
    if n > 0 {
      BatchOrdered(rank, edits, level, n - 1);
      EditIsOne(rank, Batch(rank, edits, level, n - 1), edits[n - 1], level);
    }
  }

  ghost predicate AgreesAt(rank: Rank, edits: seq<Edit>, level: nat, n: nat)
    requires n <= |edits|
  {
    Save(rank, [], Batch(rank, edits, level, n)) == History(rank, [], edits, level, n)
  }

  /** The guard of edit `i`, on the builder as it stands before that edit. */
  ghost predicate GuardAt(rank: Rank, edits: seq<Edit>, level: nat, i: nat)
    requires i < |edits|
  {
    ReaddsAgree(rank, Batch(rank, edits, level, i), ApplyLevel(rank, FRESH, edits[i], level).added)
  }

  /** If the two agree before an edit, they agree after it exactly when its guard holds. */
  lemma AgreesNext(rank: Rank, edits: seq<Edit>, level: nat, i: nat)
    requires i < |edits| && AgreesAt(rank, edits, level, i)
    ensures AgreesAt(rank, edits, level, i + 1) <==> GuardAt(rank, edits, level, i)
  {
    var ls := Batch(rank, edits, level, i);
    var ls', one := ApplyLevel(rank, ls, edits[i], level), ApplyLevel(rank, FRESH, edits[i], level);
    var gone := GoneAt(edits[i], level);
    BatchOrdered(rank, edits, level, i);
    EditIsOne(rank, ls, edits[i], level);
    if ReaddsAgree(rank, ls, one.added) { GuardAgrees(rank, ls, ls', one, gone); }
    if Save(rank, [], ls') == Save(rank, Save(rank, [], ls), one) { AgreementGuards(rank, ls, ls', one, gone); }
  }

  /** Recovery equals history after every edit if and only if every edit meets its guard. */
  lemma RecoveryEqualsHistoryIff(rank: Rank, edits: seq<Edit>, level: nat)
    ensures (forall n :: 0 <= n <= |edits| ==> AgreesAt(rank, edits, level, n)) <==>
            (forall i :: 0 <= i < |edits| ==> GuardAt(rank, edits, level, i))
  {
    if forall n :: 0 <= n <= |edits| ==> AgreesAt(rank, edits, level, n) {
      forall i | 0 <= i < |edits| ensures GuardAt(rank, edits, level, i) {
        assert AgreesAt(rank, edits, level, i) && AgreesAt(rank, edits, level, i + 1);
        AgreesNext(rank, edits, level, i);
      }
    }
    if forall i :: 0 <= i < |edits| ==> GuardAt(rank, edits, level, i) {
      forall n | 0 <= n <= |edits| ensures AgreesAt(rank, edits, level, n) {
        GuardsAgree(rank, edits, level, n);
      }
    }
  }

  lemma {:induction false} GuardsAgree(rank: Rank, edits: seq<Edit>, level: nat, n: nat)
    requires n <= |edits| && forall i :: 0 <= i < |edits| ==> GuardAt(rank, edits, level, i)
    ensures AgreesAt(rank, edits, level, n)
  {
    if n > 0 {
      GuardsAgree(rank, edits, level, n - 1);
      AgreesNext(rank, edits, level, n - 1);
    }
  }

  lemma {:induction false} BatchNumbers(rank: Rank, edits: seq<Edit>, level: nat, n: nat)
    requires n <= |edits|
    ensures Numbers(Batch(rank, edits, level, n).added) <= Used([], edits, level, n)
  {
    if n > 0 {
      var ls := Batch(rank, edits, level, n - 1);
      BatchNumbers(rank, edits, level, n - 1);
      BatchOrdered(rank, edits, level, n - 1);
      AddFilesLike(rank, ls.(deleted := ls.deleted + GoneAt(edits[n - 1], level)), FRESH,
                   NewAt(edits[n - 1].newFiles, level));
      hide Ordered, Known;
    }
  }

  /** Edits that add no number again meet every guard. */
  lemma NeverReaddedGuards(rank: Rank, edits: seq<Edit>, level: nat, i: nat)
    requires NeverReadded([], edits, level) && i < |edits|
    ensures GuardAt(rank, edits, level, i)
  {
    var fs := NewAt(edits[i].newFiles, level);
    FreshAt([], edits, level, i);
    BatchNumbers(rank, edits, level, i);
    AddFilesLike(rank, FRESH, FRESH.(deleted := {} + GoneAt(edits[i], level)), fs);
    hide NeverReadded, AddedLike;
    forall f | f in ApplyLevel(rank, FRESH, edits[i], level).added
      ensures f.number !in Numbers(Batch(rank, edits, level, i).added)
    {
      assert f.number in Numbers(fs);
      var g :| g in fs && g.number == f.number;
      var j :| 0 <= j < |fs| && fs[j] == g;
    }
  }
}
