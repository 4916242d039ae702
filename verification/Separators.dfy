/** Bytewise keys, internal keys, and the shortened keys that separate index entries. */
module Separators {
  import opened Words

  type Key = seq<Byte>

  /** Slice::compare < 0. */
  predicate Lt(a: Key, b: Key) {
    |b| > 0 && (|a| == 0 || a[0] < b[0] || (a[0] == b[0] && Lt(a[1..], b[1..])))
  }

  lemma {:induction false} LtTotal(a: Key, b: Key)
    ensures Lt(a, b) || Lt(b, a) || a == b
    ensures !(Lt(a, b) && Lt(b, a)) && !Lt(a, a)
  {
    if |a| > 0 && |b| > 0 {
      LtTotal(a[1..], b[1..]);
      assert a == [a[0]] + a[1..] && b == [b[0]] + b[1..];
    }
    if |a| > 0 { LtTotal(a[1..], a[1..]); }
  }

  lemma {:induction false} LtTrans(a: Key, b: Key, c: Key)
    requires Lt(a, b) && Lt(b, c)
    ensures Lt(a, c)
  {
    if |a| > 0 && a[0] == b[0] == c[0] {
      LtTrans(a[1..], b[1..], c[1..]);
    }
  }

  /** The first difference decides. */
  lemma {:induction false} LtAt(a: Key, b: Key, d: nat)
    requires d < |a| && d < |b| && a[..d] == b[..d] && a[d] < b[d]
    ensures Lt(a, b)
  {
    if d > 0 {
      assert a[0] == a[..d][0] && b[0] == b[..d][0];
      assert a[1..][..d - 1] == a[..d][1..] && b[1..][..d - 1] == b[..d][1..];
      LtAt(a[1..], b[1..], d - 1);
    }
  }

  /** `d` is where the keys first differ, or where the shorter one ends. */
  ghost predicate DiffersAt(a: Key, b: Key, d: nat) {
    && d <= |a| && d <= |b| && a[..d] == b[..d]
    && (d == |a| || d == |b| || a[d] != b[d])
  }

  /** There is only one such place. */
  lemma DiffersOnce(a: Key, b: Key, d: nat, e: nat)
    requires DiffersAt(a, b, d) && DiffersAt(a, b, e)
    ensures d == e
  {
    if d < e { SameBefore(a, b, e, d); }
    if e < d { SameBefore(a, b, d, e); }
  }

  lemma SameBefore(a: Key, b: Key, d: nat, i: nat)
    requires i < d <= |a| && d <= |b| && a[..d] == b[..d]
    ensures a[i] == b[i]
  {
    assert a[..d][i] == b[..d][i];
  }

  /** The byte at which the keys differ can be raised and still stay below the other key's. */
  predicate Raises(start: Key, limit: Key, d: nat) {
    d < |start| && d < |limit| && start[d] < 0xff && start[d] + 1 < limit[d]
  }

  /** BytewiseComparatorImpl::FindShortestSeparator: the key is cut after the first different byte, raised by one,
      exactly when that stays before the limit. */
  method ShortestSeparator(start: Key, limit: Key) returns (r: Key)
    ensures |r| <= |start| && (r == start || Lt(start, r)) && (r == start || Lt(r, limit))
    ensures forall d: nat :: DiffersAt(start, limit, d) ==>
              r == if Raises(start, limit, d) then start[..d] + [start[d] + 1] else start
  {
    r := start;
    var minLength := if |start| < |limit| then |start| else |limit|;
    var d := 0;
    while d < minLength && start[d] == limit[d]
      invariant 0 <= d <= minLength && start[..d] == limit[..d]
    {
      d := d + 1;
    }
    forall e: nat | DiffersAt(start, limit, e) ensures e == d { DiffersOnce(start, limit, d, e); }
    if d < minLength {
      if start[d] < 0xff && start[d] + 1 < limit[d] {
        r := start[..d] + [start[d] + 1];
        LtAt(start, r, d);
        LtAt(r, limit, d);
      }
    }
  }

  /** The first byte that can be raised. */
  ghost predicate RaisedAt(key: Key, i: nat) {
    i < |key| && key[i] != 0xff && forall j :: 0 <= j < i ==> key[j] == 0xff
  }

  /** BytewiseComparatorImpl::FindShortSuccessor: the key is cut after the first byte that can be raised, raised by one;
      a key without one stays. */
  method ShortSuccessor(key: Key) returns (r: Key)
    ensures |r| <= |key| && (r == key || Lt(key, r))
    ensures forall i: nat :: RaisedAt(key, i) ==> r == key[..i] + [key[i] + 1]
    ensures (forall i: nat :: !RaisedAt(key, i)) ==> r == key
  {
    var i := 0;
    while i < |key|
      invariant 0 <= i <= |key| && forall j :: 0 <= j < i ==> key[j] == 0xff
    {
      if key[i] != 0xff {
        r := key[..i] + [key[i] + 1];
        LtAt(key, r, i);
        assert RaisedAt(key, i);
        return;
      }
      i := i + 1;
    }
    return key;
  }

  /** An internal key: user key and trailer (sequence and type). */
  datatype IKey = IKey(user: Key, tag: nat)

  const MAX_TAG: nat := 0xFFFF_FFFF_FFFF_FF01

  predicate ILess(a: IKey, b: IKey) { Lt(a.user, b.user) || (a.user == b.user && a.tag > b.tag) }

  predicate IAtMost(a: IKey, b: IKey) { !ILess(b, a) }

  lemma ITotal(a: IKey, b: IKey)
    ensures ILess(a, b) || ILess(b, a) || a == b
    ensures !(ILess(a, b) && ILess(b, a)) && !ILess(a, a)
  {
    LtTotal(a.user, b.user);
    LtTotal(a.user, a.user);
  }

  lemma ITrans(a: IKey, b: IKey, c: IKey)
    requires IAtMost(a, b) && IAtMost(b, c)
    ensures IAtMost(a, c)
    ensures ILess(a, b) || ILess(b, c) ==> ILess(a, c)
  {
    ITotal(a, b);
    ITotal(b, c);
    ITotal(a, c);
    if Lt(a.user, b.user) && Lt(b.user, c.user) { LtTrans(a.user, b.user, c.user); }
  }

  /** InternalKeyComparator::FindShortestSeparator: at or after `start`, before `limit`; when it changes the key it
      changes the user key, and stays before the limit's user key. */
  method Separator(start: IKey, limit: IKey) returns (r: IKey)
    requires ILess(start, limit)
    ensures IAtMost(start, r) && ILess(r, limit) && (r == start || Lt(r.user, limit.user))
    ensures forall d: nat :: DiffersAt(start.user, limit.user, d) ==>
              r == if Raises(start.user, limit.user, d) && d + 1 < |start.user|
                   then IKey(start.user[..d] + [start.user[d] + 1], MAX_TAG) else start
  {
    r := start;
    ITotal(start, start);
    var tmp := ShortestSeparator(start.user, limit.user);
    if |tmp| < |start.user| && Lt(start.user, tmp) {
      r := IKey(tmp, MAX_TAG);
      ITotal(start, r);
    }
  }

  /** InternalKeyComparator::FindShortSuccessor. */
  method Successor(key: IKey) returns (r: IKey)
    ensures IAtMost(key, r)
    ensures forall i: nat :: RaisedAt(key.user, i) ==>
              r == if i + 1 < |key.user| then IKey(key.user[..i] + [key.user[i] + 1], MAX_TAG) else key
    ensures (forall i: nat :: !RaisedAt(key.user, i)) ==> r == key
  {
    r := key;
    ITotal(key, key);
    var tmp := ShortSuccessor(key.user);
    if |tmp| < |key.user| && Lt(key.user, tmp) {
      r := IKey(tmp, MAX_TAG);
      ITotal(key, r);
    }
  }
}
