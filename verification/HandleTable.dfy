/** The cache's hash table: buckets of slots, doubled when the table gets full. */
module HandleTables {
  import opened Words
  import opened Wrappers

  type Key = seq<nat>

  /** A handle as the table sees it; its key and hash never change. */
  datatype Slot = Slot(key: Key, hash: nat, id: nat)

  /** hash & (length - 1), for a length of 2^bits. */
  function BucketOf(hash: nat, bits: nat): (b: nat)
    ensures b < Pow2(bits)
  {
    MaskIsLow(hash, bits);
    Mask(hash, bits)
  }

  type View = map<(Key, nat), nat>

  predicate Names(s: Slot, key: Key, hash: nat) { s.hash == hash && s.key == key }

  ghost predicate InBucket(bucket: seq<Slot>, kh: (Key, nat)) { exists s :: s in bucket && Names(s, kh.0, kh.1) }

  ghost predicate Unique(bucket: seq<Slot>) {
    forall i, j :: 0 <= i < j < |bucket| ==> !Names(bucket[j], bucket[i].key, bucket[i].hash)
  }

  ghost predicate Holds(bucket: seq<Slot>, b: nat, bits: nat, view: View) {
    && Unique(bucket)
    && forall s :: s in bucket ==>
       BucketOf(s.hash, bits) == b && (s.key, s.hash) in view && view[(s.key, s.hash)] == s.id
  }

  /** The buckets hold exactly the view. */
  ghost predicate Placed(list: seq<seq<Slot>>, bits: nat, view: View) {
    && |list| == Pow2(bits)
    && (forall b :: 0 <= b < |list| ==> Holds(list[b], b, bits, view))
    && (forall k, h :: (k, h) in view ==> Slot(k, h, view[(k, h)]) in list[BucketOf(h, bits)])
  }

  lemma PutFront(list: seq<seq<Slot>>, bits: nat, view: View, s: Slot)
    requires Placed(list, bits, view) && (s.key, s.hash) !in view
    ensures var b := BucketOf(s.hash, bits);
            Placed(list[b := [s] + list[b]], bits, view[(s.key, s.hash) := s.id])
  {
    var b := BucketOf(s.hash, bits);
    var list', view' := list[b := [s] + list[b]], view[(s.key, s.hash) := s.id];
    forall c | 0 <= c < |list'| ensures Holds(list'[c], c, bits, view') {
      assert Holds(list[c], c, bits, view);
    }
  }

  lemma PutBack(list: seq<seq<Slot>>, bits: nat, view: View, s: Slot)
    requires Placed(list, bits, view) && (s.key, s.hash) !in view
    ensures var b := BucketOf(s.hash, bits);
            Placed(list[b := list[b] + [s]], bits, view[(s.key, s.hash) := s.id])
  {
    var b := BucketOf(s.hash, bits);
    var list', view' := list[b := list[b] + [s]], view[(s.key, s.hash) := s.id];
    forall c | 0 <= c < |list'| ensures Holds(list'[c], c, bits, view') {
      assert Holds(list[c], c, bits, view);
    }
  }

  lemma ReplaceAt(list: seq<seq<Slot>>, bits: nat, view: View, s: Slot, p: nat)
    requires Placed(list, bits, view) && p < |list[BucketOf(s.hash, bits)]|
    requires Names(list[BucketOf(s.hash, bits)][p], s.key, s.hash)
    ensures var b := BucketOf(s.hash, bits);
            Placed(list[b := list[b][p := s]], bits, view[(s.key, s.hash) := s.id])
  {
    var b := BucketOf(s.hash, bits);
    var list', view' := list[b := list[b][p := s]], view[(s.key, s.hash) := s.id];
    assert Holds(list[b], b, bits, view);
    forall c | 0 <= c < |list'| ensures Holds(list'[c], c, bits, view') {
      assert Holds(list[c], c, bits, view);
    }
    forall k, h | (k, h) in view' ensures Slot(k, h, view'[(k, h)]) in list'[BucketOf(h, bits)] {
      if (k, h) == (s.key, s.hash) {
        assert list'[b][p] == s;
      } else if BucketOf(h, bits) == b {
        var j :| 0 <= j < |list[b]| && list[b][j] == Slot(k, h, view[(k, h)]);
        assert list'[b][j] == list[b][j];
      }
    }
  }

  lemma DropAt(list: seq<seq<Slot>>, bits: nat, view: View, key: Key, hash: nat, p: nat)
    requires Placed(list, bits, view) && p < |list[BucketOf(hash, bits)]|
    requires Names(list[BucketOf(hash, bits)][p], key, hash)
    ensures var b := BucketOf(hash, bits);
            Placed(list[b := list[b][..p] + list[b][p + 1..]], bits, view - {(key, hash)})
  {
    var b := BucketOf(hash, bits);
    var list', view' := list[b := list[b][..p] + list[b][p + 1..]], view - {(key, hash)};
    assert Holds(list[b], b, bits, view);
    forall c | 0 <= c < |list'| ensures Holds(list'[c], c, bits, view') {
      assert Holds(list[c], c, bits, view);
    }
    forall k, h | (k, h) in view' ensures Slot(k, h, view'[(k, h)]) in list'[BucketOf(h, bits)] {
      if BucketOf(h, bits) == b { StaysInBucket(list[b], p, Slot(k, h, view[(k, h)])); }
    }
  }

  lemma StaysInBucket(bucket: seq<Slot>, p: nat, s: Slot)
    requires p < |bucket| && s in bucket && s != bucket[p]
    ensures s in bucket[..p] + bucket[p + 1..]
  {
    var j :| 0 <= j < |bucket| && bucket[j] == s;
    assert if j < p then bucket[..p][j] == s else bucket[p + 1..][j - p - 1] == s;
  }

  class HandleTable {
    var length: nat
    var elems: nat
    var list: seq<seq<Slot>>
    ghost var bits: nat
    ghost var view: View

    constructor ()
      ensures Valid() && view == map[]
    {
      length, elems, list, bits, view := 1, 0, [[]], 0, map[];
      new;
      Resize();
    }

    ghost predicate Valid()
      reads this
    {
      length == Pow2(bits) && Placed(list, bits, view) && elems == |view|
    }

    function Bucket(hash: nat): (b: nat)
      reads this
      requires length > 0
    {
      And(hash, length - 1)
    }

    /** FindPointer: the position of the slot in its bucket, or the bucket's end. */
    method FindPointer(key: Key, hash: nat) returns (b: nat, p: nat)
      requires Valid()
      ensures b == BucketOf(hash, bits) < |list| && p <= |list[b]|
      ensures p < |list[b]| ==>
                Names(list[b][p], key, hash) && (key, hash) in view && view[(key, hash)] == list[b][p].id
      ensures p == |list[b]| ==> (key, hash) !in view
    {
      assert BucketOf(hash, bits) == And(hash, length - 1);
      b, p := Bucket(hash), 0;
      while p < |list[b]| && (list[b][p].hash != hash || list[b][p].key != key)
        invariant p <= |list[b]| && forall j :: 0 <= j < p ==> !Names(list[b][j], key, hash)
      {
        p := p + 1;
      }
      assert Holds(list[b], b, bits, view);
    }

    method Lookup(key: Key, hash: nat) returns (r: Option<nat>)
      requires Valid()
      ensures r == if (key, hash) in view then Some(view[(key, hash)]) else None
    {
      var b, p := FindPointer(key, hash);
      return if p < |list[b]| then Some(list[b][p].id) else None;
    }

    /** Insert, returning the handle it displaces. */
    method Insert(s: Slot) returns (displaced: Option<nat>)
      requires Valid()
      modifies this
      ensures Valid() && view == old(view)[(s.key, s.hash) := s.id]
      ensures displaced == if (s.key, s.hash) in old(view) then Some(old(view)[(s.key, s.hash)]) else None
      ensures elems <= old(length) ==> length == old(length)
      ensures elems > old(length) && displaced.None? ==> elems <= length && (length == 4 || length < 2 * elems)
    {
      var b, p := FindPointer(s.key, s.hash);
      if p < |list[b]| {
        displaced := Some(list[b][p].id);
        ReplaceAt(list, bits, view, s, p);
        list := list[b := list[b][p := s]];
        view := view[(s.key, s.hash) := s.id];
      } else {
        displaced := None;
        PutBack(list, bits, view, s);
        list := list[b := list[b] + [s]];
        view := view[(s.key, s.hash) := s.id];
        elems := elems + 1;
        if elems > length {
          Resize();
        }
      }
    }

    method Remove(key: Key, hash: nat) returns (r: Option<nat>)
      requires Valid()
      modifies this
      ensures Valid() && view == old(view) - {(key, hash)}
      ensures r == if (key, hash) in old(view) then Some(old(view)[(key, hash)]) else None
    {
      var b, p := FindPointer(key, hash);
      if p < |list[b]| {
        r := Some(list[b][p].id);
        DropAt(list, bits, view, key, hash, p);
        list := list[b := list[b][..p] + list[b][p + 1..]];
        RemoveOne(view, (key, hash));
        view := view - {(key, hash)};
        elems := elems - 1;
      } else {
        r := None;
        assert view - {(key, hash)} == view;
      }
    }

    /** Rehash every slot into a table with room for all elements; the view stays. */
    method Resize()
      requires Valid()
      modifies this`length, this`list, this`bits
      ensures Valid() && length >= 4 && length >= elems && (length == 4 || length < 2 * elems)
    {
      hide Placed, MovedUpTo;
      var newLength, newBits := NewLength(elems);
      var newList := seq(newLength, _ => []);
      ghost var moved: View := map[];
      NothingPlaced(newList, newBits);
      NothingMoved();
      var i := 0;
      while i < length
        invariant 0 <= i <= length && Valid()
        invariant Placed(newList, newBits, moved)
        invariant MovedUpTo(moved, i)
      {
        BucketReady(moved, i);
        ghost var before := moved;
        newList, moved := MoveBucket(list[i], newList, newLength, newBits, moved);
        MovedBucket(before, moved, i);
        i := i + 1;
      }
      AllMoved(moved);
      list, length, bits := newList, newLength, newBits;
    }

    lemma NothingMoved()
      ensures MovedUpTo(map[], 0)
    {
    }

    lemma AllMoved(moved: View)
      requires Valid() && MovedUpTo(moved, length)
      ensures moved == view
    {
    }

    lemma BucketReady(moved: View, i: nat)
      requires Valid() && i < length && MovedUpTo(moved, i)
      ensures |list| == length && Unique(list[i])
      ensures forall s :: s in list[i] ==> (s.key, s.hash) !in moved
    {
      assert Holds(list[i], i, bits, view);
    }

    /** The view restricted to the buckets before `i`. */
    ghost predicate MovedUpTo(moved: View, i: nat)
      reads this
    {
      && (forall kh :: kh in moved <==> kh in view && BucketOf(kh.1, bits) < i)
      && (forall kh :: kh in moved ==> kh in view && moved[kh] == view[kh])
    }

    lemma MovedBucket(before: View, moved: View, i: nat)
      requires Valid() && i < length && |list| == length && MovedUpTo(before, i)
      requires forall kh :: kh in moved <==> kh in before || InBucket(list[i], kh)
      requires forall kh :: kh in before ==> kh in moved && moved[kh] == before[kh]
      requires forall s :: s in list[i] ==> (s.key, s.hash) in moved && moved[(s.key, s.hash)] == s.id
      ensures MovedUpTo(moved, i + 1)
    {
      assert Holds(list[i], i, bits, view);
      forall kh | kh in view && BucketOf(kh.1, bits) == i ensures kh in moved {
        var (k, h) := kh;
        assert (k, h) in view && Names(Slot(k, h, view[(k, h)]), k, h);
      }
    }
  }

  lemma NothingPlaced(list: seq<seq<Slot>>, bits: nat)
    requires |list| == Pow2(bits) && forall b :: 0 <= b < |list| ==> list[b] == []
    ensures Placed(list, bits, map[])
  {
  }

  method NewLength(elems: nat) returns (length: nat, ghost bits: nat)
    ensures length == Pow2(bits) && length >= 4 && length >= elems && (length == 4 || length < 2 * elems)
  {
    length, bits := 4, 2;
    while length < elems
      invariant length == Pow2(bits) && length >= 4 && (length == 4 || length < 2 * elems)
      decreases elems - length
    {
      length, bits := length * 2, bits + 1;
    }
  }

  lemma RemoveOne(view: View, kh: (Key, nat))
    requires kh in view
    ensures |view - {kh}| == |view| - 1
  {
    assert view == (view - {kh})[kh := view[kh]];
  }

  lemma InBucketStep(bucket: seq<Slot>, j: nat)
    requires j < |bucket|
    ensures forall kh :: InBucket(bucket[..j + 1], kh) <==>
              InBucket(bucket[..j], kh) || kh == (bucket[j].key, bucket[j].hash)
  {
    assert bucket[..j + 1] == bucket[..j] + [bucket[j]];
    forall kh | InBucket(bucket[..j], kh) || kh == (bucket[j].key, bucket[j].hash)
      ensures InBucket(bucket[..j + 1], kh)
    {
      if kh == (bucket[j].key, bucket[j].hash) {
        assert Names(bucket[j], kh.0, kh.1) && bucket[j] in bucket[..j + 1];
      } else {
        var s :| s in bucket[..j] && Names(s, kh.0, kh.1);
        assert s in bucket[..j + 1];
      }
    }
  }

  /** The inner loop of Resize: push each slot of one bucket in front of its new bucket. */
  method MoveBucket(bucket: seq<Slot>, list0: seq<seq<Slot>>, length: nat, ghost bits: nat, ghost moved0: View)
    returns (list: seq<seq<Slot>>, ghost moved: View)
    requires length == Pow2(bits) && Placed(list0, bits, moved0) && Unique(bucket)
    requires forall s :: s in bucket ==> (s.key, s.hash) !in moved0
    ensures Placed(list, bits, moved)
    ensures forall kh :: kh in moved <==> kh in moved0 || InBucket(bucket, kh)
    ensures forall kh :: kh in moved0 ==> kh in moved && moved[kh] == moved0[kh]
    ensures forall s :: s in bucket ==> (s.key, s.hash) in moved && moved[(s.key, s.hash)] == s.id
  {
    list, moved := list0, moved0;
    var j := 0;
    while j < |bucket|
      invariant 0 <= j <= |bucket| && Placed(list, bits, moved)
      invariant forall kh :: kh in moved <==> kh in moved0 || InBucket(bucket[..j], kh)
      invariant forall kh :: kh in moved0 ==> kh in moved && moved[kh] == moved0[kh]
      invariant forall s :: s in bucket[..j] ==> (s.key, s.hash) in moved && moved[(s.key, s.hash)] == s.id
    {
      var s := bucket[j];
      PutFront(list, bits, moved, s);
      assert BucketOf(s.hash, bits) == And(s.hash, length - 1);
      var b := And(s.hash, length - 1);
      list := list[b := [s] + list[b]];
      moved := moved[(s.key, s.hash) := s.id];
      InBucketStep(bucket, j);
      assert bucket[..j + 1] == bucket[..j] + [s];
      j := j + 1;
    }
    assert bucket[..|bucket|] == bucket;
  }
}
