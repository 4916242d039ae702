/** One shard of the LRU cache: reference counts, the two lists, the charge, and when deleters run. */
module LruCache {
  import opened Wrappers
  import opened HandleTables

  datatype Handle = Handle(key: Key, hash: nat, charge: nat, inCache: bool, refs: nat) {
    /** References held by clients: all but the cache's own. */
    function Outstanding(): int { refs - if inCache then 1 else 0 }
  }

  /** The handles in memory, the two lists (oldest entry first), the charge, and the handles whose deleter ran. */
  datatype Shard = Shard(handles: map<nat, Handle>, lru: seq<nat>, inUse: seq<nat>, usage: nat, next: nat,
                         deleted: seq<nat>)

  ghost predicate NoDup(s: seq<nat>) { |s| == 0 || (s[0] !in s[1..] && NoDup(s[1..])) }

  lemma {:induction false} NoDupAppend(s: seq<nat>, x: nat)
    requires NoDup(s) && x !in s
    ensures NoDup(s + [x])
  {
    if |s| > 0 {
      NoDupAppend(s[1..], x);
      assert (s + [x])[1..] == s[1..] + [x];
    }
  }

  function Remove(s: seq<nat>, x: nat): (r: seq<nat>)
    ensures NoDup(s) ==> NoDup(r) && forall y :: y in r <==> y in s && y != x
  {
    if |s| == 0 then []
    else
      assert s == [s[0]] + s[1..];
      if s[0] == x then s[1..] else [s[0]] + Remove(s[1..], x)
  }

  ghost function Charges(handles: map<nat, Handle>, s: seq<nat>): nat {
    if |s| == 0 then 0 else (if s[0] in handles then handles[s[0]].charge else 0) + Charges(handles, s[1..])
  }

  lemma {:induction false} ChargesAppend(handles: map<nat, Handle>, s: seq<nat>, x: nat)
    ensures Charges(handles, s + [x]) == Charges(handles, s) + if x in handles then handles[x].charge else 0
  {
    if |s| == 0 {
      assert s + [x] == [x];
    } else {
      assert (s + [x])[1..] == s[1..] + [x];
      ChargesAppend(handles, s[1..], x);
    }
  }

  lemma {:induction false} ChargesRemove(handles: map<nat, Handle>, s: seq<nat>, x: nat)
    ensures Charges(handles, s) == Charges(handles, Remove(s, x)) + if x in s && x in handles then handles[x].charge
              else 0
  {
    if |s| > 0 && s[0] != x {
      assert ([s[0]] + Remove(s[1..], x))[1..] == Remove(s[1..], x);
      ChargesRemove(handles, s[1..], x);
    }
  }

  lemma {:induction false} ChargesSame(h1: map<nat, Handle>, h2: map<nat, Handle>, s: seq<nat>)
    requires forall x :: x in s ==> x in h1 && x in h2 && h1[x].charge == h2[x].charge
    ensures Charges(h1, s) == Charges(h2, s)
  {
    if |s| > 0 { ChargesSame(h1, h2, s[1..]); }
  }

  ghost predicate OnLru(s: Shard, id: nat) { id in s.handles && s.handles[id].inCache && s.handles[id].refs == 1 }

  ghost predicate OnInUse(s: Shard, id: nat) { id in s.handles && s.handles[id].inCache && s.handles[id].refs >= 2 }

  /** An entry is on lru_ exactly when cached and unused, on in_use_ exactly when cached and used. */
  ghost predicate ListsOk(s: Shard) {
    && NoDup(s.lru) && NoDup(s.inUse)
    && (forall id: nat :: id in s.lru <==> OnLru(s, id)) && (forall id: nat :: id in s.inUse <==> OnInUse(s, id))
  }

  /** Every handle ever made is in memory with a reference left, or its deleter ran once. */
  ghost predicate LifeOk(s: Shard) {
    && (forall id :: id in s.handles ==> id < s.next && s.handles[id].refs >= 1)
    && NoDup(s.deleted) && (forall id: nat :: id in s.deleted <==> id < s.next && id !in s.handles)
  }

  ghost predicate UsageOk(s: Shard) { s.usage == Charges(s.handles, s.lru) + Charges(s.handles, s.inUse) }

  ghost predicate Good(s: Shard) { ListsOk(s) && LifeOk(s) && UsageOk(s) }

  /** The table maps exactly the cached handles, apart from `out`. */
  ghost predicate TableOk(view: View, handles: map<nat, Handle>, out: Option<nat>) {
    && (forall id :: id in handles && handles[id].inCache && out != Some(id) ==>
          (handles[id].key, handles[id].hash) in view && view[(handles[id].key, handles[id].hash)] == id)
    && (forall kh :: kh in view ==>
          (&& view[kh] in handles && handles[view[kh]].inCache && out != Some(view[kh])
           && handles[view[kh]].key == kh.0 && handles[view[kh]].hash == kh.1))
  }

  /** Ref: move an unused entry to in_use_, count the reference. */
  function Ref(s: Shard, id: nat): Shard
    requires id in s.handles
  {
    var e := s.handles[id];
    var s1 := if e.refs == 1 && e.inCache then s.(lru := Remove(s.lru, id), inUse := s.inUse + [id]) else s;
    s1.(handles := s.handles[id := e.(refs := e.refs + 1)])
  }

  /** Unref: run the deleter on the last reference; a cached entry nobody uses goes back to lru_. */
  function Unref(s: Shard, id: nat): Shard
    requires id in s.handles && s.handles[id].refs > 0
  {
    var e := s.handles[id];
    if e.refs == 1 then s.(handles := s.handles - {id}, deleted := s.deleted + [id])
    else
      var s1 := s.(handles := s.handles[id := e.(refs := e.refs - 1)]);
      if e.inCache && e.refs == 2 then s1.(inUse := Remove(s.inUse, id), lru := s.lru + [id]) else s1
  }

  /** The part of FinishErase before Unref: off its list, out of the cache, charge returned. */
  function Detach(s: Shard, id: nat): Shard
    requires id in s.handles && s.usage >= s.handles[id].charge
  {
    var e := s.handles[id];
    s.(lru := Remove(s.lru, id), inUse := Remove(s.inUse, id), handles := s.handles[id := e.(inCache := false)],
       usage := s.usage - e.charge)
  }

  function FinishErase(s: Shard, id: nat): Shard
    requires id in s.handles && s.usage >= s.handles[id].charge && s.handles[id].refs > 0
  {
    Unref(Detach(s, id), id)
  }

  lemma RefLists(s: Shard, id: nat)
    requires ListsOk(s) && id in s.handles && s.handles[id].refs >= 1
    ensures ListsOk(Ref(s, id))
  {
    assert OnLru(s, id) || !(s.handles[id].inCache && s.handles[id].refs == 1);
    if id !in s.inUse { NoDupAppend(s.inUse, id); }
  }

  lemma RefUsage(s: Shard, id: nat)
    requires ListsOk(s) && UsageOk(s) && id in s.handles && s.handles[id].refs >= 1
    ensures UsageOk(Ref(s, id))
  {
    var t := Ref(s, id);
    RefLists(s, id);
    assert id in s.lru <==> OnLru(s, id);
    ChargesRemove(s.handles, s.lru, id);
    ChargesAppend(s.handles, s.inUse, id);
    SameCharges(s.handles, t, t.lru);
    SameCharges(s.handles, t, t.inUse);
  }

  lemma RefKeeps(s: Shard, id: nat)
    requires Good(s) && id in s.handles
    ensures Good(Ref(s, id))
  {
    hide ListsOk, UsageOk;
    RefLists(s, id);
    RefUsage(s, id);
  }

  lemma UnrefLists(s: Shard, id: nat)
    requires ListsOk(s) && id in s.handles && s.handles[id].Outstanding() > 0
    ensures ListsOk(Unref(s, id))
  {
    var e := s.handles[id];
    if e.inCache && e.refs == 2 {
      assert OnInUse(s, id) && !OnLru(s, id);
      NoDupAppend(s.lru, id);
    } else {
      assert !OnLru(s, id) && OnInUse(s, id) == (e.inCache && e.refs > 2);
    }
  }

  lemma UnrefUsage(s: Shard, id: nat)
    requires ListsOk(s) && UsageOk(s) && id in s.handles && s.handles[id].Outstanding() > 0
    ensures UsageOk(Unref(s, id))
  {
    var t := Unref(s, id);
    UnrefLists(s, id);
    ChargesRemove(s.handles, s.inUse, id);
    ChargesAppend(s.handles, s.lru, id);
    SameCharges(s.handles, t, t.lru);
    SameCharges(s.handles, t, t.inUse);
  }

  lemma SameCharges(h: map<nat, Handle>, t: Shard, ids: seq<nat>)
    requires forall x :: x in ids ==> x in t.handles
    requires forall x :: x in t.handles ==> x in h && h[x].charge == t.handles[x].charge
    ensures Charges(h, ids) == Charges(t.handles, ids)
  {
    ChargesSame(h, t.handles, ids);
  }

  lemma UnrefLife(s: Shard, id: nat)
    requires LifeOk(s) && id in s.handles && s.handles[id].Outstanding() > 0
    ensures LifeOk(Unref(s, id))
  {
    NoDupAppend(s.deleted, id);
  }

  /** Releasing a client's reference. */
  lemma UnrefKeeps(s: Shard, id: nat)
    requires Good(s) && id in s.handles && s.handles[id].Outstanding() > 0
    ensures Good(Unref(s, id))
  {
    UnrefLists(s, id);
    UnrefUsage(s, id);
    UnrefLife(s, id);
  }

  lemma CachedCharge(s: Shard, id: nat)
    requires Good(s) && id in s.handles && s.handles[id].inCache
    ensures s.usage >= s.handles[id].charge
  {
    assert OnLru(s, id) || OnInUse(s, id);
    ChargesRemove(s.handles, s.lru, id);
    ChargesRemove(s.handles, s.inUse, id);
  }

  lemma DetachLists(s: Shard, id: nat)
    requires ListsOk(s) && id in s.handles && s.handles[id].inCache && s.usage >= s.handles[id].charge
    ensures ListsOk(Detach(s, id))
  {
  }

  lemma DetachUsage(s: Shard, id: nat)
    requires Good(s) && id in s.handles && s.handles[id].inCache && s.usage >= s.handles[id].charge
    ensures UsageOk(Detach(s, id))
  {
    var t := Detach(s, id);
    assert OnLru(s, id) || OnInUse(s, id);
    DetachLists(s, id);
    ChargesRemove(s.handles, s.lru, id);
    ChargesRemove(s.handles, s.inUse, id);
    SameCharges(s.handles, t, t.lru);
    SameCharges(s.handles, t, t.inUse);
  }

  lemma DetachKeeps(s: Shard, id: nat)
    requires Good(s) && id in s.handles && s.handles[id].inCache && s.usage >= s.handles[id].charge
    ensures Good(Detach(s, id))
  {
    DetachLists(s, id);
    DetachUsage(s, id);
    hide ListsOk, UsageOk;
  }

  /** The whole of FinishErase: the charge goes, the cache's reference goes, clients keep theirs. */
  lemma FinishEraseKeeps(s: Shard, id: nat)
    requires Good(s) && id in s.handles && s.handles[id].inCache
    ensures s.usage >= s.handles[id].charge && s.handles[id].refs > 0
    ensures Good(FinishErase(s, id)) && Erased(s, id, FinishErase(s, id))
  {
    assert s.handles[id].refs > 0;
    hide Good;
    CachedCharge(s, id);
    DetachKeeps(s, id);
    UnrefDetached(s, id);
    FinishEraseIs(s, id);
    hide Erased, FinishErase;
  }

  lemma FinishEraseIs(s: Shard, id: nat)
    requires id in s.handles && s.handles[id].refs > 0 && s.usage >= s.handles[id].charge
    ensures Erased(s, id, FinishErase(s, id))
  {
    assert s.handles[id := s.handles[id].(inCache := false)] - {id} == s.handles - {id};
  }

  lemma UnrefDetached(s: Shard, id: nat)
    requires id in s.handles && s.handles[id].refs > 0 && s.handles[id].inCache && s.usage >= s.handles[id].charge
    requires Good(Detach(s, id))
    ensures Good(FinishErase(s, id))
  {
    hide Good;
    UnrefKeeps(Detach(s, id), id);
  }

  /** Clients' references are untouched. */
  ghost predicate SameClients(h1: map<nat, Handle>, h2: map<nat, Handle>) {
    && (forall id :: id in h1 && h1[id].Outstanding() > 0 ==> id in h2)
    && (forall id :: id in h1 && id in h2 ==> h1[id].Outstanding() == h2[id].Outstanding())
  }

  /** A new handle: one reference for the caller, one for the cache. */
  function AddCached(s: Shard, key: Key, hash: nat, charge: nat): Shard {
    s.(handles := s.handles[s.next := Handle(key, hash, charge, true, 2)], inUse := s.inUse + [s.next],
       usage := s.usage + charge, next := s.next + 1)
  }

  /** A new handle that is not cached. */
  function AddUncached(s: Shard, key: Key, hash: nat, charge: nat): Shard {
    s.(handles := s.handles[s.next := Handle(key, hash, charge, false, 1)], next := s.next + 1)
  }

  lemma AddCachedKeeps(s: Shard, key: Key, hash: nat, charge: nat)
    requires Good(s)
    ensures Good(AddCached(s, key, hash, charge)) && s.next !in s.handles
  {
    var t := AddCached(s, key, hash, charge);
    assert s.next !in s.handles && s.next !in s.inUse;
    NoDupAppend(s.inUse, s.next);
    ChargesAppend(t.handles, s.inUse, s.next);
    ChargesSame(s.handles, t.handles, s.lru);
    ChargesSame(s.handles, t.handles, s.inUse);
  }

  lemma AddUncachedKeeps(s: Shard, key: Key, hash: nat, charge: nat)
    requires Good(s)
    ensures Good(AddUncached(s, key, hash, charge)) && s.next !in s.handles
  {
    var u := AddUncached(s, key, hash, charge);
    assert s.next !in s.handles;
    ChargesSame(s.handles, u.handles, s.lru);
    ChargesSame(s.handles, u.handles, s.inUse);
  }

  lemma RefTable(view: View, s: Shard, id: nat)
    requires TableOk(view, s.handles, None) && id in s.handles
    ensures TableOk(view, Ref(s, id).handles, None)
  {
  }

  lemma UnrefTable(view: View, s: Shard, id: nat)
    requires TableOk(view, s.handles, None) && id in s.handles && s.handles[id].Outstanding() > 0
    ensures TableOk(view, Unref(s, id).handles, None)
  {
  }

  function Found(view: View, key: Key, hash: nat): Option<nat> {
    if (key, hash) in view then Some(view[(key, hash)]) else None
  }

  lemma RemoveTable(view: View, handles: map<nat, Handle>, key: Key, hash: nat)
    requires TableOk(view, handles, None)
    ensures var e := Found(view, key, hash);
            TableOk(view - {(key, hash)}, handles, e) && (e.Some? ==> e.value in handles && handles[e.value].inCache)
  {
  }

  lemma InsertTable(view: View, s: Shard, key: Key, hash: nat, charge: nat)
    requires TableOk(view, s.handles, None) && s.next !in s.handles
    ensures var e := Found(view, key, hash);
            var t := AddCached(s, key, hash, charge);
            && TableOk(view[(key, hash) := s.next], t.handles, e) && SameClients(s.handles, t.handles)
            && (e.Some? ==> e.value in t.handles && t.handles[e.value].inCache && e.value != s.next)
  {
  }

  lemma UncachedTable(view: View, s: Shard, key: Key, hash: nat, charge: nat)
    requires TableOk(view, s.handles, None) && s.next !in s.handles
    ensures TableOk(view, AddUncached(s, key, hash, charge).handles, None)
    ensures SameClients(s.handles, AddUncached(s, key, hash, charge).handles)
  {
  }

  /** What FinishErase does to a handle. */
  ghost predicate Erased(s: Shard, id: nat, t: Shard)
    requires id in s.handles
  {
    var e := s.handles[id];
    && t.usage + e.charge == s.usage && t.next == s.next && t.lru == Remove(s.lru, id) && t.inUse == Remove(s.inUse, id)
    && if e.refs <= 1 then t.handles == s.handles - {id} && t.deleted == s.deleted + [id]
       else t.handles == s.handles[id := e.(inCache := false, refs := e.refs - 1)] && t.deleted == s.deleted
  }

  lemma ErasedTable(view: View, s: Shard, id: nat, t: Shard)
    requires id in s.handles && s.handles[id].inCache && s.handles[id].refs > 0 && Erased(s, id, t)
    requires TableOk(view, s.handles, Some(id))
    ensures TableOk(view, t.handles, None) && SameClients(s.handles, t.handles)
  {
  }

  lemma OldestInTable(view: View, s: Shard)
    requires Good(s) && TableOk(view, s.handles, None) && |s.lru| > 0
    ensures var id := s.lru[0];
            id in s.handles && s.handles[id].refs == 1 && Found(view, s.handles[id].key, s.handles[id].hash) == Some(id)
    ensures Remove(s.lru, s.lru[0]) == s.lru[1..] && Remove(s.inUse, s.lru[0]) == s.inUse
  {
    assert OnLru(s, s.lru[0]) && !OnInUse(s, s.lru[0]);
    RemoveAbsent(s.inUse, s.lru[0]);
  }

  lemma {:induction false} RemoveAbsent(s: seq<nat>, x: nat)
    requires x !in s
    ensures Remove(s, x) == s
  {
    if |s| > 0 { RemoveAbsent(s[1..], x); }
  }

  // ---- recency -----------------------------------------------------------------------------------

  /** `lru` lists entries by the time of their last release, longest ago first. */
  ghost predicate InReleaseOrder(lru: seq<nat>, released: map<nat, nat>, clock: nat) {
    && (forall i :: 0 <= i < |lru| ==> lru[i] in released && released[lru[i]] < clock)
    && (forall i, j :: 0 <= i < j < |lru| ==> released[lru[i]] < released[lru[j]])
  }

  lemma {:induction false} RemoveOrdered(lru: seq<nat>, x: nat, released: map<nat, nat>, clock: nat)
    requires InReleaseOrder(lru, released, clock)
    ensures InReleaseOrder(Remove(lru, x), released, clock)
    ensures forall y :: y in Remove(lru, x) ==> y in lru
  {
    if |lru| > 0 && lru[0] != x {
      var rest := Remove(lru[1..], x);
      RemoveOrdered(lru[1..], x, released, clock);
      forall j | 0 <= j < |rest| ensures released[lru[0]] < released[rest[j]] {
        assert rest[j] in rest;
        var k :| 0 <= k < |lru[1..]| && lru[1..][k] == rest[j];
        assert lru[k + 1] == rest[j];
      }
    }
  }

  /** The entry just released is the newest. */
  lemma ReleaseOrdered(s: Shard, id: nat, released: map<nat, nat>, clock: nat)
    requires Good(s) && InReleaseOrder(s.lru, released, clock) && id in s.handles && s.handles[id].Outstanding() > 0
    ensures InReleaseOrder(Unref(s, id).lru, released[id := clock], clock + 1)
  {
    assert !OnLru(s, id);
    assert id !in s.lru;
  }

  /** One reference less; the last one takes the handle with it. */
  lemma UnrefIs(s: Shard, id: nat)
    requires id in s.handles && s.handles[id].Outstanding() > 0
    ensures var e, t := s.handles[id], Unref(s, id);
            && t.usage == s.usage && t.next == s.next
            && if e.refs == 1 then t.handles == s.handles - {id} && t.deleted == s.deleted + [id]
               else t.handles == s.handles[id := e.(refs := e.refs - 1)] && t.deleted == s.deleted
  {
  }

  lemma RefOrdered(s: Shard, id: nat, released: map<nat, nat>, clock: nat)
    requires id in s.handles && InReleaseOrder(s.lru, released, clock)
    ensures InReleaseOrder(Ref(s, id).lru, released, clock)
  {
    RemoveOrdered(s.lru, id, released, clock);
  }

  /** `after` is what is left of `before` when the shortest prefix that brings `usage` within `capacity` is gone, or
      all of it. */
  ghost predicate EvictsShortest(before: seq<nat>, after: seq<nat>, handles: map<nat, Handle>, usage: int,
                                 capacity: nat) {
    && |after| <= |before| && after == before[|before| - |after|..]
    && (forall m :: 0 <= m < |before| - |after| ==> usage > capacity + Charges(handles, before[..m]))
    && (|after| > 0 ==> usage <= capacity + Charges(handles, before[..|before| - |after|]))
  }

  /** The list without the displaced handle. */
  function Without(lru: seq<nat>, d: Option<nat>): seq<nat> { if d.Some? then Remove(lru, d.value) else lru }

  /** The charge with the new handle, if it is cached, and without the displaced one. */
  function UsageWith(s: Shard, capacity: nat, charge: nat, d: Option<nat>): int
    requires d.Some? ==> d.value in s.handles
  {
    s.usage + (if capacity > 0 then charge else 0) - (if d.Some? then s.handles[d.value].charge else 0)
  }

  /** The displaced handle's deleter runs at once if no client holds it. */
  function LastReference(s: Shard, d: Option<nat>): seq<nat>
    requires d.Some? ==> d.value in s.handles
  {
    if d.Some? && s.handles[d.value].refs == 1 then [d.value] else []
  }

  /** All handles but the displaced and the evicted ones are as before; the evicted ones are gone. */
  ghost predicate KeptApart(h1: map<nat, Handle>, h2: map<nat, Handle>, d: Option<nat>, gone: seq<nat>) {
    && (forall x :: x in h1 && d != Some(x) && x !in gone ==> x in h2 && h2[x] == h1[x])
    && (forall x :: x in gone ==> x !in h2)
  }

  lemma WithoutFacts(s: Shard, d: Option<nat>)
    requires Good(s)
    ensures forall x :: x in Without(s.lru, d) ==> x in s.handles && d != Some(x)
    ensures forall x :: x in s.handles ==> s.handles[x].refs >= 1
  {
    assert forall x :: x in s.lru ==> OnLru(s, x);
  }

  /** The new handle is in and the displaced one out. */
  ghost predicate Entered(s: Shard, key: Key, hash: nat, charge: nat, capacity: nat, d: Option<nat>, t: Shard) {
    && t.next == s.next + 1 && s.next in t.handles
    && t.handles[s.next] == Handle(key, hash, charge, capacity > 0, if capacity > 0 then 2 else 1)
    && (d.Some? ==> d.value in s.handles)
    && t.lru == Without(s.lru, d) && t.usage == UsageWith(s, capacity, charge, d)
    && t.deleted == s.deleted + LastReference(s, d) && KeptApart(s.handles, t.handles, d, [])
  }

  lemma AddedIs(s: Shard, key: Key, hash: nat, charge: nat, capacity: nat, d: Option<nat>, t: Shard)
    requires s.next !in s.handles && capacity > 0
    requires forall x :: x in s.handles ==> s.handles[x].refs >= 1
    requires d.Some? ==> d.value in s.handles && Erased(AddCached(s, key, hash, charge), d.value, t)
    requires d.None? ==> t == AddCached(s, key, hash, charge)
    ensures Entered(s, key, hash, charge, capacity, d, t)
  {
  }

  lemma AddedUncachedIs(s: Shard, key: Key, hash: nat, charge: nat)
    requires s.next !in s.handles
    ensures Entered(s, key, hash, charge, 0, None, AddUncached(s, key, hash, charge))
  {
  }

  /** How far eviction has come since `mid`. */
  ghost predicate Evicting(mid: Shard, s: Shard, capacity: nat) {
    && |s.lru| <= |mid.lru|
    && var n := |mid.lru| - |s.lru|;
       && s.lru == mid.lru[n..] && s.usage == mid.usage - Charges(mid.handles, mid.lru[..n])
       && (forall m :: 0 <= m < n ==> mid.usage > capacity + Charges(mid.handles, mid.lru[..m]))
       && s.deleted == mid.deleted + mid.lru[..n] && KeptApart(mid.handles, s.handles, None, mid.lru[..n])
       && (forall x :: x in s.handles ==> x in mid.handles)
  }

  lemma EvictingStart(mid: Shard, capacity: nat)
    ensures Evicting(mid, mid, capacity)
  {
    assert mid.lru[0..] == mid.lru && mid.lru[..0] == [] && mid.deleted + [] == mid.deleted;
  }

  lemma EvictingFacts(mid: Shard, s: Shard, capacity: nat)
    requires Evicting(mid, s, capacity)
    ensures |s.lru| <= |mid.lru| && s.deleted == mid.deleted + mid.lru[..|mid.lru| - |s.lru|]
  {
  }

  lemma EvictingStep(mid: Shard, s: Shard, t: Shard, capacity: nat)
    requires Evicting(mid, s, capacity) && |s.lru| > 0 && s.usage > capacity && s.lru[0] in s.handles
    requires t.lru == s.lru[1..] && t.usage + s.handles[s.lru[0]].charge == s.usage
    requires t.deleted == s.deleted + [s.lru[0]] && t.handles == s.handles - {s.lru[0]}
    ensures Evicting(mid, t, capacity)
  {
    var n, x := |mid.lru| - |s.lru|, s.lru[0];
    assert mid.lru[n] == x && mid.lru[..n + 1] == mid.lru[..n] + [x];
    assert x !in mid.lru[..n];
    ChargesAppend(mid.handles, mid.lru[..n], x);
  }

  lemma Evicted(was: Shard, mid: Shard, s: Shard, d: Option<nat>, capacity: nat)
    requires Evicting(mid, s, capacity) && (s.usage <= capacity || s.lru == [])
    requires d.Some? ==> d.value in was.handles
    requires KeptApart(was.handles, mid.handles, d, []) && mid.lru == Without(was.lru, d) && mid.next > was.next
    requires forall x :: x in mid.lru ==> x in was.handles && d != Some(x)
    ensures EvictsShortest(mid.lru, s.lru, was.handles, mid.usage, capacity)
    ensures s.usage == mid.usage - Charges(was.handles, mid.lru[..|mid.lru| - |s.lru|])
    ensures KeptApart(was.handles, s.handles, d, mid.lru[..|mid.lru| - |s.lru|])
  {
    PrefixCharges(was.handles, mid.handles, mid.lru);
  }

  lemma PrefixCharges(h1: map<nat, Handle>, h2: map<nat, Handle>, s: seq<nat>)
    requires forall x :: x in s ==> x in h1 && x in h2 && h1[x].charge == h2[x].charge
    ensures forall m: nat :: m <= |s| ==> Charges(h1, s[..m]) == Charges(h2, s[..m])
  {
    forall m: nat | m <= |s| ensures Charges(h1, s[..m]) == Charges(h2, s[..m]) {
      ChargesSame(h1, h2, s[..m]);
    }
  }

  lemma ClientsSame(h: map<nat, Handle>)
    ensures SameClients(h, h)
  {
  }

  lemma ClientsTrans(h1: map<nat, Handle>, h2: map<nat, Handle>, h3: map<nat, Handle>)
    requires SameClients(h1, h2) && SameClients(h2, h3) && h3.Keys <= h2.Keys
    ensures SameClients(h1, h3)
  {
  }

  lemma EmptyGood()
    ensures Good(Shard(map[], [], [], 0, 0, [])) && TableOk(map[], map[], None)
  {
    var s := Shard(map[], [], [], 0, 0, []);
    EmptyLists(s);
    EmptyLife(s);
    EmptyTable();
    hide ListsOk, LifeOk, TableOk;
  }

  lemma EmptyLists(s: Shard)
    requires s.lru == [] == s.inUse && s.handles == map[]
    ensures ListsOk(s)
  {
  }

  lemma EmptyLife(s: Shard)
    requires s.deleted == [] && s.handles == map[] && s.next == 0
    ensures LifeOk(s)
  {
  }

  lemma EmptyTable()
    ensures TableOk(map[], map[], None)
  {
  }

  class LRUCache {
    const capacity: nat
    const table: HandleTable
    var s: Shard
    /** When each handle was last released, and how many releases there were. */
    ghost var released: map<nat, nat>
    ghost var clock: nat

    constructor (capacity: nat)
      ensures Valid() && fresh(table) && s == Shard(map[], [], [], 0, 0, [])
    {
      hide Good, TableOk, Placed, SameClients;
      this.capacity := capacity;
      table := new HandleTable();
      s := Shard(map[], [], [], 0, 0, []);
      released, clock := map[], 0;
      new;
      EmptyGood();
    }

    ghost predicate Valid()
      reads this, table
    {
      table.Valid() && Good(s) && TableOk(table.view, s.handles, None) && InReleaseOrder(s.lru, released, clock)
    }

    /** The entry found has one more reference. */
    method Lookup(key: Key, hash: nat) returns (r: Option<nat>)
      requires Valid()
      modifies this`s
      ensures Valid() && r == Found(table.view, key, hash)
      ensures r.None? ==> s == old(s)
      ensures r.Some? ==> r.value in old(s.handles) && s == Ref(old(s), r.value)
      ensures r.Some? ==>
                var e := old(s.handles)[r.value]; s.handles == old(s.handles)[r.value := e.(refs := e.refs + 1)]
    {
      hide Good, TableOk, Placed, SameClients;
      r := table.Lookup(key, hash);
      if r.Some? {
        RemoveTable(table.view, s.handles, key, hash);
        RefKeeps(s, r.value);
        RefTable(table.view, s, r.value);
        RefOrdered(s, r.value, released, clock);
        s := Ref(s, r.value);
      }
    }

    /** The handle has one reference less, or is gone with its last one; the release is noted. */
    method Release(id: nat)
      requires Valid() && id in s.handles && s.handles[id].Outstanding() > 0
      modifies this
      ensures Valid() && s == Unref(old(s), id)
      ensures released == old(released)[id := old(clock)] && clock == old(clock) + 1
      ensures s.usage == old(s.usage) && s.next == old(s.next)
      ensures var e := old(s.handles)[id];
              if e.refs == 1 then s.handles == old(s.handles) - {id} && s.deleted == old(s.deleted) + [id]
              else s.handles == old(s.handles)[id := e.(refs := e.refs - 1)] && s.deleted == old(s.deleted)
    {
      hide Good, TableOk, Placed, SameClients, InReleaseOrder;
      UnrefKeeps(s, id);
      UnrefIs(s, id);
      ReleaseOrdered(s, id, released, clock);
      UnrefTable(table.view, s, id);
      released, clock := released[id := clock], clock + 1;
      s := Unref(s, id);
    }

    /** FinishErase of the handle the table just let go. */
    method Drop(e: Option<nat>)
      requires table.Valid() && Good(s) && TableOk(table.view, s.handles, e)
      requires e.Some? ==> e.value in s.handles && s.handles[e.value].inCache
      requires InReleaseOrder(s.lru, released, clock)
      modifies this`s
      ensures Valid() && SameClients(old(s.handles), s.handles)
      ensures if e.Some? then Erased(old(s), e.value, s) else s == old(s)
    {
      hide Good, TableOk, Placed, SameClients;
      ClientsSame(s.handles);
      if e.Some? {
        FinishEraseKeeps(s, e.value);
        RemoveOrdered(s.lru, e.value, released, clock);
        ErasedTable(table.view, s, e.value, FinishErase(s, e.value));
        s := FinishErase(s, e.value);
      }
    }

    method Erase(key: Key, hash: nat)
      requires Valid()
      modifies this`s, table
      ensures Valid() && table.view == old(table.view) - {(key, hash)} && SameClients(old(s.handles), s.handles)
      ensures (key, hash) in old(table.view) ==>
                old(table.view)[(key, hash)] in old(s.handles) && Erased(old(s), old(table.view)[(key, hash)], s)
      ensures (key, hash) !in old(table.view) ==> s == old(s)
    {
      hide Good, TableOk, Placed, SameClients;
      RemoveTable(table.view, s.handles, key, hash);
      var e := table.Remove(key, hash);
      Drop(e);
    }

    /** Evict the oldest unused entry. */
    method EvictOldest()
      requires Valid() && |s.lru| > 0
      modifies this`s, table
      ensures Valid() && SameClients(old(s.handles), s.handles)
      ensures s.lru == old(s.lru[1..]) && s.inUse == old(s.inUse) && s.next == old(s.next)
      ensures s.deleted == old(s.deleted) + [old(s.lru[0])]
      ensures s.handles == old(s.handles) - {old(s.lru[0])} && old(s.lru[0]) in old(s.handles)
      ensures s.usage + old(s.handles)[old(s.lru[0])].charge == old(s.usage)
      ensures table.view == old(table.view) - {(old(s.handles)[old(s.lru[0])].key, old(s.handles)[old(s.lru[0])].hash)}
    {
      hide Good, TableOk, Placed, SameClients;
      OldestInTable(table.view, s);
      RemoveTable(table.view, s.handles, s.handles[s.lru[0]].key, s.handles[s.lru[0]].hash);
      var oldest := s.lru[0];
      var e := table.Remove(s.handles[oldest].key, s.handles[oldest].hash);
      Drop(e);
    }

    /** Prune: every unused entry goes, oldest first, and each of their deleters runs. */
    method Prune()
      requires Valid()
      modifies this`s, table
      ensures Valid() && s.lru == [] && s.deleted == old(s.deleted) + old(s.lru)
      ensures SameClients(old(s.handles), s.handles)
    {
      hide Good, TableOk, Placed, SameClients;
      ClientsSame(s.handles);
      while |s.lru| > 0
        invariant Valid() && SameClients(old(s.handles), s.handles)
        invariant s.deleted + s.lru == old(s.deleted) + old(s.lru)
        decreases |s.lru|
      {
        ghost var before := s;
        EvictOldest();
        assert s.handles.Keys <= before.handles.Keys;
        ClientsTrans(old(s.handles), before.handles, s.handles);
        assert before.lru == [before.lru[0]] + before.lru[1..];
      }
    }

    /** Insert. The handle that had the key is displaced; then exactly as many of the other unused entries go, longest
        unused first, as bring the charge within the capacity, or all of them. */
    method Insert(key: Key, hash: nat, charge: nat) returns (id: nat)
      requires Valid()
      modifies this`s, table
      ensures Valid() && id == old(s.next) && s.next == id + 1
      ensures s.usage <= capacity || s.lru == []
      ensures id in s.handles && s.handles[id] == Handle(key, hash, charge, capacity > 0, if capacity > 0 then 2 else 1)
      ensures capacity > 0 ==> Found(table.view, key, hash) == Some(id)
      ensures SameClients(old(s.handles), s.handles)
      ensures var d := if capacity > 0 then Found(old(table.view), key, hash) else None;
              && (d.Some? ==> d.value in old(s.handles))
              && var before, usage := Without(old(s.lru), d), UsageWith(old(s), capacity, charge, d);
                 var gone := |before| - |s.lru|;
                 && EvictsShortest(before, s.lru, old(s.handles), usage, capacity)
                 && s.usage == usage - Charges(old(s.handles), before[..gone])
                 && s.deleted == old(s.deleted) + LastReference(old(s), d) + before[..gone]
                 && KeptApart(old(s.handles), s.handles, d, before[..gone])
    {
      hide Good, TableOk, Placed, SameClients, InReleaseOrder, Without, UsageWith, LastReference, KeptApart,
           EvictsShortest, Evicting;
      id := s.next;
      ghost var was := s;
      ghost var d := Add(key, hash, charge);
      WithoutFacts(was, d);
      ghost var mid := s;
      EvictingStart(mid, capacity);
      while s.usage > capacity && |s.lru| > 0
        invariant Valid() && s.next == id + 1 && SameClients(old(s.handles), s.handles)
        invariant id in s.handles
        invariant s.handles[id] == Handle(key, hash, charge, capacity > 0, if capacity > 0 then 2 else 1)
        invariant old(s.next) !in old(s.handles)
        invariant Evicting(mid, s, capacity)
        decreases |s.lru|
      {
        UnusedIsOther(id);
        ghost var before := s;
        EvictOldest();
        ClientsTrans(old(s.handles), before.handles, s.handles);
        EvictingStep(mid, before, s, capacity);
      }
      CachedIsFound(id);
      EvictingFacts(mid, s, capacity);
      Evicted(was, mid, s, d, capacity);
    }

    lemma UnusedIsOther(id: nat)
      requires Valid() && |s.lru| > 0 && id in s.handles && s.handles[id].Outstanding() == 1
      ensures id != s.lru[0]
    {
      assert OnLru(s, s.lru[0]);
    }

    lemma CachedIsFound(id: nat)
      requires Valid() && id in s.handles
      ensures s.handles[id].inCache ==> Found(table.view, s.handles[id].key, s.handles[id].hash) == Some(id)
    {
    }

    /** The new handle, cached unless caching is turned off; it displaces the one with its key. */
    method Add(key: Key, hash: nat, charge: nat) returns (ghost d: Option<nat>)
      requires Valid()
      modifies this`s, table
      ensures Valid() && SameClients(old(s.handles), s.handles) && old(s.next) !in old(s.handles)
      ensures d == if capacity > 0 then Found(old(table.view), key, hash) else None
      ensures Entered(old(s), key, hash, charge, capacity, d, s)
    {
      hide Good, TableOk, Placed, SameClients;
      hide Entered, InReleaseOrder;
      var was := s;
      WithoutFacts(s, None);
      d := None;
      if capacity > 0 {
        AddCachedKeeps(s, key, hash, charge);
        InsertTable(table.view, s, key, hash, charge);
        RemoveTable(table.view, s.handles, key, hash);
        s := AddCached(s, key, hash, charge);
        ghost var added := s;
        var displaced := table.Insert(Slot(key, hash, was.next));
        d := displaced;
        Drop(displaced);
        assert s.handles.Keys <= added.handles.Keys;
        ClientsTrans(was.handles, added.handles, s.handles);
        AddedIs(was, key, hash, charge, capacity, d, s);
      } else {
        AddUncachedKeeps(s, key, hash, charge);
        UncachedTable(table.view, s, key, hash, charge);
        s := AddUncached(s, key, hash, charge);
        AddedUncachedIs(was, key, hash, charge);
      }
    }
  }
}
