/**
One shard of the cache of util/cache.cc: reference counts, the in-use and LRU lists, the
hash table and the usage counter, each changed in place by every operation.
*/
module LruCache {
  import opened Common
  import opened HandleTable

  datatype Handle = Handle(ident: Ident, charge: nat, inCache: bool, refs: nat)

  /** What a caller asked to be cached. */
  datatype Entry = Entry(ident: Ident, charge: nat)

  // ----- lists without repeats -----

  /** Unlinks an element; the list is unchanged if it is not there. */
  function Without(s: seq<Id>, x: Id): (r: seq<Id>)
    ensures x !in s ==> r == s
  {
    if s == [] then [] else if s[0] == x then s[1..] else [s[0]] + Without(s[1..], x)
  }

  lemma {:induction false} WithoutHas(s: seq<Id>, x: Id)
    requires NoRepeats(s)
    ensures NoRepeats(Without(s, x)) && forall y :: y in Without(s, x) <==> y in s && y != x
  {
    if s != [] {
      var rest := s[1..];
      assert s == [s[0]] + rest && s[0] !in rest;
      WithoutHas(rest, x);
      if s[0] != x { PrependHas(Without(rest, x), s[0]); }
    }
  }

  lemma PrependHas(s: seq<Id>, x: Id)
    requires NoRepeats(s) && x !in s
    ensures NoRepeats([x] + s)
  {
  }

  lemma AppendHas(s: seq<Id>, x: Id)
    requires NoRepeats(s) && x !in s
    ensures NoRepeats(s + [x]) && forall y :: y in s + [x] <==> y in s || y == x
  {
  }

  function ChargeOf(mem: map<Id, Handle>, x: Id): nat {
    if x in mem then mem[x].charge else 0
  }

  function Charges(mem: map<Id, Handle>, s: seq<Id>): nat {
    if s == [] then 0 else ChargeOf(mem, s[0]) + Charges(mem, s[1..])
  }

  lemma {:induction false} ChargesWithout(mem: map<Id, Handle>, s: seq<Id>, x: Id)
    ensures Charges(mem, Without(s, x)) == Charges(mem, s) - if x in s then ChargeOf(mem, x) else 0
  {
    if s != [] && s[0] != x {
      ChargesWithout(mem, s[1..], x);
      assert Without(s, x)[1..] == Without(s[1..], x);
    }
  }

  lemma {:induction false} ChargesAppend(mem: map<Id, Handle>, s: seq<Id>, x: Id)
    ensures Charges(mem, s + [x]) == Charges(mem, s) + ChargeOf(mem, x)
  {
    if s != [] {
      ChargesAppend(mem, s[1..], x);
      assert (s + [x])[1..] == s[1..] + [x];
    }
  }

  lemma {:induction false} ChargesSame(mem: map<Id, Handle>, mem': map<Id, Handle>, s: seq<Id>)
    requires forall x :: x in s ==> ChargeOf(mem', x) == ChargeOf(mem, x)
    ensures Charges(mem', s) == Charges(mem, s)
  {
    if s != [] {
      ChargesSame(mem, mem', s[1..]);
    }
  }

  // ----- the invariant -----

  /** References: one per handle a client holds, and one for the cache. */
  ghost predicate RefsOk(mem: map<Id, Handle>, holds: map<Id, nat>) {
    && mem.Keys == holds.Keys
    && forall id :: id in mem ==> mem[id].refs == holds[id] + (if mem[id].inCache then 1 else 0) && mem[id].refs >= 1
  }

  /** An entry in the cache is in one list, decided by whether a client holds it. */
  ghost predicate ListsOk(mem: map<Id, Handle>, lru: seq<Id>, inUse: seq<Id>) {
    && NoRepeats(lru) && NoRepeats(inUse)
    && (forall id :: id in lru <==> id in mem && mem[id].inCache && mem[id].refs == 1)
    && (forall id :: id in inUse <==> id in mem && mem[id].inCache && mem[id].refs >= 2)
  }

  /** The table maps exactly the entries in the cache, except possibly one on its way out. */
  ghost predicate TableOk(mem: map<Id, Handle>, contents: map<Ident, Id>, leaving: Option<Id>) {
    && (forall x :: x in contents ==> contents[x] in mem && mem[contents[x]].ident == x && mem[contents[x]].inCache && Some(contents[x]) != leaving)
    && (forall id :: id in mem && mem[id].inCache && Some(id) != leaving ==> mem[id].ident in contents && contents[mem[id].ident] == id)
  }

  /** Deleters ran once each, for entries that are gone. */
  ghost predicate DeletedOk(mem: map<Id, Handle>, deleted: seq<Id>, nextId: Id) {
    && NoRepeats(deleted)
    && (forall id :: id in deleted ==> id !in mem && id < nextId)
    && (forall id :: id in mem ==> id < nextId)
  }

  ghost predicate CacheOk(mem: map<Id, Handle>, lru: seq<Id>, inUse: seq<Id>, usage: int, holds: map<Id, nat>) {
    RefsOk(mem, holds) && ListsOk(mem, lru, inUse) && usage == Charges(mem, lru) + Charges(mem, inUse)
  }

  /** Every entry still has the key and the charge it was inserted with. */
  ghost predicate GivenOk(mem: map<Id, Handle>, given: map<Id, Entry>) {
    forall id :: id in mem ==> id in given && mem[id].ident == given[id].ident && mem[id].charge == given[id].charge
  }

  ghost predicate GivenBefore(given: map<Id, Entry>, nextId: Id) {
    forall id :: id in given ==> id < nextId
  }

  lemma GivenMore(mem: map<Id, Handle>, given: map<Id, Entry>, nextId: Id, h: Handle)
    requires GivenOk(mem, given) && GivenBefore(given, nextId)
    ensures nextId !in given && GivenBefore(given[nextId := Entry(h.ident, h.charge)], nextId + 1)
    ensures GivenOk(mem[nextId := h], given[nextId := Entry(h.ident, h.charge)])
  {
  }

  lemma GivenIs(mem: map<Id, Handle>, given: map<Id, Entry>, e: Id)
    requires GivenOk(mem, given) && e in mem
    ensures e in given && given[e] == Entry(mem[e].ident, mem[e].charge)
  {
  }

  lemma GivenKept(mem: map<Id, Handle>, given: map<Id, Entry>, e: Id, h: Handle)
    requires GivenOk(mem, given) && e in mem && h.ident == mem[e].ident && h.charge == mem[e].charge
    ensures GivenOk(mem[e := h], given) && GivenOk(mem - {e}, given)
  {
  }

  /** The charges given for the entries of a list. */
  ghost function GivenCharges(given: map<Id, Entry>, s: seq<Id>): nat {
    if s == [] then 0 else (if s[0] in given then given[s[0]].charge else 0) + GivenCharges(given, s[1..])
  }

  lemma {:induction false} ChargesAreGiven(mem: map<Id, Handle>, given: map<Id, Entry>, s: seq<Id>)
    requires GivenOk(mem, given) && forall id :: id in s ==> id in mem
    ensures Charges(mem, s) == GivenCharges(given, s)
  {
    if s != [] {
      assert s[0] in s;
      ChargesAreGiven(mem, given, s[1..]);
    }
  }

  /** The mapping after an insertion: the new entry if it is cached, and all others but the deleted ones. */
  ghost predicate Remapped(before: map<Ident, Id>, after: map<Ident, Id>, x: Option<Ident>, gone: seq<Id>) {
    && (forall y :: y in after && Some(y) != x ==> y in before && after[y] == before[y])
    && (forall y :: y in before && Some(y) != x && y !in after ==> before[y] in gone)
  }

  lemma RemappedByEviction(before: map<Ident, Id>, after: map<Ident, Id>, x: Option<Ident>, deleted: seq<Id>, n: nat, y: Ident, e: Id)
    requires n <= |deleted| && Remapped(before, after, x, deleted[n..]) && y in after && after[y] == e && Some(y) != x
    ensures Remapped(before, after - {y}, x, (deleted + [e])[n..])
  {
    assert (deleted + [e])[n..] == deleted[n..] + [e];
  }

  /** Nothing a client holds is affected, and only entries no client held are deleted. */
  ghost predicate Unaffected(holds: map<Id, nat>, deleted: seq<Id>, holds': map<Id, nat>, deleted': seq<Id>, created: Option<Id>) {
    && (forall id :: id in holds && holds[id] > 0 ==> id in holds' && holds'[id] == holds[id])
    && (forall id :: id in holds' && Some(id) != created ==> id in holds && holds'[id] == holds[id])
    && deleted <= deleted'
    && (forall i :: |deleted| <= i < |deleted'| ==> deleted'[i] in holds && holds[deleted'[i]] == 0)
  }

  /** What is left of the idle list: the oldest went first, and none went that did not have to. */
  ghost predicate EvictedAsNeeded(base: seq<Id>, mem: map<Id, Handle>, lru: seq<Id>, usage: int, capacity: nat) {
    exists n :: 0 <= n <= |base| && lru == base[n..] && (n > 0 ==> usage + ChargeOf(mem, base[n - 1]) > capacity)
  }

  lemma NothingEvicted(base: seq<Id>, mem: map<Id, Handle>, usage: int, capacity: nat)
    ensures EvictedAsNeeded(base, mem, base, usage, capacity)
  {
    assert base[0..] == base;
  }

  lemma OneMoreEvicted(base: seq<Id>, mem: map<Id, Handle>, lru: seq<Id>, usage: int, capacity: nat)
    requires EvictedAsNeeded(base, mem, lru, usage, capacity) && lru != [] && usage > capacity
    ensures EvictedAsNeeded(base, mem, lru[1..], usage - ChargeOf(mem, lru[0]), capacity)
  {
    var n :| 0 <= n <= |base| && lru == base[n..] && (n > 0 ==> usage + ChargeOf(mem, base[n - 1]) > capacity);
    assert base[n..][1..] == base[n + 1..] && base[n] == lru[0];
  }

  /** The charges of what is still idle are those of before. */
  ghost predicate SameCharges(mem: map<Id, Handle>, mem': map<Id, Handle>, ids: seq<Id>) {
    forall x :: x in ids ==> ChargeOf(mem', x) == ChargeOf(mem, x)
  }

  /** What is allocated now was before, with the same charge. */
  ghost predicate ChargesFrom(mem: map<Id, Handle>, mem': map<Id, Handle>) {
    forall id :: id in mem' ==> id in mem && mem'[id].charge == mem[id].charge
  }

  lemma ChargesFromSame(mem: map<Id, Handle>)
    ensures ChargesFrom(mem, mem)
  {
  }

  lemma ChargesKept(mem: map<Id, Handle>, mem1: map<Id, Handle>, mem': map<Id, Handle>, ids: seq<Id>, created: Id, h: Handle)
    requires mem1 == mem[created := h] && ChargesFrom(mem1, mem')
    requires created !in ids && forall x :: x in ids ==> x in mem'
    ensures SameCharges(mem, mem', ids)
  {
  }

  lemma UnaffectedByCreation(holds: map<Id, nat>, deleted: seq<Id>, e: Id)
    requires e !in holds
    ensures Unaffected(holds, deleted, holds[e := 1], deleted, Some(e))
  {
  }

  lemma UnaffectedByEviction(holds: map<Id, nat>, deleted: seq<Id>, holds': map<Id, nat>, deleted': seq<Id>, created: Option<Id>, x: Id)
    requires Unaffected(holds, deleted, holds', deleted', created) && x in holds' && holds'[x] == 0 && Some(x) != created
    ensures Unaffected(holds, deleted, holds' - {x}, deleted' + [x], created)
  {
  }

  // ----- taking and giving back references -----

  lemma RefOk(mem: map<Id, Handle>, lru: seq<Id>, inUse: seq<Id>, usage: int, holds: map<Id, nat>, e: Id)
    requires CacheOk(mem, lru, inUse, usage, holds) && e in mem
    ensures
      var moves := mem[e].inCache && mem[e].refs == 1;
      var mem' := mem[e := mem[e].(refs := mem[e].refs + 1)];
      CacheOk(mem', if moves then Without(lru, e) else lru, if moves then inUse + [e] else inUse, usage, holds[e := holds[e] + 1])
  {
    hide Without, Charges;
    var mem' := mem[e := mem[e].(refs := mem[e].refs + 1)];
    ChargesSame(mem, mem', lru);
    ChargesSame(mem, mem', inUse);
    if mem[e].inCache && mem[e].refs == 1 {
      WithoutHas(lru, e);
      AppendHas(inUse, e);
      ChargesWithout(mem', lru, e);
      ChargesAppend(mem', inUse, e);
    }
  }

  lemma ReleaseLast(mem: map<Id, Handle>, lru: seq<Id>, inUse: seq<Id>, usage: int, holds: map<Id, nat>, e: Id)
    requires CacheOk(mem, lru, inUse, usage, holds) && e in mem && holds[e] > 0 && mem[e].refs == 1
    ensures CacheOk(mem - {e}, lru, inUse, usage, holds - {e}) && !mem[e].inCache
  {
    hide Charges, NoRepeats;
    ChargesSame(mem, mem - {e}, lru);
    ChargesSame(mem, mem - {e}, inUse);
  }

  lemma ReleaseToIdle(mem: map<Id, Handle>, lru: seq<Id>, inUse: seq<Id>, usage: int, holds: map<Id, nat>, e: Id)
    requires CacheOk(mem, lru, inUse, usage, holds) && e in mem && holds[e] > 0 && mem[e].refs == 2 && mem[e].inCache
    ensures CacheOk(mem[e := mem[e].(refs := 1)], lru + [e], Without(inUse, e), usage, holds[e := holds[e] - 1])
  {
    hide Without, Charges, NoRepeats;
    var mem' := mem[e := mem[e].(refs := 1)];
    ChargesSame(mem, mem', lru);
    ChargesSame(mem, mem', inUse);
    WithoutHas(inUse, e);
    AppendHas(lru, e);
    ChargesWithout(mem', inUse, e);
    ChargesAppend(mem', lru, e);
  }

  lemma ReleaseSome(mem: map<Id, Handle>, lru: seq<Id>, inUse: seq<Id>, usage: int, holds: map<Id, nat>, e: Id)
    requires CacheOk(mem, lru, inUse, usage, holds) && e in mem && holds[e] > 0
    requires mem[e].refs > 1 && !(mem[e].refs == 2 && mem[e].inCache)
    ensures CacheOk(mem[e := mem[e].(refs := mem[e].refs - 1)], lru, inUse, usage, holds[e := holds[e] - 1])
  {
    hide Charges, NoRepeats;
    var mem' := mem[e := mem[e].(refs := mem[e].refs - 1)];
    ChargesSame(mem, mem', lru);
    ChargesSame(mem, mem', inUse);
  }

  /** A client gives back a handle: the entry stays, moves to the LRU list, or is deleted. */
  lemma ReleaseOk(mem: map<Id, Handle>, lru: seq<Id>, inUse: seq<Id>, usage: int, holds: map<Id, nat>, e: Id)
    requires CacheOk(mem, lru, inUse, usage, holds) && e in mem && e in holds && holds[e] > 0
    ensures
      var h := mem[e];
      if h.refs <= 1 then CacheOk(mem - {e}, lru, inUse, usage, holds - {e}) && !h.inCache
      else
        var moves := h.inCache && h.refs == 2;
        CacheOk(mem[e := h.(refs := h.refs - 1)], if moves then lru + [e] else lru, if moves then Without(inUse, e) else inUse,
          usage, holds[e := holds[e] - 1])
  {
    hide CacheOk, ListsOk, Without;
    RefsSame(mem, lru, inUse, usage, holds);
    if mem[e].refs == 1 {
      ReleaseLast(mem, lru, inUse, usage, holds, e);
    } else if mem[e].refs == 2 && mem[e].inCache {
      ReleaseToIdle(mem, lru, inUse, usage, holds, e);
    } else {
      ReleaseSome(mem, lru, inUse, usage, holds, e);
    }
  }

  /** The cache gives back its own reference: the entry leaves both lists, and is deleted unless a client holds it. */
  lemma EraseOk(mem: map<Id, Handle>, lru: seq<Id>, inUse: seq<Id>, usage: int, holds: map<Id, nat>, e: Id)
    requires CacheOk(mem, lru, inUse, usage, holds) && e in mem && mem[e].inCache
    ensures
      var h := mem[e];
      var mem' := if h.refs == 1 then mem - {e} else mem[e := h.(refs := h.refs - 1, inCache := false)];
      var holds' := if h.refs == 1 then holds - {e} else holds;
      CacheOk(mem', Without(lru, e), Without(inUse, e), usage - h.charge, holds') && usage >= h.charge
  {
    hide Without, Charges;
    var h := mem[e];
    var mem' := if h.refs == 1 then mem - {e} else mem[e := h.(refs := h.refs - 1, inCache := false)];
    WithoutHas(lru, e);
    WithoutHas(inUse, e);
    ChargesWithout(mem, lru, e);
    ChargesWithout(mem, inUse, e);
    ChargesSame(mem, mem', Without(lru, e));
    ChargesSame(mem, mem', Without(inUse, e));
  }

  class LRUCache {
    var capacity: nat
    var usage: int
    /** Oldest first. */
    var lru: seq<Id>
    var inUse: seq<Id>
    const table: HandleTable
    /** The entries that have been allocated and not freed. */
    var mem: map<Id, Handle>
    var nextId: Id
    /** How many handles clients hold on each entry, and the deleter calls made. */
    ghost var holds: map<Id, nat>
    ghost var deleted: seq<Id>
    /** The key and charge the caller gave for each entry; only Insert adds to it. */
    ghost var given: map<Id, Entry>

    ghost predicate Valid()
      reads this, table
    {
      Consistent(None)
    }

    /** Consistent but for an entry that has just left the table. */
    ghost predicate Consistent(leaving: Option<Id>)
      reads this, table
    {
      && table.Valid() && CacheOk(mem, lru, inUse, usage, holds)
      && TableOk(mem, table.contents, leaving) && DeletedOk(mem, deleted, nextId)
      && GivenOk(mem, given) && GivenBefore(given, nextId)
    }

    /**
    The books are right: usage is the sum of the charges the callers gave for the entries now in
    the cache, each of which is mapped under the key it was inserted with.
    */
    lemma UsageIsGiven()
      requires Valid()
      ensures usage == GivenCharges(given, lru) + GivenCharges(given, inUse)
      ensures NoRepeats(lru) && NoRepeats(inUse) && forall id :: !(id in lru && id in inUse)
      ensures forall id :: id in lru || id in inUse <==>
                id in given && given[id].ident in table.contents && table.contents[given[id].ident] == id
      ensures forall id :: id in lru <==> id in holds && holds[id] == 0
    {
      hide HandleTable.Valid, Charges, GivenCharges, NoRepeats;
      ChargesAreGiven(mem, given, lru);
      ChargesAreGiven(mem, given, inUse);
    }

    constructor (capacity: nat)
      ensures Valid() && fresh(table) && this.capacity == capacity && mem == map[] && deleted == [] && usage == 0 && given == map[]
    {
      this.capacity := capacity;
      table := new HandleTable();
      usage, lru, inUse, mem, nextId, holds, deleted, given := 0, [], [], map[], 0, map[], [], map[];
    }

    method Ref(e: Id)
      requires Valid() && e in mem
      modifies this`lru, this`inUse, this`mem, this`holds
      ensures Valid() && holds == old(holds)[e := old(holds[e]) + 1]
      ensures lru == (if old(mem[e].inCache && mem[e].refs == 1) then Without(old(lru), e) else old(lru))
    {
      hide CacheOk, TableOk, DeletedOk, ListsOk, Without, HandleTable.Valid, GivenOk, GivenBefore;
      RefsSame(mem, lru, inUse, usage, holds);
      RefOk(mem, lru, inUse, usage, holds, e);
      CountChanged(mem, table.contents, deleted, nextId, e, mem[e].refs + 1);
      GivenKept(mem, given, e, mem[e].(refs := mem[e].refs + 1));
      if mem[e].refs == 1 && mem[e].inCache {
        lru := Without(lru, e);
        inUse := inUse + [e];
      }
      mem := mem[e := mem[e].(refs := mem[e].refs + 1)];
      holds := holds[e := holds[e] + 1];
    }

    /** Gives back a client's handle. */
    method Release(e: Id)
      requires Valid() && e in mem && holds[e] > 0
      modifies this`lru, this`inUse, this`mem, this`holds, this`deleted
      ensures Valid()
      ensures if old(mem[e].refs) == 1 then deleted == old(deleted) + [e] && holds == old(holds) - {e}
              else deleted == old(deleted) && holds == old(holds)[e := old(holds[e]) - 1]
      ensures lru == (if old(mem[e].inCache && mem[e].refs == 2) then old(lru) + [e] else old(lru))
    {
      hide CacheOk, TableOk, DeletedOk, ListsOk, Without, HandleTable.Valid, GivenOk, GivenBefore;
      RefsSame(mem, lru, inUse, usage, holds);
      ReleaseOk(mem, lru, inUse, usage, holds, e);
      var h := mem[e];
      GivenKept(mem, given, e, h.(refs := h.refs - 1));
      if h.refs == 1 {
        DeleteOnce(mem, deleted, nextId, e);
        Freed(mem, table.contents, e);
        deleted, mem, holds := deleted + [e], mem - {e}, holds - {e};
      } else {
        if h.inCache && h.refs == 2 {
          inUse := Without(inUse, e);
          lru := lru + [e];
        }
        CountChanged(mem, table.contents, deleted, nextId, e, h.refs - 1);
        mem := mem[e := h.(refs := h.refs - 1)];
        holds := holds[e := holds[e] - 1];
      }
    }

    /** Finishes removing an entry that has already left the table; its deleter runs now unless a client holds it. */
    method FinishErase(x: Option<Id>)
      requires Consistent(x) && (x.Some? ==> x.value in mem && mem[x.value].inCache)
      modifies this`lru, this`inUse, this`usage, this`mem, this`holds, this`deleted
      ensures Valid()
      ensures x.None? ==> unchanged(this)
      ensures ChargesFrom(old(mem), mem)
      ensures x.Some? ==>
                && lru == Without(old(lru), x.value) && inUse == Without(old(inUse), x.value)
                && usage == old(usage) - old(mem[x.value].charge)
                && if old(holds[x.value]) == 0 then holds == old(holds) - {x.value} && deleted == old(deleted) + [x.value]
                   else holds == old(holds) && deleted == old(deleted)
    {
      hide CacheOk, TableOk, DeletedOk, ListsOk, Without, HandleTable.Valid, GivenOk, GivenBefore;
      RefsSame(mem, lru, inUse, usage, holds);
      if x.Some? {
        var e := x.value;
        var h := mem[e];
        Left(mem, table.contents, deleted, nextId, e, h.refs - 1);
        EraseOk(mem, lru, inUse, usage, holds, e);
        GivenKept(mem, given, e, h.(refs := h.refs - 1, inCache := false));
        lru, inUse := Without(lru, e), Without(inUse, e);
        usage := usage - h.charge;
        if h.refs == 1 {
          DeleteOnce(mem, deleted, nextId, e);
          deleted, mem, holds := deleted + [e], mem - {e}, holds - {e};
        } else {
          mem := mem[e := h.(refs := h.refs - 1, inCache := false)];
        }
      }
    }

    method Lookup(x: Ident) returns (r: Option<Id>)
      requires Valid()
      modifies this`lru, this`inUse, this`mem, this`holds
      ensures Valid() && r == if x in table.contents then Some(table.contents[x]) else None
      ensures r.Some? ==> r.value in old(holds) && holds == old(holds)[r.value := old(holds)[r.value] + 1]
      ensures r.None? ==> unchanged(this)
    {
      hide CacheOk;
      RefsSame(mem, lru, inUse, usage, holds);
      r := table.Lookup(x);
      if r.Some? {
        Ref(r.value);
      }
    }

    method Erase(x: Ident)
      requires Valid()
      modifies this`lru, this`inUse, this`usage, this`mem, this`holds, this`deleted, table
      ensures Valid() && table.contents == old(table.contents) - {x}
      ensures Unaffected(old(holds), old(deleted), holds, deleted, None)
      ensures x !in old(table.contents) ==> holds == old(holds) && deleted == old(deleted) && lru == old(lru) && usage == old(usage)
      ensures x in old(table.contents) ==>
                var e := old(table.contents)[x];
                && e in old(holds) && e in old(mem)
                && lru == Without(old(lru), e) && usage == old(usage) - old(mem)[e].charge
                && if old(holds)[e] == 0 then holds == old(holds) - {e} && deleted == old(deleted) + [e]
                   else holds == old(holds) && deleted == old(deleted)
    {
      hide CacheOk;
      TableLeaves(mem, table.contents, x);
      RefsSame(mem, lru, inUse, usage, holds);
      var r := table.Remove(x);
      assert r.Some? ==> r.value in mem && r.value in holds;
      FinishErase(r);
    }

    /** Removes the least recently used entry no client holds. */
    method EvictOldest()
      requires Valid() && lru != []
      modifies this`lru, this`inUse, this`usage, this`mem, this`holds, this`deleted, table
      ensures Valid() && lru == old(lru)[1..] && inUse == old(inUse)
      ensures old(lru)[0] in old(holds) && old(holds)[old(lru)[0]] == 0
      ensures holds == old(holds) - {old(lru)[0]} && deleted == old(deleted) + [old(lru)[0]]
      ensures usage == old(usage) - ChargeOf(old(mem), old(lru)[0]) && SameCharges(old(mem), mem, lru)
      ensures exists y :: y in old(table.contents) && old(table.contents)[y] == old(lru)[0] && table.contents == old(table.contents) - {y}
    {
      hide CacheOk, TableOk, DeletedOk, HandleTable.Valid, Without, GivenOk, GivenBefore;
      RefsSame(mem, lru, inUse, usage, holds);
      var e := lru[0];
      assert e in lru && e !in inUse;
      Listed(mem, table.contents, e);
      TableLeaves(mem, table.contents, mem[e].ident);
      WithoutFirst(lru);
      var r := table.Remove(mem[e].ident);
      FinishErase(r);
      RefsSame(mem, lru, inUse, usage, holds);
    }

    /** Allocates an entry for its creator and, unless caching is off, puts it in the cache in place of any other with its key. */
    method Create(x: Ident, charge: nat) returns (e: Id)
      requires Valid()
      modifies this`lru, this`inUse, this`usage, this`mem, this`nextId, this`holds, this`deleted, this`given, table
      ensures Valid() && e == old(nextId) && e in holds && holds[e] == 1
      ensures e !in old(given) && given == old(given)[e := Entry(x, charge)]
      ensures Unaffected(old(holds), old(deleted), holds, deleted, Some(e))
      ensures lru == (if capacity > 0 && x in old(table.contents) then Without(old(lru), old(table.contents)[x]) else old(lru))
      ensures SameCharges(old(mem), mem, lru)
      ensures table.contents == if capacity > 0 then old(table.contents)[x := e] else old(table.contents)
    {
      hide CacheOk, TableOk, DeletedOk, HandleTable.Valid, Without, ListsOk, RefsOk, Unaffected, SameCharges, ChargesFrom, GivenOk, GivenBefore;
      if capacity > 0 {
        e := CreateCached(x, charge);
      } else {
        e := CreateUncached(x, charge);
      }
      IdleOnes(mem, lru, inUse, usage, holds);
      ghost var h := if capacity > 0 then Handle(x, charge, true, 2) else Handle(x, charge, false, 1);
      ChargesKept(old(mem), old(mem)[e := h], mem, lru, e, h);
    }

    method CreateUncached(x: Ident, charge: nat) returns (e: Id)
      requires Valid()
      modifies this`mem, this`nextId, this`holds, this`given
      ensures Valid() && e == old(nextId) && e in holds && holds[e] == 1
      ensures e !in old(given) && given == old(given)[e := Entry(x, charge)]
      ensures Unaffected(old(holds), old(deleted), holds, deleted, Some(e))
      ensures ChargesFrom(old(mem)[e := Handle(x, charge, false, 1)], mem)
    {
      hide CacheOk, TableOk, DeletedOk, HandleTable.Valid, Without, ListsOk, RefsOk, Unaffected, SameCharges, ChargesFrom, GivenOk, GivenBefore;
      ghost var h := Handle(x, charge, false, 1);
      HoldsSame(mem, lru, inUse, usage, holds);
      Fresh(mem, lru, inUse, usage, holds, deleted, nextId, h);
      FreshMapped(mem, table.contents, nextId, h);
      GivenMore(mem, given, nextId, h);
      UnaffectedByCreation(holds, deleted, nextId);
      e := nextId;
      nextId := nextId + 1;
      holds, given := holds[e := 1], given[e := Entry(x, charge)];
      mem := mem[e := Handle(x, charge, false, 1)];
      ChargesFromSame(mem);
    }

    method CreateCached(x: Ident, charge: nat) returns (e: Id)
      requires Valid()
      modifies this`lru, this`inUse, this`usage, this`mem, this`nextId, this`holds, this`deleted, this`given, table
      ensures Valid() && e == old(nextId) && e in holds && holds[e] == 1
      ensures e !in old(given) && given == old(given)[e := Entry(x, charge)]
      ensures Unaffected(old(holds), old(deleted), holds, deleted, Some(e))
      ensures lru == if x in old(table.contents) then Without(old(lru), old(table.contents)[x]) else old(lru)
      ensures table.contents == old(table.contents)[x := e]
      ensures ChargesFrom(old(mem)[e := Handle(x, charge, true, 2)], mem)
    {
      hide CacheOk, TableOk, DeletedOk, HandleTable.Valid, Without, ListsOk, RefsOk, Unaffected, SameCharges, ChargesFrom, GivenOk, GivenBefore;
      ghost var h := Handle(x, charge, true, 2);
      HoldsSame(mem, lru, inUse, usage, holds);
      Fresh(mem, lru, inUse, usage, holds, deleted, nextId, h);
      FreshMapped(mem, table.contents, nextId, h);
      GivenMore(mem, given, nextId, h);
      UnaffectedByCreation(holds, deleted, nextId);
      e := nextId;
      nextId := nextId + 1;
      holds, given := holds[e := 1], given[e := Entry(x, charge)];
      mem := mem[e := Handle(x, charge, true, 2)];
      inUse := inUse + [e];
      usage := usage + charge;
      var previous := table.Insert(Slot(x, e));
      ghost var held := holds;
      HoldsSame(mem, lru, inUse, usage, holds);
      FinishErase(previous);
      if previous.Some? && held[previous.value] == 0 {
        UnaffectedByEviction(old(holds), old(deleted), held, old(deleted), Some(e), previous.value);
      }
    }

    method Insert(x: Ident, charge: nat) returns (e: Id)
      requires Valid()
      modifies this`lru, this`inUse, this`usage, this`mem, this`nextId, this`holds, this`deleted, this`given, table
      ensures Valid() && e == old(nextId) && e in holds && holds[e] == 1
      ensures e !in old(given) && given == old(given)[e := Entry(x, charge)]
      ensures e in mem && mem[e].ident == x && mem[e].charge == charge
      ensures capacity > 0 ==> x in table.contents && table.contents[x] == e
      ensures usage <= capacity || lru == []
      ensures var base := if capacity > 0 && x in old(table.contents) then Without(old(lru), old(table.contents)[x]) else old(lru);
              EvictedAsNeeded(base, old(mem), lru, usage, capacity)
      ensures Unaffected(old(holds), old(deleted), holds, deleted, Some(e))
      ensures Remapped(old(table.contents), table.contents, if capacity > 0 then Some(x) else None, deleted[|old(deleted)|..])
    {
      hide CacheOk, TableOk, DeletedOk, HandleTable.Valid, Unaffected, EvictedAsNeeded, GivenOk, GivenBefore, Remapped;
      e := Create(x, charge);
      ghost var base := lru;
      NothingEvicted(base, old(mem), usage, capacity);
      ghost var cached := if capacity > 0 then Some(x) else None;
      DeletedGrows(old(holds), old(deleted), holds, deleted, Some(e));
      JustInserted(old(table.contents), x, e, cached, deleted[|old(deleted)|..]);
      while usage > capacity && lru != []
        invariant EvictedAsNeeded(base, old(mem), lru, usage, capacity) && SameCharges(old(mem), mem, lru)
        invariant Valid() && e in holds && holds[e] == 1 && Unaffected(old(holds), old(deleted), holds, deleted, Some(e))
        invariant capacity > 0 ==> x in table.contents && table.contents[x] == e
        invariant given == old(given)[e := Entry(x, charge)] && |old(deleted)| <= |deleted|
        invariant Remapped(old(table.contents), table.contents, cached, deleted[|old(deleted)|..])
        decreases |lru|
      {
        NotIdle(mem, lru, inUse, usage, holds, e);
        ghost var h, d, o, before := holds, deleted, lru[0], table.contents;
        OneMoreEvicted(base, old(mem), lru, usage, capacity);
        EvictOldest();
        UnaffectedByEviction(old(holds), old(deleted), h, d, Some(e), o);
        ghost var y :| y in before && before[y] == o && table.contents == before - {y};
        RemappedByEviction(old(table.contents), before, cached, d, |old(deleted)|, y, o);
      }
      HoldsSame(mem, lru, inUse, usage, holds);
      GivenIs(mem, given, e);
    }

    /** Drops every entry no client holds. */
    method Prune()
      requires Valid()
      modifies this`lru, this`inUse, this`usage, this`mem, this`holds, this`deleted, table
      ensures Valid() && lru == [] && inUse == old(inUse) && Unaffected(old(holds), old(deleted), holds, deleted, None)
    {
      hide CacheOk, TableOk, DeletedOk, HandleTable.Valid, GivenOk, GivenBefore;
      while lru != []
        invariant Valid() && inUse == old(inUse) && Unaffected(old(holds), old(deleted), holds, deleted, None)
        decreases |lru|
      {
        ghost var h, d, x := holds, deleted, lru[0];
        EvictOldest();
        UnaffectedByEviction(old(holds), old(deleted), h, d, None, x);
      }
    }
  }

  lemma JustInserted(before: map<Ident, Id>, x: Ident, e: Id, cached: Option<Ident>, gone: seq<Id>)
    requires cached == Some(x) || cached == None
    ensures Remapped(before, if cached.Some? then before[x := e] else before, cached, gone)
  {
  }

  lemma DeletedGrows(holds: map<Id, nat>, deleted: seq<Id>, holds': map<Id, nat>, deleted': seq<Id>, created: Option<Id>)
    requires Unaffected(holds, deleted, holds', deleted', created)
    ensures |deleted| <= |deleted'|
  {
  }

  /** An entry a client holds is not on the LRU list. */
  lemma NotIdle(mem: map<Id, Handle>, lru: seq<Id>, inUse: seq<Id>, usage: int, holds: map<Id, nat>, e: Id)
    requires CacheOk(mem, lru, inUse, usage, holds) && e in holds && holds[e] > 0
    ensures e !in lru
  {
  }

  lemma Listed(mem: map<Id, Handle>, contents: map<Ident, Id>, e: Id)
    requires TableOk(mem, contents, None) && e in mem && mem[e].inCache
    ensures mem[e].ident in contents && contents[mem[e].ident] == e
    ensures forall y :: y in contents && y != mem[e].ident ==> contents[y] != e
  {
  }

  lemma WithoutFirst(s: seq<Id>)
    requires s != []
    ensures Without(s, s[0]) == s[1..]
  {
  }

  /** A new entry, held by its creator, and by the cache as well if it is cached. */
  lemma Fresh(mem: map<Id, Handle>, lru: seq<Id>, inUse: seq<Id>, usage: int, holds: map<Id, nat>, deleted: seq<Id>, e: Id, h: Handle)
    requires CacheOk(mem, lru, inUse, usage, holds) && DeletedOk(mem, deleted, e)
    requires h.refs == if h.inCache then 2 else 1
    ensures e !in holds && DeletedOk(mem[e := h], deleted, e + 1)
    ensures CacheOk(mem[e := h], lru, if h.inCache then inUse + [e] else inUse, usage + (if h.inCache then h.charge else 0), holds[e := 1])
  {
    hide Charges;
    var mem' := mem[e := h];
    ChargesSame(mem, mem', lru);
    ChargesSame(mem, mem', inUse);
    AppendHas(inUse, e);
    ChargesAppend(mem', inUse, e);
  }

  /** Mapping it pushes out the entry that had its key. */
  lemma FreshMapped(mem: map<Id, Handle>, contents: map<Ident, Id>, e: Id, h: Handle)
    requires TableOk(mem, contents, None) && e !in mem
    ensures h.inCache ==>
              && TableOk(mem[e := h], contents[h.ident := e], if h.ident in contents then Some(contents[h.ident]) else None)
              && (h.ident in contents ==> contents[h.ident] in mem && mem[contents[h.ident]].inCache && contents[h.ident] != e)
    ensures !h.inCache ==> TableOk(mem[e := h], contents, None)
  {
  }

  lemma RefsSame(mem: map<Id, Handle>, lru: seq<Id>, inUse: seq<Id>, usage: int, holds: map<Id, nat>)
    requires CacheOk(mem, lru, inUse, usage, holds)
    ensures RefsOk(mem, holds) && ListsOk(mem, lru, inUse)
  {
  }

  /** Idle entries are allocated and held by no one. */
  lemma IdleOnes(mem: map<Id, Handle>, lru: seq<Id>, inUse: seq<Id>, usage: int, holds: map<Id, nat>)
    requires CacheOk(mem, lru, inUse, usage, holds)
    ensures forall x :: x in lru ==> x in mem && x in holds && holds[x] == 0
  {
  }

  lemma HoldsSame(mem: map<Id, Handle>, lru: seq<Id>, inUse: seq<Id>, usage: int, holds: map<Id, nat>)
    requires CacheOk(mem, lru, inUse, usage, holds)
    ensures mem.Keys == holds.Keys
  {
  }

  /** Changing a reference count touches neither the table nor the deletions. */
  lemma CountChanged(mem: map<Id, Handle>, contents: map<Ident, Id>, deleted: seq<Id>, nextId: Id, e: Id, refs: nat)
    requires TableOk(mem, contents, None) && DeletedOk(mem, deleted, nextId) && e in mem
    ensures TableOk(mem[e := mem[e].(refs := refs)], contents, None) && DeletedOk(mem[e := mem[e].(refs := refs)], deleted, nextId)
  {
  }

  lemma Freed(mem: map<Id, Handle>, contents: map<Ident, Id>, e: Id)
    requires TableOk(mem, contents, None) && e in mem && !mem[e].inCache
    ensures TableOk(mem - {e}, contents, None)
  {
  }

  lemma Left(mem: map<Id, Handle>, contents: map<Ident, Id>, deleted: seq<Id>, nextId: Id, e: Id, refs: nat)
    requires TableOk(mem, contents, Some(e)) && DeletedOk(mem, deleted, nextId) && e in mem
    ensures TableOk(mem - {e}, contents, None)
    ensures TableOk(mem[e := mem[e].(refs := refs, inCache := false)], contents, None)
    ensures DeletedOk(mem[e := mem[e].(refs := refs, inCache := false)], deleted, nextId)
  {
  }

  lemma DeleteOnce(mem: map<Id, Handle>, deleted: seq<Id>, nextId: Id, e: Id)
    requires DeletedOk(mem, deleted, nextId) && e in mem
    ensures DeletedOk(mem - {e}, deleted + [e], nextId)
  {
    AppendHas(deleted, e);
  }

  lemma TableLeaves(mem: map<Id, Handle>, contents: map<Ident, Id>, x: Ident)
    requires TableOk(mem, contents, None)
    ensures TableOk(mem, contents - {x}, if x in contents then Some(contents[x]) else None)
    ensures x in contents ==> contents[x] in mem && mem[contents[x]].inCache
  {
  }
}
