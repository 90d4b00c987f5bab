/** The chained hash table of util/cache.cc: a map from (key, hash) to handles, through resizing. */
module HandleTable {
  import opened Common

  type Key = seq<int>
  type Id = nat

  /** Entries are told apart by hash and key. */
  datatype Ident = Ident(key: Key, hash: nat)

  datatype Slot = Slot(ident: Ident, id: Id)

  ghost predicate PowerOfTwo(n: nat) {
    n == 1 || (n % 2 == 0 && n > 0 && PowerOfTwo(n / 2))
  }

  /** Position of the slot with this identity, or the length. */
  function FindSlot(chain: seq<Slot>, x: Ident): (i: nat)
    ensures i <= |chain|
    ensures forall j :: 0 <= j < i ==> chain[j].ident != x
    ensures i < |chain| ==> chain[i].ident == x
  {
    if chain == [] || chain[0].ident == x then 0 else 1 + FindSlot(chain[1..], x)
  }

  ghost predicate UniqueSlots(chain: seq<Slot>) {
    forall i, j :: 0 <= i < j < |chain| ==> chain[i].ident != chain[j].ident
  }

  ghost predicate ChainOk(list: seq<seq<Slot>>, b: nat)
    requires b < |list|
  {
    UniqueSlots(list[b]) && forall s :: s in list[b] ==> s.ident.hash % |list| == b
  }

  ghost predicate ListOk(list: seq<seq<Slot>>) {
    |list| > 0 && forall b :: 0 <= b < |list| ==> ChainOk(list, b)
  }

  ghost predicate Has(list: seq<seq<Slot>>, s: Slot)
    requires |list| > 0
  {
    s in list[s.ident.hash % |list|]
  }

  ghost predicate Maps(m: map<Ident, Id>, s: Slot) {
    s.ident in m && m[s.ident] == s.id
  }

  /** The chains hold exactly the pairs of the map. */
  ghost predicate Refines(list: seq<seq<Slot>>, m: map<Ident, Id>) {
    |list| > 0 && forall s :: Has(list, s) <==> Maps(m, s)
  }

  /** One chain replaced, and the map changed to match. */
  lemma ChainReplaced(list: seq<seq<Slot>>, m: map<Ident, Id>, b: nat, c: seq<Slot>, m': map<Ident, Id>)
    requires ListOk(list) && Refines(list, m) && b < |list| && UniqueSlots(c)
    requires forall s :: s in c ==> s.ident.hash % |list| == b
    requires forall s :: Maps(m', s) <==> if s.ident.hash % |list| == b then s in c else Maps(m, s)
    ensures ListOk(list[b := c]) && Refines(list[b := c], m')
  {
    var list' := list[b := c];
    forall k | 0 <= k < |list'| ensures ChainOk(list', k) { assert ChainOk(list, k); }
    forall s ensures Has(list', s) <==> Maps(m', s) { assert Has(list, s) <==> Maps(m, s); }
  }

  function Size(list: seq<seq<Slot>>): nat {
    if list == [] then 0 else Size(list[..|list| - 1]) + |list[|list| - 1]|
  }

  lemma {:induction false} SizeUpdate(list: seq<seq<Slot>>, b: nat, chain: seq<Slot>)
    requires b < |list|
    ensures Size(list[b := chain]) == Size(list) - |list[b]| + |chain|
  {
    var n := |list| - 1;
    if b == n {
      assert list[b := chain][..n] == list[..n];
    } else {
      SizeUpdate(list[..n], b, chain);
      assert list[b := chain][..n] == list[..n][b := chain];
    }
  }

  lemma {:induction false} SizeEmpty(n: nat, list: seq<seq<Slot>>)
    requires list == seq(n, _ => [])
    ensures Size(list) == 0
  {
    if n > 0 {
      assert list[..n - 1] == seq(n - 1, _ => []);
      SizeEmpty(n - 1, list[..n - 1]);
    }
  }

  /** Chains are searched by identity; at most one slot can match. */
  lemma LookupInChain(list: seq<seq<Slot>>, m: map<Ident, Id>, x: Ident)
    requires ListOk(list) && Refines(list, m)
    ensures var c := list[x.hash % |list|]; var i := FindSlot(c, x); if i < |c| then x in m && c[i].id == m[x] else x !in m
  {
    var c := list[x.hash % |list|];
    var i := FindSlot(c, x);
    if i < |c| {
      assert Has(list, c[i]) && Maps(m, c[i]);
    }
    if x in m {
      assert Maps(m, Slot(x, m[x])) && Has(list, Slot(x, m[x]));
    }
  }

  class HandleTable {
    var elems: nat
    var list: seq<seq<Slot>>
    ghost var contents: map<Ident, Id>

    /** Chains hold on average at most one entry. */
    ghost predicate Valid()
      reads this
    {
      Refining() && elems <= |list|
    }

    ghost predicate Refining()
      reads this
    {
      && ListOk(list) && Refines(list, contents) && PowerOfTwo(|list|) && |list| >= 4
      && elems == Size(list)
    }

    constructor ()
      ensures Valid() && contents == map[]
    {
      elems, list, contents := 0, seq(4, _ => []), map[];
      new;
      SizeEmpty(4, list);
      assert PowerOfTwo(1) && PowerOfTwo(2) && PowerOfTwo(4);
    }

    method Lookup(x: Ident) returns (r: Option<Id>)
      requires Valid()
      ensures r == if x in contents then Some(contents[x]) else None
    {
      LookupInChain(list, contents, x);
      var c := list[x.hash % |list|];
      var i := FindSlot(c, x);
      r := if i < |c| then Some(c[i].id) else None;
    }

    method Remove(x: Ident) returns (r: Option<Id>)
      requires Valid()
      modifies this
      ensures Valid() && contents == old(contents) - {x}
      ensures r == if x in old(contents) then Some(old(contents)[x]) else None
    {
      LookupInChain(list, contents, x);
      var b := x.hash % |list|;
      var c := list[b];
      var i := FindSlot(c, x);
      if i == |c| {
        return None;
      }
      r := Some(c[i].id);
      var c' := c[..i] + c[i + 1..];
      SizeUpdate(list, b, c');
      ChainWithout(list, contents, x, b, i, c');
      elems := elems - 1;
      list := list[b := c'];
      contents := contents - {x};
    }

    /** Puts the slot in place of one with the same identity, or at the end of its chain. */
    method Insert(slot: Slot) returns (old_: Option<Id>)
      requires Valid()
      modifies this
      ensures Valid() && contents == old(contents)[slot.ident := slot.id]
      ensures old_ == if slot.ident in old(contents) then Some(old(contents)[slot.ident]) else None
    {
      LookupInChain(list, contents, slot.ident);
      var b := slot.ident.hash % |list|;
      var c := list[b];
      var i := FindSlot(c, slot.ident);
      var c' := if i < |c| then c[i := slot] else c + [slot];
      SizeUpdate(list, b, c');
      ChainWith(list, contents, slot, b, i, c');
      old_ := if i < |c| then Some(c[i].id) else None;
      list := list[b := c'];
      contents := contents[slot.ident := slot.id];
      if old_.None? {
        elems := elems + 1;
        if elems > |list| {
          Resize();
        }
      }
    }

    /** Moves every slot to a table with at least as many chains as there are slots. */
    method Resize()
      requires Refining()
      modifies this
      ensures Valid() && contents == old(contents) && elems == old(elems)
    {
      hide Size, Refines, ListOk, Moved;
      var newLength := TableLength(elems);
      var newList := Rehash(list, newLength);
      AllMoved(list, newList, contents);
      list := newList;
    }
  }

  /** The least power of two, from 4 on, that is enough for n slots. */
  method TableLength(n: nat) returns (length: nat)
    ensures length >= 4 && length >= n && PowerOfTwo(length) && (length > 4 ==> length / 2 < n)
  {
    length := 4;
    assert PowerOfTwo(1) && PowerOfTwo(2) && PowerOfTwo(4);
    while length < n
      invariant length >= 4 && PowerOfTwo(length) && (length > 4 ==> length / 2 < n)
      decreases n - length
    {
      length := length * 2;
    }
  }

  /** Pushes every slot onto the front of its chain in a new table. */
  method Rehash(from: seq<seq<Slot>>, newLength: nat) returns (newList: seq<seq<Slot>>)
    requires ListOk(from) && newLength > 0
    ensures |newList| == newLength && ListOk(newList) && Moved(from, newList, |from|, 0) && Size(newList) == Size(from)
  {
    hide Size, Moved, ChainOk;
    newList := seq(newLength, _ => []);
    SizeEmpty(newLength, newList);
    NoneMoved(from, newList);
    for i := 0 to |from|
      invariant |newList| == newLength && ListOk(newList) && Moved(from, newList, i, 0) && Size(newList) == Size(from[..i])
    {
      var chain := from[i];
      for j := 0 to |chain|
        invariant |newList| == newLength && ListOk(newList) && Moved(from, newList, i, j) && Size(newList) == Size(from[..i]) + j
      {
        var b := chain[j].ident.hash % newLength;
        SizeUpdate(newList, b, [chain[j]] + newList[b]);
        MoveOne(from, newList, i, j, b);
        newList := newList[b := [chain[j]] + newList[b]];
      }
      NextChain(from, newList, i);
    }
    assert from[..|from|] == from;
  }

  /** The slots of the first i chains, and the first j of chain i, are in the new table and nothing else is. */
  ghost predicate Moved(list: seq<seq<Slot>>, newList: seq<seq<Slot>>, i: nat, j: nat) {
    && |list| > 0 && |newList| > 0
    && forall s :: Has(newList, s) <==> Done(list, s, i, j)
  }

  ghost predicate Done(list: seq<seq<Slot>>, s: Slot, i: nat, j: nat)
    requires |list| > 0
  {
    var b := s.ident.hash % |list|;
    (b < i && s in list[b]) || (b == i && j <= |list[b]| && s in list[b][..j])
  }

  lemma NoneMoved(list: seq<seq<Slot>>, newList: seq<seq<Slot>>)
    requires |list| > 0 && |newList| > 0 && forall b :: 0 <= b < |newList| ==> newList[b] == []
    ensures ListOk(newList) && Moved(list, newList, 0, 0) && Size(list[..0]) == 0
  {
    forall b | 0 <= b < |newList| ensures ChainOk(newList, b) {}
  }

  lemma MoveOne(list: seq<seq<Slot>>, newList: seq<seq<Slot>>, i: nat, j: nat, b: nat)
    requires ListOk(list) && ListOk(newList) && Moved(list, newList, i, j) && i < |list| && j < |list[i]|
    requires b == list[i][j].ident.hash % |newList|
    ensures ListOk(newList[b := [list[i][j]] + newList[b]]) && Moved(list, newList[b := [list[i][j]] + newList[b]], i, j + 1)
  {
    var x, c := list[i][j], newList[b];
    var c' := [x] + c;
    var newList' := newList[b := c'];
    assert ChainOk(list, i) && ChainOk(newList, b);
    assert x in list[i] && x.ident.hash % |list| == i;
    forall s | s in c ensures s.ident != x.ident {
      assert s.ident.hash % |newList| == b;
      assert Has(newList, s) && Done(list, s, i, j);
      if s.ident.hash % |list| == i {
        var k :| 0 <= k < j && list[i][k] == s;
        assert list[i][k].ident != list[i][j].ident;
      }
    }
    forall k | 0 <= k < |newList'| ensures ChainOk(newList', k) { assert ChainOk(newList, k); }
    forall s ensures Has(newList', s) <==> Done(list, s, i, j + 1) {
      assert Has(newList, s) <==> Done(list, s, i, j);
      assert list[i][..j + 1] == list[i][..j] + [x];
    }
  }

  lemma NextChain(list: seq<seq<Slot>>, newList: seq<seq<Slot>>, i: nat)
    requires i < |list| && Moved(list, newList, i, |list[i]|)
    ensures Moved(list, newList, i + 1, 0) && Size(list[..i + 1]) == Size(list[..i]) + |list[i]|
  {
    assert list[..i + 1][..i] == list[..i];
    assert list[i][..|list[i]|] == list[i];
    forall s ensures Has(newList, s) <==> Done(list, s, i + 1, 0) {
      assert Has(newList, s) <==> Done(list, s, i, |list[i]|);
    }
  }

  lemma AllMoved(list: seq<seq<Slot>>, newList: seq<seq<Slot>>, m: map<Ident, Id>)
    requires Refines(list, m) && Moved(list, newList, |list|, 0)
    ensures Refines(newList, m)
  {
    forall s ensures Has(newList, s) <==> Maps(m, s) {
      assert Has(newList, s) <==> Done(list, s, |list|, 0);
      assert Has(list, s) <==> Maps(m, s);
    }
  }

  lemma ChainWith(list: seq<seq<Slot>>, m: map<Ident, Id>, slot: Slot, b: nat, i: nat, c': seq<Slot>)
    requires ListOk(list) && Refines(list, m) && b == slot.ident.hash % |list| && i == FindSlot(list[b], slot.ident)
    requires c' == if i < |list[b]| then list[b][i := slot] else list[b] + [slot]
    ensures ListOk(list[b := c']) && Refines(list[b := c'], m[slot.ident := slot.id])
  {
    var c := list[b];
    assert ChainOk(list, b);
    SlotsWith(c, slot, i, c');
    hide FindSlot;
    forall s ensures Maps(m[slot.ident := slot.id], s) <==> if s.ident.hash % |list| == b then s in c' else Maps(m, s) {
      assert Has(list, s) <==> Maps(m, s);
    }
    ChainReplaced(list, m, b, c', m[slot.ident := slot.id]);
  }

  lemma SlotsWith(c: seq<Slot>, slot: Slot, i: nat, c': seq<Slot>)
    requires UniqueSlots(c) && i == FindSlot(c, slot.ident)
    requires c' == if i < |c| then c[i := slot] else c + [slot]
    ensures UniqueSlots(c') && forall s :: s in c' <==> s == slot || (s in c && s.ident != slot.ident)
  {
    assert c'[i] == slot;
    forall s: Slot | s in c && s.ident != slot.ident ensures s in c' {
      var j :| 0 <= j < |c| && c[j] == s;
      assert c'[j] == s;
    }
  }

  lemma ChainWithout(list: seq<seq<Slot>>, m: map<Ident, Id>, x: Ident, b: nat, i: nat, c': seq<Slot>)
    requires ListOk(list) && Refines(list, m) && b == x.hash % |list| && i < |list[b]| && list[b][i].ident == x
    requires c' == list[b][..i] + list[b][i + 1..]
    ensures ListOk(list[b := c']) && Refines(list[b := c'], m - {x})
    ensures |list[b]| <= Size(list)
  {
    hide FindSlot;
    var c := list[b];
    assert ChainOk(list, b);
    SlotsWithout(c, i, c');
    forall s ensures Maps(m - {x}, s) <==> if s.ident.hash % |list| == b then s in c' else Maps(m, s) {
      assert Has(list, s) <==> Maps(m, s);
    }
    SizeUpdate(list, b, []);
    ChainReplaced(list, m, b, c', m - {x});
  }

  lemma SlotsWithout(c: seq<Slot>, i: nat, c': seq<Slot>)
    requires UniqueSlots(c) && i < |c| && c' == c[..i] + c[i + 1..]
    ensures UniqueSlots(c') && forall s :: s in c' <==> s in c && s.ident != c[i].ident
  {
    assert forall j :: 0 <= j < |c'| ==> c'[j] == if j < i then c[j] else c[j + 1];
    forall s: Slot ensures s in c' <==> s in c && s.ident != c[i].ident {
      if s in c && s.ident != c[i].ident {
        var j :| 0 <= j < |c| && c[j] == s;
        assert c'[if j < i then j else j - 1] == s;
      }
      if s in c' {
        var j :| 0 <= j < |c'| && c'[j] == s;
      }
    }
  }
}
