/**
Table files: table_builder.cc cuts sorted entries into blocks and gives each an index key,
possibly shortened; table.cc looks a key up by reading one block only.
*/
module Table {
  import opened Common
  import opened Format
  import opened Runs
  import opened TwoLevel
  import M = Merger

  /**
  The user comparator's FindShortestSeparator and FindShortSuccessor: the key produced, and
  whether it is physically shorter than the one given.
  */
  datatype Shortener = Shortener(
    separator: (UserKey, UserKey) -> (UserKey, bool),
    successor: UserKey -> (UserKey, bool))

  /**
  A shorter, larger separator stays below the limit. This goes beyond the documented contract
  in one case: two versions of one user key make `a == b`, and then no larger key will do.
  */
  ghost predicate SeparatorOk(c: Shortener) {
    forall a, b :: a <= b && c.separator(a, b).1 && a < c.separator(a, b).0 ==> c.separator(a, b).0 < b
  }

  /** InternalKeyComparator::FindShortestSeparator. */
  function Separate(c: Shortener, start: IKey, limit: IKey): IKey {
    var (tmp, shorter) := c.separator(start.user, limit.user);
    if shorter && start.user < tmp then IKey(tmp, MAX_SEQUENCE, Value) else start
  }

  /** InternalKeyComparator::FindShortSuccessor. */
  function Succeed(c: Shortener, key: IKey): IKey {
    var (tmp, shorter) := c.successor(key.user);
    if shorter && key.user < tmp then IKey(tmp, MAX_SEQUENCE, Value) else key
  }

  /** The index key of a block ending in `last`, when the next block begins with `next`. */
  ghost predicate Divides(sep: IKey, last: IKey, next: IKey) {
    AtMost(last, sep) && Less(sep, next) && (sep == last || sep.user < next.user)
  }

  lemma SeparateDivides(c: Shortener, start: IKey, limit: IKey)
    requires SeparatorOk(c) && Less(start, limit)
    ensures Divides(Separate(c, start, limit), start, limit)
  {
  }

  /** The condition on the user comparator is exactly what dividing neighbouring internal keys takes. */
  lemma SeparatorOkIff(c: Shortener)
    ensures SeparatorOk(c) <==> forall start, limit :: Less(start, limit) ==> Divides(Separate(c, start, limit), start, limit)
  {
    if SeparatorOk(c) {
      forall start, limit | Less(start, limit) ensures Divides(Separate(c, start, limit), start, limit) {
        SeparateDivides(c, start, limit);
      }
    } else {
      var a, b :| a <= b && c.separator(a, b).1 && a < c.separator(a, b).0 && c.separator(a, b).0 >= b;
      var start, limit := IKey(a, 2, Value), IKey(b, 1, Value);
      assert Less(start, limit) && !Divides(Separate(c, start, limit), start, limit);
    }
  }

  // ----- a finished table -----

  datatype Table = Table(blocks: seq<seq<Entry>>, index: seq<IKey>)

  function LastKey(es: seq<Entry>): IKey
    requires es != []
  {
    es[|es| - 1].key
  }

  ghost predicate BlocksOk(blocks: seq<seq<Entry>>) {
    StrictlySorted(Flatten(blocks)) && forall i :: 0 <= i < |blocks| ==> blocks[i] != []
  }

  /** Index keys below n divide their block from the next. */
  ghost predicate Indexed(blocks: seq<seq<Entry>>, index: seq<IKey>, n: nat)
    requires forall i :: 0 <= i < |blocks| ==> blocks[i] != []
  {
    && n <= |index| && n < |blocks|
    && forall i {:trigger index[i]} :: 0 <= i < n ==> Divides(index[i], LastKey(blocks[i]), blocks[i + 1][0].key)
  }

  ghost predicate TableOk(t: Table) {
    && BlocksOk(t.blocks) && |t.index| == |t.blocks|
    && (t.blocks != [] ==>
          && Indexed(t.blocks, t.index, |t.blocks| - 1)
          && AtMost(LastKey(t.blocks[|t.blocks| - 1]), t.index[|t.blocks| - 1]))
  }

  ghost function Entries(t: Table): seq<Entry> {
    Flatten(t.blocks)
  }

  // ----- building -----

  class TableBuilder {
    const shortener: Shortener
    var blocks: seq<seq<Entry>>
    var index: seq<IKey>
    var data: seq<Entry>
    var lastKey: Option<IKey>
    var pendingIndexEntry: bool
    var closed: bool

    /** Everything added so far, in order. */
    ghost function Added(): seq<Entry>
      reads this
    {
      Flatten(blocks + [data])
    }

    ghost predicate Valid()
      reads this
    {
      && SeparatorOk(shortener)
      && (forall i :: 0 <= i < |blocks| ==> blocks[i] != []) && StrictlySorted(Added())
      && (pendingIndexEntry ==> data == [] && blocks != [] && |index| == |blocks| - 1)
      && (!pendingIndexEntry ==> |index| == |blocks|)
      && (blocks != [] ==> Indexed(blocks, index, |blocks| - 1))
      && (blocks != [] && !pendingIndexEntry ==>
            data != [] && Divides(index[|blocks| - 1], LastKey(blocks[|blocks| - 1]), data[0].key))
      && (Added() == [] <==> lastKey.None?)
      && (Added() != [] ==> lastKey == Some(LastKey(Added())))
    }

    constructor (c: Shortener)
      requires SeparatorOk(c)
      ensures Valid() && !closed && Added() == []
    {
      hide SeparatorOk, Flatten;
      shortener, blocks, index, data, lastKey := c, [], [], [], None;
      pendingIndexEntry, closed := false, false;
      NothingAdded();
    }

    /** `full` is the block-size test. */
    method Add(e: Entry, full: bool)
      requires Valid() && !closed && (lastKey.Some? ==> Less(lastKey.value, e.key))
      modifies this
      ensures Valid() && !closed && Added() == old(Added()) + [e]
    {
      hide Flatten, Divides, SeparatorOk, Separate, Less, StrictlySorted;
      if pendingIndexEntry {
        PendingLast(blocks, data);
        SeparateDivides(shortener, lastKey.value, e.key);
        index := index + [Separate(shortener, lastKey.value, e.key)];
        pendingIndexEntry := false;
      }
      AddedMore(blocks, data, e);
      lastKey := Some(e.key);
      data := data + [e];
      if full {
        Flush();
      }
    }

    method Flush()
      requires Valid() && !closed
      modifies this
      ensures Valid() && !closed && Added() == old(Added()) && data == []
    {
      hide Flatten, Divides, SeparatorOk, Less, StrictlySorted;
      if data == [] {
        return;
      }
      FlushedSame(blocks, data);
      blocks, data := blocks + [data], [];
      pendingIndexEntry := true;
    }

    method Finish() returns (t: Table)
      requires Valid() && !closed
      modifies this
      ensures closed && TableOk(t) && Entries(t) == old(Added())
    {
      hide Flatten, Divides, SeparatorOk, StrictlySorted;
      Flush();
      closed := true;
      PendingLast(blocks, data);
      if pendingIndexEntry {
        index := index + [Succeed(shortener, lastKey.value)];
        pendingIndexEntry := false;
      }
      t := Table(blocks, index);
    }
  }

  lemma NothingAdded()
    ensures Flatten([] + [[]]) == []
  {
    PendingLast([], []);
    assert Flatten([]) == [];
  }

  lemma PendingLast(blocks: seq<seq<Entry>>, data: seq<Entry>)
    requires data == []
    ensures Flatten(blocks + [data]) == Flatten(blocks)
    ensures blocks != [] && blocks[|blocks| - 1] != [] ==> Flatten(blocks) != [] && LastKey(Flatten(blocks)) == LastKey(blocks[|blocks| - 1])
  {
    assert (blocks + [data])[..|blocks|] == blocks;
  }

  lemma AddedMore(blocks: seq<seq<Entry>>, data: seq<Entry>, e: Entry)
    requires StrictlySorted(Flatten(blocks + [data]))
    requires Flatten(blocks + [data]) != [] ==> Less(LastKey(Flatten(blocks + [data])), e.key)
    ensures Flatten(blocks + [data + [e]]) == Flatten(blocks + [data]) + [e] && StrictlySorted(Flatten(blocks + [data + [e]]))
  {
    assert (blocks + [data])[..|blocks|] == blocks && (blocks + [data + [e]])[..|blocks|] == blocks;
    assert Flatten(blocks) + (data + [e]) == Flatten(blocks) + data + [e];
  }

  lemma FlushedSame(blocks: seq<seq<Entry>>, data: seq<Entry>)
    ensures Flatten(blocks + [data] + [[]]) == Flatten(blocks + [data])
  {
    assert (blocks + [data] + [[]])[..|blocks| + 1] == blocks + [data];
  }

  // ----- looking up one key -----

  /** Every entry lies at or before its block's index key. */
  lemma EntryUnderIndex(t: Table, b: nat, q: nat)
    requires TableOk(t) && b < |t.blocks| && q < |t.blocks[b]|
    ensures AtMost(t.blocks[b][q].key, t.index[b])
  {
    hide Flatten, StrictlySorted;
    var last := |t.blocks[b]| - 1;
    RunEntriesOrdered(t.blocks, b, q, b, last);
    assert b < |t.blocks| - 1 ==> Divides(t.index[b], LastKey(t.blocks[b]), t.blocks[b + 1][0].key);
  }

  /** Entries of the blocks before i, and of block i before p, come before `k`. */
  lemma AllBefore(t: Table, k: IKey, i: nat, p: nat)
    requires TableOk(t) && i <= |t.blocks| && (forall b :: 0 <= b < i ==> Less(t.index[b], k))
    requires if i < |t.blocks| then p <= |t.blocks[i]| && forall q :: 0 <= q < p ==> Less(t.blocks[i][q].key, k) else p == 0
    ensures Offset(t.blocks, i) + p <= |Entries(t)|
    ensures forall j :: 0 <= j < Offset(t.blocks, i) + p ==> Less(Entries(t)[j].key, k)
  {
    hide Flatten, StrictlySorted, Offset, Less, BlocksOk, TableOk;
    OffsetLength(t.blocks);
    if i < |t.blocks| { OffsetGrows(t.blocks, i, |t.blocks|); }
    forall j | 0 <= j < Offset(t.blocks, i) + p ensures Less(Entries(t)[j].key, k) {
      if j < Offset(t.blocks, i) {
        EarlierBlock(t, k, i, j);
      } else {
        FlattenAt(t.blocks, i, j - Offset(t.blocks, i));
      }
    }
  }

  lemma EarlierBlock(t: Table, k: IKey, i: nat, j: nat)
    requires TableOk(t) && i <= |t.blocks| && (forall b :: 0 <= b < i ==> Less(t.index[b], k)) && j < Offset(t.blocks, i)
    ensures j < |Entries(t)| && Less(Entries(t)[j].key, k)
  {
    hide Flatten, StrictlySorted, Offset, Indexed;
    var b, q := FindRun(t.blocks, i, j);
    FlattenAt(t.blocks, b, q);
    EntryUnderIndex(t, b, q);
  }

  /** What the one block says about the whole table. */
  lemma OneBlockSuffices(t: Table, k: IKey)
    requires TableOk(t)
    ensures
      var i, all := FirstIndex(t.index, k), Entries(t);
      var first := FirstAtOrAfter(all, k);
      if i == |t.index| then first == |all|
      else
        var p := FirstAtOrAfter(t.blocks[i], k);
        if p < |t.blocks[i]| then first < |all| && all[first] == t.blocks[i][p]
        else first < |all| ==> all[first].key.user != k.user
  {
    hide Flatten, StrictlySorted, FirstAtOrAfter, FirstIndex, Divides;
    var i, all := FirstIndex(t.index, k), Entries(t);
    OffsetLength(t.blocks);
    if i == |t.index| {
      AllBefore(t, k, i, 0);
      M.FirstIs(all, k, |all|);
    } else {
      var p := FirstAtOrAfter(t.blocks[i], k);
      AllBefore(t, k, i, p);
      if p < |t.blocks[i]| {
        FlattenAt(t.blocks, i, p);
        M.FirstIs(all, k, Offset(t.blocks, i) + p);
      } else {
        PastBlock(t, k, i);
      }
    }
  }

  /** The chosen block has nothing at or after `k`: then the next block starts with a later user key. */
  lemma PastBlock(t: Table, k: IKey, i: nat)
    requires TableOk(t) && i < |t.blocks| && AtMost(k, t.index[i]) && Less(LastKey(t.blocks[i]), k)
    requires Offset(t.blocks, i) + |t.blocks[i]| <= |Entries(t)|
    requires forall j :: 0 <= j < Offset(t.blocks, i) + |t.blocks[i]| ==> Less(Entries(t)[j].key, k)
    ensures var first := FirstAtOrAfter(Entries(t), k); first < |Entries(t)| ==> Entries(t)[first].key.user != k.user
  {
    hide Flatten, StrictlySorted, FirstAtOrAfter;
    var all, p := Entries(t), |t.blocks[i]|;
    OffsetLength(t.blocks);
    if i + 1 < |t.blocks| {
      FlattenAt(t.blocks, i + 1, 0);
      assert Divides(t.index[i], LastKey(t.blocks[i]), t.blocks[i + 1][0].key);
      M.FirstIs(all, k, Offset(t.blocks, i) + p);
    } else {
      M.FirstIs(all, k, |all|);
    }
  }

  /** A filter may say "no" only for user keys that are not in the block. */
  ghost predicate FilterOk(t: Table, mayMatch: (nat, UserKey) -> bool) {
    forall b, q :: 0 <= b < |t.blocks| && 0 <= q < |t.blocks[b]| ==> mayMatch(b, t.blocks[b][q].key.user)
  }

  /** Table::InternalGet: one index seek, the filter, one block seek. */
  method InternalGet(t: Table, k: IKey, mayMatch: (nat, UserKey) -> bool) returns (r: Option<Entry>)
    requires TableOk(t) && FilterOk(t, mayMatch)
    ensures
      var first := FirstAtOrAfter(Entries(t), k);
      && (r.Some? ==> first < |Entries(t)| && r.value == Entries(t)[first])
      && (r.None? && first < |Entries(t)| ==> Entries(t)[first].key.user != k.user)
  {
    hide Flatten, StrictlySorted, FirstAtOrAfter, FirstIndex;
    OneBlockSuffices(t, k);
    var i := FirstIndex(t.index, k);
    if i == |t.index| || !mayMatch(i, k.user) {
      return None;
    }
    var p := FirstAtOrAfter(t.blocks[i], k);
    r := if p < |t.blocks[i]| then Some(t.blocks[i][p]) else None;
  }

  /** With the user-key test of the caller, a table lookup is a lookup in all its entries. */
  method Lookup(t: Table, u: UserKey, s: nat, mayMatch: (nat, UserKey) -> bool) returns (r: Found)
    requires TableOk(t) && FilterOk(t, mayMatch)
    ensures r == SeekIn(Entries(t), u, s)
  {
    var e := InternalGet(t, SeekKey(u, s), mayMatch);
    r := if e.Some? && e.value.key.user == u then Hit(e.value) else NotHere;
  }

  /** A finished table can be walked by a two-level iterator. */
  lemma TableIsSeparated(t: Table)
    requires TableOk(t)
    ensures Separated(t.index, t.blocks)
  {
    hide Flatten, StrictlySorted;
    forall b, e | 0 <= b < |t.blocks| && e in t.blocks[b] ensures AtMost(e.key, t.index[b]) {
      var q :| 0 <= q < |t.blocks[b]| && t.blocks[b][q] == e;
      EntryUnderIndex(t, b, q);
    }
    forall b, c, e | 0 <= b < c < |t.blocks| && e in t.blocks[c] ensures Less(t.index[b], e.key) {
      var q :| 0 <= q < |t.blocks[c]| && t.blocks[c][q] == e;
      assert Divides(t.index[b], LastKey(t.blocks[b]), t.blocks[b + 1][0].key);
      RunEntriesOrdered(t.blocks, b + 1, 0, c, q);
    }
  }
}
