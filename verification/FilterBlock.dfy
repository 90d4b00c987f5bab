/**
table/filter_block.cc: one filter per 2 KB of data-block offsets, written as the table is built
and consulted by block offset.
*/
module FilterBlock {
  import opened Crc
  import opened Coding
  import opened Bloom

  type Key = seq<Byte>

  const BASE_LG: Byte := 11
  const BASE: nat := 2048

  function HashAll(hash: Key -> nat, keys: seq<Key>): seq<nat> {
    seq(|keys|, i requires 0 <= i < |keys| => hash(keys[i]))
  }

  /** Where slot i's filter ends. */
  function SlotEnd(offsets: seq<nat>, size: nat, i: nat): nat
    requires i < |offsets|
  {
    if i + 1 < |offsets| then offsets[i + 1] else size
  }

  /** The filter of slot i recalls the keys of slot i. */
  ghost predicate SlotOk(hash: Key -> nat, result: seq<Byte>, offsets: seq<nat>, slots: seq<seq<Key>>, i: nat)
    requires i < |offsets| == |slots|
  {
    && offsets[i] <= SlotEnd(offsets, |result|, i) <= |result|
    && (slots[i] != [] ==> Recalls(result[offsets[i]..SlotEnd(offsets, |result|, i)], HashAll(hash, slots[i])))
  }

  ghost predicate SlotsOk(hash: Key -> nat, result: seq<Byte>, offsets: seq<nat>, slots: seq<seq<Key>>) {
    |offsets| == |slots| && forall i :: 0 <= i < |offsets| ==> SlotOk(hash, result, offsets, slots, i)
  }

  lemma SlotSnoc(hash: Key -> nat, result: seq<Byte>, offsets: seq<nat>, slots: seq<seq<Key>>, keys: seq<Key>, filter: seq<Byte>)
    requires SlotsOk(hash, result, offsets, slots)
    requires keys != [] ==> Recalls(filter, HashAll(hash, keys))
    ensures SlotsOk(hash, result + filter, offsets + [|result|], slots + [keys])
  {
    hide Recalls, HashAll;
    var result', offsets', slots' := result + filter, offsets + [|result|], slots + [keys];
    forall i | 0 <= i < |offsets'| ensures SlotOk(hash, result', offsets', slots', i) {
      if i < |offsets| {
        assert SlotOk(hash, result, offsets, slots, i);
        var e := SlotEnd(offsets, |result|, i);
        assert SlotEnd(offsets', |result'|, i) == e;
        assert result'[offsets[i]..e] == result[offsets[i]..e];
      } else {
        assert result'[|result|..|result'|] == filter;
      }
    }
  }

  /** A key added for the data block at `offset`. */
  datatype Added = Added(offset: nat, key: Key)

  ghost predicate AllKept(added: set<Added>, slots: seq<seq<Key>>, pending: seq<Key>) {
    forall a :: a in added ==> Kept(a, slots, pending)
  }

  /** The key is in its slot, or waiting to be put there. */
  ghost predicate Kept(a: Added, slots: seq<seq<Key>>, pending: seq<Key>) {
    var i := a.offset / BASE;
    if i < |slots| then a.key in slots[i] else i == |slots| && a.key in pending
  }

  function End(keys: seq<Byte>, start: seq<nat>, i: nat): nat {
    if i + 1 < |start| then start[i + 1] else |keys|
  }

  /** `keys` holds the pending keys end to end, key i from start[i] on. */
  ghost predicate Flattened(keys: seq<Byte>, start: seq<nat>, pending: seq<Key>) {
    && |start| == |pending|
    && forall i :: 0 <= i < |start| ==> start[i] <= End(keys, start, i) <= |keys| && keys[start[i]..End(keys, start, i)] == pending[i]
  }

  lemma StartSize(keys: seq<Byte>, start: seq<nat>, pending: seq<Key>)
    requires Flattened(keys, start, pending)
    ensures |start| == |pending| && Flattened([], [], [])
  {
  }

  /** Cuts the keys apart again and hashes each. */
  method HashKeys(hash: Key -> nat, keys: seq<Byte>, start: seq<nat>, ghost pending: seq<Key>) returns (hashes: seq<nat>)
    requires Flattened(keys, start, pending)
    ensures hashes == HashAll(hash, pending)
  {
    hashes := [];
    for i := 0 to |start|
      invariant hashes == HashAll(hash, pending[..i])
    {
      hashes := hashes + [hash(keys[start[i]..End(keys, start, i)])];
    }
    assert pending[..|start|] == pending;
  }

  lemma FlattenedSnoc(keys: seq<Byte>, start: seq<nat>, pending: seq<Key>, key: Key)
    requires Flattened(keys, start, pending)
    ensures Flattened(keys + key, start + [|keys|], pending + [key])
  {
    var keys', start' := keys + key, start + [|keys|];
    forall i | 0 <= i < |start'|
      ensures start'[i] <= End(keys', start', i) <= |keys'| && keys'[start'[i]..End(keys', start', i)] == (pending + [key])[i]
    {
      if i < |start| {
        assert keys[start[i]..End(keys, start, i)] == pending[i];
        assert End(keys', start', i) == End(keys, start, i);
      }
    }
  }

  class FilterBlockBuilder {
    const hash: Key -> nat
    const bitsPerKey: nat
    const k: Byte
    /** The keys of the slot being filled, end to end, and where each starts. */
    var keys: seq<Byte>
    var start: seq<nat>
    var result: seq<Byte>
    var offsets: seq<nat>
    ghost var pending: seq<Key>
    ghost var slots: seq<seq<Key>>
    ghost var blockOffset: nat
    ghost var added: set<Added>

    ghost predicate Valid()
      reads this
    {
      Core() && blockOffset / BASE == |offsets|
    }

    /** Every key added is in its slot's filter, or waiting for it. */
    ghost predicate Core()
      reads this
    {
      Flattened(keys, start, pending) && SlotsOk(hash, result, offsets, slots) && AllKept(added, slots, pending)
    }

    constructor (hash: Key -> nat, bitsPerKey: nat, k: Byte)
      ensures Valid() && added == {} && blockOffset == 0 && this.hash == hash
    {
      this.hash, this.bitsPerKey, this.k := hash, bitsPerKey, k;
      keys, start, result, offsets := [], [], [], [];
      pending, slots, blockOffset, added := [], [], 0, {};
    }

    method AddKey(key: Key)
      requires Valid()
      modifies this
      ensures Valid() && added == old(added) + {Added(blockOffset, key)} && blockOffset == old(blockOffset)
    {
      hide SlotsOk, Flattened;
      FlattenedSnoc(keys, start, pending, key);
      start := start + [|keys|];
      keys := keys + key;
      pending, added := pending + [key], added + {Added(blockOffset, key)};
      SameSize(hash, result, offsets, slots);
    }

    /** Writes the filter of the current slot, empty if the slot has no keys. */
    method GenerateFilter()
      requires Core()
      modifies this
      ensures Core() && pending == [] && added == old(added) && blockOffset == old(blockOffset)
      ensures |offsets| == old(|offsets|) + 1
    {
      hide SlotsOk, Recalls, AllKept, Flattened, HashAll;
      StartSize(keys, start, pending);
      SameSize(hash, result, offsets, slots);
      AllMoved(added, slots, pending);
      var n := |start|;
      if n == 0 {
        SlotSnoc(hash, result, offsets, slots, pending, []);
        assert result + [] == result;
        offsets := offsets + [|result|];
        slots := slots + [pending];
        return;
      }
      var hashes := HashKeys(hash, keys, start, pending);
      var filter := CreateFilter(hashes, bitsPerKey, k);
      SlotSnoc(hash, result, offsets, slots, pending, filter);
      offsets := offsets + [|result|];
      result := result + filter;
      slots, pending := slots + [pending], [];
      keys, start := [], [];
    }

    method StartBlock(offset: nat)
      requires Valid() && offset / BASE >= |offsets|
      modifies this
      ensures Valid() && added == old(added) && blockOffset == offset
    {
      hide SlotsOk;
      while offset / BASE > |offsets|
        invariant Core() && offset / BASE >= |offsets| && added == old(added)
        decreases offset / BASE - |offsets|
      {
        GenerateFilter();
      }
      blockOffset := offset;
    }

    /** The finished filter block answers "may match" for every key at its block's offset. */
    method Finish() returns (contents: seq<Byte>)
      requires Valid()
      modifies this
      ensures added == old(added)
      ensures |contents| < TWO32 ==> forall a :: a in added ==> MayMatch(hash, contents, a.offset, a.key)
    {
      hide SlotsOk, MayMatch;
      if start != [] {
        GenerateFilter();
      }
      SameSize(hash, result, offsets, slots);
      var data, os := result, offsets;
      for i := 0 to |os|
        invariant result == data + FixedArray(os[..i])
        modifies this`result
      {
        FixedArraySnoc(os, i);
        result := result + FixedBytes(os[i] % TWO32);
      }
      assert os[..|os|] == os;
      result := result + FixedBytes(|data| % TWO32);
      result := result + [BASE_LG];
      contents := result;
      if |contents| < TWO32 {
        forall a | a in added ensures MayMatch(hash, contents, a.offset, a.key) {
          AddedMatches(hash, data, os, slots, contents, a);
        }
      }
    }
  }

  lemma AllMoved(added: set<Added>, slots: seq<seq<Key>>, pending: seq<Key>)
    requires AllKept(added, slots, pending)
    ensures AllKept(added, slots + [pending], [])
  {
    forall a | a in added ensures Kept(a, slots + [pending], []) {
      assert Kept(a, slots, pending);
    }
  }

  lemma SameSize(hash: Key -> nat, result: seq<Byte>, offsets: seq<nat>, slots: seq<seq<Key>>)
    requires SlotsOk(hash, result, offsets, slots)
    ensures |offsets| == |slots|
  {
  }

  // ----- reading -----

  /** KeyMayMatch as a function of the finished block. Anything malformed reads as a possible match. */
  ghost predicate MayMatch(hash: Key -> nat, contents: seq<Byte>, blockOffset: nat, key: Key) {
    var n := |contents|;
    n < 5 ||
    var table := FixedValue(contents[n - 5..n - 1]);
    table > n - 5 ||
    var index := blockOffset / Pow2(contents[n - 1]);
    index >= (n - 5 - table) / 4 ||
    var start := FixedValue(contents[table + index * 4..][..4]);
    var limit := FixedValue(contents[table + index * 4 + 4..][..4]);
    if start <= limit <= table then Matches(hash(key), contents[start..limit]) else start != limit
  }

  method KeyMayMatch(hash: Key -> nat, contents: seq<Byte>, blockOffset: nat, key: Key) returns (r: bool)
    ensures r <==> MayMatch(hash, contents, blockOffset, key)
  {
    hide Matches, Pow2, FixedValue;
    var n := |contents|;
    if n < 5 {
      return true;
    }
    var table := FixedValue(contents[n - 5..n - 1]);
    if table > n - 5 {
      return true;
    }
    var num, index := (n - 5 - table) / 4, blockOffset / Pow2(contents[n - 1]);
    if index < num {
      var start := FixedValue(contents[table + index * 4..][..4]);
      var limit := FixedValue(contents[table + index * 4 + 4..][..4]);
      if start <= limit && limit <= table {
        r := Bloom.KeyMayMatch(hash(key), contents[start..limit]);
        return;
      } else if start == limit {
        return false;
      }
    }
    r := true;
  }

  lemma BaseIs()
    ensures Pow2(BASE_LG) == BASE
  {
    assert Pow2(5) == 32;
    assert Pow2(8) == 256;
  }

  /** The block as written: filters, their offsets, where the offsets start, the base. */
  ghost predicate Written(result: seq<Byte>, offsets: seq<nat>, contents: seq<Byte>) {
    contents == result + FixedArray(offsets) + FixedBytes(|result| % TWO32) + [BASE_LG] && |contents| < TWO32
  }

  lemma OffsetReadsBack(result: seq<Byte>, offsets: seq<nat>, contents: seq<Byte>, i: nat)
    requires Written(result, offsets, contents) && i < |offsets| && offsets[i] < TWO32
    ensures |result| + i * 4 + 4 <= |contents| && FixedValue(contents[|result| + i * 4..][..4]) == offsets[i]
  {
    hide FixedArray, FixedBytes, FixedValue;
    var tail := FixedBytes(|result| % TWO32) + [BASE_LG];
    assert contents == result + FixedArray(offsets) + tail;
    WordIn(result, FixedArray(offsets), tail, i);
    FixedArrayAt(offsets, i);
    FixedBytesRoundTrip(offsets[i]);
  }

  lemma ArrayReadsBack(result: seq<Byte>, offsets: seq<nat>, contents: seq<Byte>)
    requires Written(result, offsets, contents)
    ensures |contents| == |result| + 4 * |offsets| + 5 && contents[|contents| - 1] == BASE_LG
    ensures FixedValue(contents[|contents| - 5..|contents| - 1]) == |result|
    ensures FixedValue(contents[|result| + |offsets| * 4..][..4]) == |result|
  {
    hide FixedArray, FixedBytes, FixedValue;
    var b := FixedBytes(|result| % TWO32);
    SliceIn(result + FixedArray(offsets), b, [BASE_LG]);
    FixedBytesRoundTrip(|result|);
  }

  lemma SliceIn(a: seq<Byte>, b: seq<Byte>, c: seq<Byte>)
    ensures (a + b + c)[|a|..|a| + |b|] == b && (a + b + c)[|a|..][..|b|] == b
  {
  }

  lemma WordIn(a: seq<Byte>, b: seq<Byte>, c: seq<Byte>, i: nat)
    requires 4 * i + 4 <= |b|
    ensures (a + b + c)[|a| + i * 4..][..4] == b[4 * i..][..4]
  {
  }

  lemma AddedMatches(hash: Key -> nat, result: seq<Byte>, offsets: seq<nat>, slots: seq<seq<Key>>, contents: seq<Byte>, a: Added)
    requires SlotsOk(hash, result, offsets, slots)
    requires Written(result, offsets, contents)
    requires a.offset / BASE < |slots| && a.key in slots[a.offset / BASE]
    ensures MayMatch(hash, contents, a.offset, a.key)
  {
    hide FixedArray, FixedBytes, FixedValue, Matches, Recalls, Pow2;
    var i := a.offset / BASE;
    assert SlotOk(hash, result, offsets, slots, i);
    var start, limit := offsets[i], SlotEnd(offsets, |result|, i);
    ArrayReadsBack(result, offsets, contents);
    OffsetReadsBack(result, offsets, contents, i);
    if i + 1 < |offsets| {
      assert SlotOk(hash, result, offsets, slots, i + 1);
      OffsetReadsBack(result, offsets, contents, i + 1);
    }
    BaseIs();
    var j :| 0 <= j < |slots[i]| && slots[i][j] == a.key;
    assert contents[start..limit] == result[start..limit];
    FilterRecalls(result[start..limit], HashAll(hash, slots[i]), j);
  }

  // ----- building a table -----

  /** The first data block is at 0; each ends, and the next starts, no earlier than it began. */
  ghost predicate OffsetsOk(offsets: seq<nat>) {
    offsets != [] && offsets[0] == 0 && forall i, j :: 0 <= i < j < |offsets| ==> offsets[i] <= offsets[j]
  }

  /**
  The calls TableBuilder makes: one for offset 0, then for each data block its keys and,
  once the block is written, the offset where it ended.
  */
  method FilterTable(hash: Key -> nat, bitsPerKey: nat, k: Byte, offsets: seq<nat>, blocks: seq<seq<Key>>) returns (contents: seq<Byte>)
    requires |offsets| == |blocks| + 1 && OffsetsOk(offsets)
    ensures |contents| < TWO32 ==>
              forall b, q :: 0 <= b < |blocks| && 0 <= q < |blocks[b]| ==> MayMatch(hash, contents, offsets[b], blocks[b][q])
  {
    hide MayMatch;
    var f := new FilterBlockBuilder(hash, bitsPerKey, k);
    f.StartBlock(0);
    for b := 0 to |blocks|
      invariant f.Valid() && fresh(f) && f.hash == hash && f.blockOffset == offsets[b]
      invariant forall c, q :: 0 <= c < b && 0 <= q < |blocks[c]| ==> Added(offsets[c], blocks[c][q]) in f.added
    {
      for q := 0 to |blocks[b]|
        invariant f.Valid() && fresh(f) && f.hash == hash && f.blockOffset == offsets[b]
        invariant forall c, p :: 0 <= c < b && 0 <= p < |blocks[c]| ==> Added(offsets[c], blocks[c][p]) in f.added
        invariant forall p :: 0 <= p < q ==> Added(offsets[b], blocks[b][p]) in f.added
      {
        f.AddKey(blocks[b][q]);
      }
      f.StartBlock(offsets[b + 1]);
    }
    contents := f.Finish();
    if |contents| < TWO32 {
      forall b, q | 0 <= b < |blocks| && 0 <= q < |blocks[b]| ensures MayMatch(hash, contents, offsets[b], blocks[b][q]) {
        assert Added(offsets[b], blocks[b][q]) in f.added;
      }
    }
  }
}
