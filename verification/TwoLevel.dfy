/**
table/two_level_iterator.cc: an index iterator and the iterator of one data block at a time,
read as one sequence. Used for the blocks of a table and for the files of a sorted level.
*/
module TwoLevel {
  import opened Common
  import opened Format
  import opened Runs
  import M = Merger

  /** Every entry of a block is at or before its index key, and every later entry after it. */
  ghost predicate Separated(index: seq<IKey>, blocks: seq<seq<Entry>>) {
    && |index| == |blocks| && StrictlySorted(Flatten(blocks))
    && (forall b, e :: 0 <= b < |blocks| && e in blocks[b] ==> AtMost(e.key, index[b]))
    && (forall b, c, e :: 0 <= b < c < |blocks| && e in blocks[c] ==> Less(index[b], e.key))
  }

  /** The first index key at or after `k`. */
  function FirstIndex(index: seq<IKey>, k: IKey): (i: nat)
    ensures i <= |index|
    ensures forall j :: 0 <= j < i ==> Less(index[j], k)
    ensures i < |index| ==> AtMost(k, index[i])
  {
    if index == [] || AtMost(k, index[0]) then 0 else 1 + FirstIndex(index[1..], k)
  }

  class TwoLevelIterator {
    const index: seq<IKey>
    const blocks: seq<seq<Entry>>
    /** The index iterator; the length when it is not valid. */
    var ipos: nat
    /** The block the data iterator was opened on, if there is one, and where it stands. */
    var data: Option<nat>
    var dpos: nat
    /** Where the iterator stands in all entries; their number when it is not valid. */
    ghost var at: nat

    ghost function All(): seq<Entry> {
      Flatten(blocks)
    }

    /** The inner iterators point inside what they iterate over. */
    ghost predicate InnerOk()
      reads this`ipos, this`data, this`dpos
    {
      && Separated(index, blocks) && |index| == |blocks| && ipos <= |index|
      && (data.Some? ==> data.value < |blocks| && dpos <= |blocks[data.value]|)
    }

    predicate OnEntry()
      reads this`data, this`dpos
    {
      data.Some? && data.value < |blocks| && dpos < |blocks[data.value]|
    }

    ghost predicate Valid()
      reads this
    {
      && InnerOk() && at <= |All()|
      && (OnEntry() <==> at < |All()|)
      && (OnEntry() ==> data == Some(ipos) && at == Offset(blocks, ipos) + dpos && blocks[ipos][dpos] == All()[at])
    }

    constructor (index: seq<IKey>, blocks: seq<seq<Entry>>)
      requires Separated(index, blocks)
      ensures Valid() && this.index == index && this.blocks == blocks && at == |All()|
    {
      this.index, this.blocks := index, blocks;
      ipos, data, dpos, at := |index|, None, 0, |Flatten(blocks)|;
    }

    /** Opens the block under the index iterator, unless the data iterator already is on it. */
    method InitDataBlock()
      requires InnerOk()
      modifies this`data, this`dpos
      ensures InnerOk() && data == if ipos < |index| then Some(ipos) else None
    {
      if ipos >= |index| {
        data := None;
      } else if data != Some(ipos) {
        data, dpos := Some(ipos), |blocks[ipos]|;
      }
    }

    /** From the end of block ipos, or nowhere, to the next entry there is. */
    method SkipEmptyDataBlocksForward()
      requires InnerOk() && data == if ipos < |index| then Some(ipos) else None
      modifies this
      ensures Valid()
      ensures at == old(if ipos < |index| then Offset(blocks, ipos) + dpos else |All()|)
    {
      hide Flatten, Separated, Offset;
      at := if ipos < |index| then Offset(blocks, ipos) + dpos else |All()|;
      Reach(blocks, ipos, dpos);
      while !OnEntry()
        invariant InnerOk() && data == if ipos < |index| then Some(ipos) else None
        invariant at == if ipos < |index| then Offset(blocks, ipos) + dpos else |All()|
        invariant at == old(if ipos < |index| then Offset(blocks, ipos) + dpos else |All()|)
        decreases |index| - ipos
      {
        if ipos >= |index| {
          data := None;
          return;
        }
        NextBlock(blocks, ipos);
        ipos := ipos + 1;
        InitDataBlock();
        if data.Some? {
          dpos := 0;
        }
      }
      Reach(blocks, ipos, dpos);
    }

    /** Where a backward scan that stands at (i, k) will stop. */
    ghost function BackTo(i: nat, k: nat): nat {
      if i >= |blocks| then |All()|
      else if k < |blocks[i]| then Offset(blocks, i) + k
      else M.PrevOf(Offset(blocks, i), |All()|)
    }

    /** From before the start of block ipos, or nowhere, to the previous entry there is. */
    method SkipEmptyDataBlocksBackward()
      requires InnerOk() && data == if ipos < |index| then Some(ipos) else None
      modifies this
      ensures Valid() && at == old(BackTo(ipos, dpos))
    {
      hide Flatten, Separated, Offset;
      at := BackTo(ipos, dpos);
      while !OnEntry()
        invariant InnerOk() && data == if ipos < |index| then Some(ipos) else None
        invariant at == BackTo(ipos, dpos) == old(BackTo(ipos, dpos))
        decreases if ipos < |index| then ipos + 1 else 0
      {
        if ipos >= |index| {
          data := None;
          return;
        }
        PrevBlock(blocks, ipos);
        ipos := M.PrevOf(ipos, |index|);
        InitDataBlock();
        if data.Some? {
          dpos := if blocks[ipos] == [] then 0 else |blocks[ipos]| - 1;
        }
      }
      Reach(blocks, ipos, dpos);
    }

    method Seek(target: IKey)
      requires Valid()
      modifies this
      ensures Valid() && at == FirstAtOrAfter(All(), target)
    {
      hide Flatten, Separated, Offset, FirstAtOrAfter, FirstIndex;
      ipos := FirstIndex(index, target);
      InitDataBlock();
      if data.Some? {
        dpos := FirstAtOrAfter(blocks[ipos], target);
      }
      SeekLands(index, blocks, target);
      SkipEmptyDataBlocksForward();
    }

    method SeekToFirst()
      requires Valid()
      modifies this
      ensures Valid() && at == 0
    {
      ipos := 0;
      InitDataBlock();
      if data.Some? {
        dpos := 0;
      }
      SkipEmptyDataBlocksForward();
    }

    method SeekToLast()
      requires Valid()
      modifies this
      ensures Valid() && at == M.PrevOf(|All()|, |All()|)
    {
      hide Flatten, Separated, Offset;
      ipos := if index == [] then 0 else |index| - 1;
      InitDataBlock();
      if data.Some? {
        NextBlock(blocks, ipos);
        dpos := if blocks[ipos] == [] then 0 else |blocks[ipos]| - 1;
      } else {
        NoBlocks(blocks);
      }
      SkipEmptyDataBlocksBackward();
    }

    method Next()
      requires Valid() && OnEntry()
      modifies this
      ensures Valid() && at == old(at) + 1
    {
      hide Flatten, Separated, Offset;
      dpos := dpos + 1;
      SkipEmptyDataBlocksForward();
    }

    method Prev()
      requires Valid() && OnEntry()
      modifies this
      ensures Valid() && at == M.PrevOf(old(at), |All()|)
    {
      hide Flatten, Separated, Offset;
      dpos := M.PrevOf(dpos, |blocks[ipos]|);
      SkipEmptyDataBlocksBackward();
    }
  }

  lemma NoBlocks(blocks: seq<seq<Entry>>)
    requires blocks == []
    ensures Flatten(blocks) == []
  {
  }

  lemma PrevBlock(blocks: seq<seq<Entry>>, i: nat)
    requires i < |blocks|
    ensures if i == 0 then Offset(blocks, i) == 0 else Offset(blocks, i) == Offset(blocks, i - 1) + |blocks[i - 1]|
  {
  }

  /** The block under the first index key at or after the target holds the first such entry, or ends just before it. */
  lemma SeekLands(index: seq<IKey>, blocks: seq<seq<Entry>>, target: IKey)
    requires Separated(index, blocks)
    ensures
      var i := FirstIndex(index, target);
      FirstAtOrAfter(Flatten(blocks), target) ==
      if i < |blocks| then Offset(blocks, i) + FirstAtOrAfter(blocks[i], target) else |Flatten(blocks)|
  {
    hide Flatten, Offset, FirstAtOrAfter, FirstIndex;
    var i, all := FirstIndex(index, target), Flatten(blocks);
    OffsetLength(blocks);
    if i == |blocks| {
      forall j | 0 <= j < |all| ensures Less(all[j].key, target) { Early(index, blocks, target, i, j); }
      M.FirstIs(all, target, |all|);
    } else {
      var k := FirstAtOrAfter(blocks[i], target);
      Reach(blocks, i, k);
      var p := Offset(blocks, i) + k;
      forall j | 0 <= j < p ensures Less(all[j].key, target) {
        if j < Offset(blocks, i) {
          Early(index, blocks, target, i, j);
        } else {
          FlattenAt(blocks, i, j - Offset(blocks, i));
        }
      }
      if p < |all| && k == |blocks[i]| { Late(index, blocks, target, i); }
      M.FirstIs(all, target, p);
    }
  }

  lemma Early(index: seq<IKey>, blocks: seq<seq<Entry>>, target: IKey, i: nat, j: nat)
    requires Separated(index, blocks) && i <= |blocks| && (forall b :: 0 <= b < i ==> Less(index[b], target))
    requires j < Offset(blocks, i)
    ensures j < |Flatten(blocks)| && Less(Flatten(blocks)[j].key, target)
  {
    hide Flatten, Offset, StrictlySorted;
    var b, k := FindRun(blocks, i, j);
    FlattenAt(blocks, b, k);
    assert blocks[b][k] in blocks[b];
  }

  lemma Late(index: seq<IKey>, blocks: seq<seq<Entry>>, target: IKey, i: nat)
    requires Separated(index, blocks) && i < |blocks| && AtMost(target, index[i])
    requires Offset(blocks, i) + |blocks[i]| < |Flatten(blocks)|
    ensures AtMost(target, Flatten(blocks)[Offset(blocks, i) + |blocks[i]|].key)
  {
    hide Flatten, Offset, StrictlySorted;
    var p := Offset(blocks, i) + |blocks[i]|;
    OffsetLength(blocks);
    var b, k := FindRun(blocks, |blocks|, p);
    FlattenAt(blocks, b, k);
    if b < i { OffsetGrows(blocks, b, i); }
    assert b > i && blocks[b][k] in blocks[b];
  }

  /** An entry of a block, or a block's end, as a place in all entries. */
  lemma Reach(blocks: seq<seq<Entry>>, i: nat, k: nat)
    requires i < |blocks| ==> k <= |blocks[i]|
    ensures i < |blocks| ==> Offset(blocks, i) + k <= |Flatten(blocks)|
    ensures i < |blocks| && k < |blocks[i]| ==>
              Offset(blocks, i) + k < |Flatten(blocks)| && Flatten(blocks)[Offset(blocks, i) + k] == blocks[i][k]
  {
    hide Flatten;
    OffsetLength(blocks);
    if i < |blocks| {
      OffsetGrows(blocks, i, |blocks|);
      if k < |blocks[i]| { FlattenAt(blocks, i, k); }
    }
  }

  lemma NextBlock(blocks: seq<seq<Entry>>, i: nat)
    requires i < |blocks|
    ensures Offset(blocks, i) + |blocks[i]| == if i + 1 < |blocks| then Offset(blocks, i + 1) else |Flatten(blocks)|
  {
    OffsetLength(blocks);
  }
}
