/**
table/block_builder.cc and table/block.cc: sorted pairs as one byte string, each key stored as
what it does not share with the one before, and an iterator that works on the bytes.
*/
module Block {
  import opened Common
  import opened Crc
  import opened Coding

  datatype Pair = Pair(key: seq<Byte>, value: seq<Byte>)

  // ----- one entry -----

  function Head(shared: nat, nonShared: nat, valueLength: nat): seq<Byte> {
    Varint(shared) + Varint(nonShared) + Varint(valueLength)
  }

  function EntryBytes(shared: nat, p: Pair): seq<Byte>
    requires shared <= |p.key|
  {
    Head(shared, |p.key| - shared, |p.value|) + p.key[shared..] + p.value
  }

  /** The three lengths, and where the key delta begins. */
  datatype Lengths = Lengths(shared: nat, nonShared: nat, valueLength: nat, header: nat)

  /** Three varints, and room for the bytes they announce; the sum is 32 bits wide. */
  function ReadLengths(input: seq<Byte>): (r: Option<Lengths>)
    ensures r.Some? ==> 3 <= r.value.header <= |input|
  {
    match Varint32(input)
    case None => None
    case Some((a, in1)) =>
      match Varint32(in1)
      case None => None
      case Some((b, in2)) =>
        match Varint32(in2)
        case None => None
        case Some((c, in3)) =>
          if |in3| % TWO32 < (b + c) % TWO32 then None else Some(Lengths(a, b, c, |input| - |in3|))
  }

  lemma OneByteVarint(input: seq<Byte>)
    requires input != [] && input[0] < 128
    ensures Varint32(input) == Some((input[0], input[1..]))
  {
  }

  /** DecodeEntry, with its fast path for three one-byte lengths. */
  method DecodeEntry(input: seq<Byte>) returns (r: Option<Lengths>)
    ensures r == ReadLengths(input)
  {
    hide Varint32;
    if |input| < 3 {
      return None;
    }
    var a, b, c, header := input[0], input[1], input[2], 3;
    if a < 128 && b < 128 && c < 128 {
      OneByteVarint(input);
      OneByteVarint(input[1..]);
      OneByteVarint(input[2..]);
      assert input[1..][1..] == input[2..] && input[2..][1..] == input[3..];
      if |input[3..]| % TWO32 < (b + c) % TWO32 {
        return None;
      }
      return Some(Lengths(a, b, c, 3));
    }
    var first := GetVarint32(input);
    if first.None? { return None; }
    var second := GetVarint32(first.value.1);
    if second.None? { return None; }
    var third := GetVarint32(second.value.1);
    if third.None? { return None; }
    if |third.value.1| % TWO32 < (second.value.0 + third.value.0) % TWO32 {
      return None;
    }
    r := Some(Lengths(first.value.0, second.value.0, third.value.0, |input| - |third.value.1|));
  }

  lemma ReadsEntry(shared: nat, p: Pair, rest: seq<Byte>)
    requires shared <= |p.key| < TWO32 && |EntryBytes(shared, p) + rest| < TWO32
    ensures ReadLengths(EntryBytes(shared, p) + rest) ==
            Some(Lengths(shared, |p.key| - shared, |p.value|, |Head(shared, |p.key| - shared, |p.value|)|))
  {
    hide Varint, Varint32;
    var n, v := |p.key| - shared, |p.value|;
    var tail := p.key[shared..] + p.value + rest;
    assert EntryBytes(shared, p) + rest == Varint(shared) + (Varint(n) + (Varint(v) + tail));
    Varint32RoundTrip(shared, Varint(n) + (Varint(v) + tail));
    Varint32RoundTrip(n, Varint(v) + tail);
    Varint32RoundTrip(v, tail);
  }

  // ----- the layout of a block -----

  /** Where each entry starts, how much of its key it shares, and which entries are restart points. */
  datatype Layout = Layout(offsets: seq<nat>, shared: seq<nat>, restarts: seq<nat>)

  ghost predicate EntryOk(pairs: seq<Pair>, lay: Layout, buffer: seq<Byte>, i: nat)
    requires i < |pairs| == |lay.shared| && |lay.offsets| == |pairs| + 1
  {
    && lay.shared[i] <= |pairs[i].key|
    && lay.offsets[i] < lay.offsets[i + 1] <= |buffer|
    && buffer[lay.offsets[i]..lay.offsets[i + 1]] == EntryBytes(lay.shared[i], pairs[i])
    && (if i == 0 then lay.shared[i] == 0
        else lay.shared[i] <= |pairs[i - 1].key| && pairs[i].key[..lay.shared[i]] == pairs[i - 1].key[..lay.shared[i]])
  }

  ghost predicate EntriesOk(pairs: seq<Pair>, lay: Layout, buffer: seq<Byte>) {
    && |lay.shared| == |pairs| && |lay.offsets| == |pairs| + 1
    && lay.offsets[0] == 0 && lay.offsets[|pairs|] == |buffer|
    && forall i :: 0 <= i < |pairs| ==> EntryOk(pairs, lay, buffer, i)
  }

  /** Restart points: the first entry, and later ones in order, each holding its whole key. */
  ghost predicate RestartsOk(pairs: seq<Pair>, lay: Layout) {
    && |lay.shared| == |pairs| && lay.restarts != [] && lay.restarts[0] == 0
    && (forall r :: 0 < r < |lay.restarts| ==> lay.restarts[r] < |pairs|)
    && (forall r :: 0 <= r < |lay.restarts| && lay.restarts[r] < |pairs| ==> lay.shared[lay.restarts[r]] == 0)
    && (forall q, r :: 0 <= q < r < |lay.restarts| ==> lay.restarts[q] < lay.restarts[r])
  }

  /** How much of the key is shared with the previous one. */
  method SharedLength(last: seq<Byte>, key: seq<Byte>) returns (n: nat)
    ensures n <= |last| && n <= |key| && last[..n] == key[..n]
    ensures n < |last| && n < |key| ==> last[n] != key[n]
  {
    var minLength := if |last| < |key| then |last| else |key|;
    n := 0;
    while n < minLength && last[n] == key[n]
      invariant n <= minLength && last[..n] == key[..n]
    {
      n := n + 1;
    }
  }

  lemma AppendEntry(pairs: seq<Pair>, lay: Layout, buffer: seq<Byte>, p: Pair, shared: nat, lay': Layout, buffer': seq<Byte>)
    requires EntriesOk(pairs, lay, buffer) && shared <= |p.key|
    requires if pairs == [] then shared == 0
             else shared <= |pairs[|pairs| - 1].key| && p.key[..shared] == pairs[|pairs| - 1].key[..shared]
    requires buffer' == buffer + EntryBytes(shared, p)
    requires lay'.offsets == lay.offsets + [|buffer'|] && lay'.shared == lay.shared + [shared]
    ensures EntriesOk(pairs + [p], lay', buffer')
  {
    hide EntryBytes;
    EntryNotEmpty(shared, p);
    var pairs' := pairs + [p];
    forall i | 0 <= i < |pairs'| ensures EntryOk(pairs', lay', buffer', i) {
      if i < |pairs| {
        assert EntryOk(pairs, lay, buffer, i);
        assert buffer'[lay.offsets[i]..lay.offsets[i + 1]] == buffer[lay.offsets[i]..lay.offsets[i + 1]];
      }
    }
  }

  ghost predicate RestartOffsets(lay: Layout, restarts: seq<nat>) {
    && |restarts| == |lay.restarts|
    && forall r :: 0 <= r < |restarts| ==> lay.restarts[r] < |lay.offsets| && restarts[r] == lay.offsets[lay.restarts[r]]
  }

  lemma AppendRestart(pairs: seq<Pair>, lay: Layout, p: Pair, shared: nat, restart: bool, lay': Layout, size: nat,
                      restarts: seq<nat>, restarts': seq<nat>)
    requires RestartsOk(pairs, lay) && RestartOffsets(lay, restarts) && |lay.offsets| == |pairs| + 1 && lay.offsets[|pairs|] == size
    requires (restart ==> shared == 0 && pairs != []) && (pairs == [] ==> shared == 0)
    requires restarts' == if restart then restarts + [size] else restarts
    requires lay'.restarts == (if restart then lay.restarts + [|pairs|] else lay.restarts) && lay'.shared == lay.shared + [shared]
    requires lay.offsets <= lay'.offsets
    ensures RestartsOk(pairs + [p], lay') && RestartOffsets(lay', restarts')
  {
    forall r | 0 <= r < |lay'.restarts|
      ensures (r > 0 ==> lay'.restarts[r] < |pairs| + 1) && (lay'.restarts[r] < |pairs| + 1 ==> lay'.shared[lay'.restarts[r]] == 0)
      ensures lay'.restarts[r] < |lay'.offsets| && restarts'[r] == lay'.offsets[lay'.restarts[r]]
    {
      if r < |lay.restarts| {
        assert lay.restarts[r] < |lay.offsets| && restarts[r] == lay.offsets[lay.restarts[r]];
        assert lay.restarts[r] < |pairs| ==> lay.shared[lay.restarts[r]] == 0;
      }
    }
  }

  /** The builder's variables describe the pairs added so far. */
  ghost predicate BuiltOk(pairs: seq<Pair>, lay: Layout, buffer: seq<Byte>, restarts: seq<nat>, lastKey: seq<Byte>) {
    && EntriesOk(pairs, lay, buffer) && RestartsOk(pairs, lay) && RestartOffsets(lay, restarts)
    && lastKey == if pairs == [] then [] else pairs[|pairs| - 1].key
  }

  ghost function Extended(lay: Layout, size: nat, shared: nat, restart: bool, n: nat): Layout {
    Layout(lay.offsets + [size], lay.shared + [shared], if restart then lay.restarts + [n] else lay.restarts)
  }

  lemma BuiltMore(pairs: seq<Pair>, lay: Layout, buffer: seq<Byte>, restarts: seq<nat>, lastKey: seq<Byte>,
                  p: Pair, shared: nat, restart: bool)
    requires BuiltOk(pairs, lay, buffer, restarts, lastKey)
    requires shared <= |p.key| && shared <= |lastKey| && p.key[..shared] == lastKey[..shared]
    requires restart ==> shared == 0 && pairs != []
    ensures
      BuiltOk(pairs + [p], Extended(lay, |buffer + EntryBytes(shared, p)|, shared, restart, |pairs|), buffer + EntryBytes(shared, p),
        if restart then restarts + [|buffer|] else restarts, p.key)
  {
    hide EntriesOk, RestartsOk, RestartOffsets, EntryBytes;
    LayoutSize(pairs, lay, buffer);
    var buffer' := buffer + EntryBytes(shared, p);
    var lay' := Extended(lay, |buffer'|, shared, restart, |pairs|);
    AppendEntry(pairs, lay, buffer, p, shared, lay', buffer');
    AppendRestart(pairs, lay, p, shared, restart, lay', |buffer|, restarts, if restart then restarts + [|buffer|] else restarts);
  }

  lemma EntryNotEmpty(shared: nat, p: Pair)
    requires shared <= |p.key|
    ensures |EntryBytes(shared, p)| > 0
  {
    assert |Varint(shared)| > 0;
  }

  // ----- building -----

  /** Every interval-th entry is a restart point, and `counter` entries came since the last one. */
  ghost predicate Cadence(restarts: seq<nat>, n: nat, interval: nat, counter: nat) {
    && restarts != [] && counter <= interval && n == (|restarts| - 1) * interval + counter
    && forall r :: 0 <= r < |restarts| ==> restarts[r] == r * interval
  }

  lemma CadenceMore(restarts: seq<nat>, n: nat, interval: nat, counter: nat)
    requires Cadence(restarts, n, interval, counter) && interval >= 1
    ensures counter < interval ==> Cadence(restarts, n + 1, interval, counter + 1)
    ensures counter == interval ==> Cadence(restarts + [n], n + 1, interval, 1)
  {
    assert counter == interval ==> n == |restarts| * interval;
  }

  class BlockBuilder {
    const interval: nat
    var buffer: seq<Byte>
    var restarts: seq<nat>
    var counter: nat
    var lastKey: seq<Byte>
    var finished: bool
    ghost var pairs: seq<Pair>
    ghost var lay: Layout

    ghost predicate Valid()
      reads this
    {
      && interval >= 1 && counter <= interval && (pairs == [] ==> counter == 0)
      && BuiltOk(pairs, lay, buffer, restarts, lastKey)
      && Cadence(lay.restarts, |pairs|, interval, counter)
    }

    constructor (interval: nat)
      requires interval >= 1
      ensures Valid() && this.interval == interval && pairs == [] && !finished
    {
      this.interval := interval;
      buffer, restarts, counter, lastKey, finished := [], [0], 0, [], false;
      pairs, lay := [], Layout([0], [], [0]);
    }

    method Reset()
      requires interval >= 1
      modifies this
      ensures Valid() && pairs == [] && !finished
    {
      buffer, restarts, counter, lastKey, finished := [], [0], 0, [], false;
      pairs, lay := [], Layout([0], [], [0]);
    }

    method Add(key: seq<Byte>, value: seq<Byte>)
      requires Valid() && !finished
      modifies this
      ensures Valid() && !finished && pairs == old(pairs) + [Pair(key, value)]
    {
      hide BuiltOk, EntryBytes, Varint, Cadence;
      CadenceMore(lay.restarts, |pairs|, interval, counter);
      ghost var restart := counter >= interval;
      var shared := 0;
      if counter < interval {
        shared := SharedLength(lastKey, key);
      } else {
        restarts := restarts + [|buffer|];
        counter := 0;
      }
      ghost var p, data := Pair(key, value), buffer;
      BuiltMore(pairs, lay, data, old(restarts), lastKey, p, shared, restart);
      EntryAppended(data, shared, p);
      buffer := buffer + Varint(shared) + Varint(|key| - shared) + Varint(|value|);
      buffer := buffer + key[shared..];
      buffer := buffer + value;
      lastKey := lastKey[..shared] + key[shared..];
      assert lastKey == key;
      counter := counter + 1;
      pairs, lay := pairs + [p], Extended(lay, |buffer|, shared, restart, |pairs|);
    }

    /** The entries, the restart offsets and their number. */
    method Finish() returns (contents: seq<Byte>)
      requires Valid() && !finished && |buffer| < TWO32 && |restarts| < TWO32
      modifies this
      ensures finished && pairs == old(pairs) && lay == old(lay)
      ensures IsBlock(contents, pairs, lay) && Cadence(lay.restarts, |pairs|, interval, counter)
    {
      hide EntriesOk, EntryBytes, FixedArray;
      LayoutSize(pairs, lay, buffer);
      OffsetsFit(pairs, lay, buffer, restarts);
      var rs, data := restarts, buffer;
      for i := 0 to |rs|
        invariant buffer == data + FixedArray(rs[..i])
        modifies this`buffer
      {
        FixedArraySnoc(rs, i);
        buffer := buffer + FixedBytes(rs[i] % TWO32);
      }
      assert rs[..|rs|] == rs;
      buffer := buffer + FixedBytes(|rs|);
      finished := true;
      contents := buffer;
      FinishedIsBlock(contents, data, rs, pairs, lay);
    }
  }

  lemma EntryAppended(b: seq<Byte>, shared: nat, p: Pair)
    requires shared <= |p.key|
    ensures b + Varint(shared) + Varint(|p.key| - shared) + Varint(|p.value|) + p.key[shared..] + p.value == b + EntryBytes(shared, p)
  {
    hide Varint;
  }

  lemma LayoutSize(pairs: seq<Pair>, lay: Layout, buffer: seq<Byte>)
    requires EntriesOk(pairs, lay, buffer)
    ensures |lay.offsets| == |pairs| + 1 && |lay.shared| == |pairs| && lay.offsets[0] == 0 && lay.offsets[|pairs|] == |buffer|
  {
  }

  lemma {:induction false} OffsetsGrow(pairs: seq<Pair>, lay: Layout, buffer: seq<Byte>, i: nat, j: nat)
    requires EntriesOk(pairs, lay, buffer) && i <= j <= |pairs|
    ensures lay.offsets[i] <= lay.offsets[j] && (i < j ==> lay.offsets[i] < lay.offsets[j]) && lay.offsets[j] <= |buffer|
    decreases j
  {
    if i < j {
      OffsetsGrow(pairs, lay, buffer, i, j - 1);
      assert EntryOk(pairs, lay, buffer, j - 1);
    } else if j < |pairs| {
      assert EntryOk(pairs, lay, buffer, j);
    }
  }

  lemma OffsetsFit(pairs: seq<Pair>, lay: Layout, buffer: seq<Byte>, restarts: seq<nat>)
    requires EntriesOk(pairs, lay, buffer) && RestartsOk(pairs, lay) && RestartOffsets(lay, restarts) && |buffer| < TWO32
    ensures forall r :: 0 <= r < |restarts| ==> restarts[r] < TWO32
  {
    hide EntriesOk;
    LayoutSize(pairs, lay, buffer);
    forall r | 0 <= r < |restarts| ensures restarts[r] < TWO32 {
      OffsetsGrow(pairs, lay, buffer, lay.restarts[r], |pairs|);
    }
  }

  // ----- a finished block -----

  function NumRestarts(contents: seq<Byte>): nat
    requires |contents| >= 4
  {
    FixedValue(contents[|contents| - 4..])
  }

  /** Where the restart array begins. */
  function RestartOffset(contents: seq<Byte>): int
    requires |contents| >= 4
  {
    |contents| - (1 + NumRestarts(contents)) * 4
  }

  function RestartPoint(contents: seq<Byte>, r: nat): nat
    requires |contents| >= 4 && 0 <= RestartOffset(contents) && r < NumRestarts(contents)
  {
    FixedValue(contents[RestartOffset(contents) + 4 * r..][..4])
  }

  /** The bytes hold the pairs in this layout. */
  ghost predicate IsBlock(contents: seq<Byte>, pairs: seq<Pair>, lay: Layout) {
    && 4 <= |contents| && 0 <= RestartOffset(contents) < TWO32
    && EntriesOk(pairs, lay, contents[..RestartOffset(contents)]) && RestartsOk(pairs, lay)
    && NumRestarts(contents) == |lay.restarts|
    && forall r :: 0 <= r < |lay.restarts| ==> RestartPoint(contents, r) == lay.offsets[lay.restarts[r]]
  }

  lemma FinishedIsBlock(contents: seq<Byte>, buffer: seq<Byte>, restarts: seq<nat>, pairs: seq<Pair>, lay: Layout)
    requires |buffer| < TWO32 && |restarts| < TWO32 && |restarts| == |lay.restarts|
    requires forall r :: 0 <= r < |restarts| ==> restarts[r] < TWO32
    requires contents == buffer + FixedArray(restarts) + FixedBytes(|restarts|)
    requires EntriesOk(pairs, lay, buffer) && RestartsOk(pairs, lay)
    requires |lay.offsets| == |pairs| + 1 && RestartOffsets(lay, restarts)
    ensures IsBlock(contents, pairs, lay)
  {
    hide EntriesOk, FixedArray, FixedBytes, FixedValue;
    assert contents[|contents| - 4..] == FixedBytes(|restarts|);
    FixedBytesRoundTrip(|restarts|);
    assert RestartOffset(contents) == |buffer| && contents[..|buffer|] == buffer;
    forall r | 0 <= r < |restarts| ensures RestartPoint(contents, r) == restarts[r] {
      FixedArrayAt(restarts, r);
      assert contents[|buffer| + 4 * r..][..4] == FixedArray(restarts)[4 * r..][..4];
      FixedBytesRoundTrip(restarts[r]);
    }
  }

  // ----- iterating over the bytes -----

  ghost predicate KeysFit(pairs: seq<Pair>) {
    forall i :: 0 <= i < |pairs| ==> |pairs[i].key| < TWO32
  }

  /** Strictly increasing under the comparator, which is transitive. */
  ghost predicate Increasing(lt: (seq<Byte>, seq<Byte>) -> bool, pairs: seq<Pair>) {
    && (forall a, b, c :: lt(a, b) && lt(b, c) ==> lt(a, c))
    && forall i, j :: 0 <= i < j < |pairs| ==> lt(pairs[i].key, pairs[j].key)
  }

  /** Reading entry i of a block gives back its lengths, its key delta and its value. */
  lemma EntryReads(contents: seq<Byte>, pairs: seq<Pair>, lay: Layout, i: nat)
    requires IsBlock(contents, pairs, lay) && KeysFit(pairs) && i < |pairs| && |lay.offsets| == |pairs| + 1 && |lay.shared| == |pairs|
    ensures 0 <= lay.offsets[i] < lay.offsets[i + 1] <= RestartOffset(contents) && lay.shared[i] <= |pairs[i].key|
    ensures
      var r := ReadLengths(contents[lay.offsets[i]..RestartOffset(contents)]);
      var n := |pairs[i].key| - lay.shared[i];
      && r.Some? && r.value.shared == lay.shared[i] && r.value.nonShared == n && r.value.valueLength == |pairs[i].value|
      && lay.offsets[i] + r.value.header + n + |pairs[i].value| == lay.offsets[i + 1]
      && contents[lay.offsets[i] + r.value.header..][..n] == pairs[i].key[lay.shared[i]..]
      && contents[lay.offsets[i] + r.value.header + n..][..|pairs[i].value|] == pairs[i].value
  {
    hide ReadLengths, Varint, NumRestarts, RestartPoint, RestartsOk;
    var limit := RestartOffset(contents);
    var data := contents[..limit];
    assert EntryOk(pairs, lay, data, i);
    var o, o', shared, p := lay.offsets[i], lay.offsets[i + 1], lay.shared[i], pairs[i];
    var e, rest := EntryBytes(shared, p), contents[o'..limit];
    SliceOfPrefix(contents, limit, o, o');
    assert contents[o..limit] == e + rest;
    ReadsEntry(shared, p, rest);
    EntryParts(contents, o, o', shared, p);
  }

  lemma EntryParts(contents: seq<Byte>, o: nat, o': nat, shared: nat, p: Pair)
    requires shared <= |p.key| && o <= o' <= |contents| && contents[o..o'] == EntryBytes(shared, p)
    ensures
      var h, n := |Head(shared, |p.key| - shared, |p.value|)|, |p.key| - shared;
      && o + h + n + |p.value| == o'
      && contents[o + h..][..n] == p.key[shared..] && contents[o + h + n..][..|p.value|] == p.value
  {
    hide Head;
    var h, n, e := |Head(shared, |p.key| - shared, |p.value|)|, |p.key| - shared, EntryBytes(shared, p);
    SliceOfSlice(contents, o, o', h, h + n);
    SliceOfSlice(contents, o, o', h + n, |e|);
    assert e[h..h + n] == p.key[shared..] && e[h + n..|e|] == p.value;
  }

  lemma SliceOfPrefix(s: seq<Byte>, limit: nat, a: nat, b: nat)
    requires a <= b <= limit <= |s|
    ensures s[..limit][a..b] == s[a..b] && s[a..limit] == s[a..b] + s[b..limit]
  {
  }

  class Iter {
    const lt: (seq<Byte>, seq<Byte>) -> bool
    const contents: seq<Byte>
    const limit: nat
    const num: nat
    ghost const pairs: seq<Pair>
    ghost const lay: Layout

    var current: nat
    var restartIndex: nat
    var key: seq<Byte>
    /** value_ as a slice of the contents. */
    var valueAt: nat
    var valueLength: nat
    /** The entry the iterator stands on; the number of entries when it is not valid. */
    ghost var at: nat

    ghost predicate Shape() {
      && IsBlock(contents, pairs, lay) && KeysFit(pairs) && Increasing(lt, pairs)
      && limit == RestartOffset(contents) && num == NumRestarts(contents)
      && |lay.offsets| == |pairs| + 1 && |lay.shared| == |pairs| && lay.offsets[|pairs|] == limit
      && 0 < num == |lay.restarts|
    }

    function NextEntryOffset(): nat
      reads this`valueAt, this`valueLength
    {
      valueAt + valueLength
    }

    /** The next entry to parse is entry j, and the key buffer holds what it shares. */
    ghost predicate Ready(j: nat)
      requires Shape()
      reads this`valueAt, this`valueLength, this`key
    {
      && j <= |pairs| && NextEntryOffset() == lay.offsets[j]
      && (j < |pairs| ==> lay.shared[j] <= |key| && lay.shared[j] <= |pairs[j].key| && key[..lay.shared[j]] == pairs[j].key[..lay.shared[j]])
    }

    ghost predicate Valid()
      reads this
    {
      && Shape() && at <= |pairs|
      && (at == |pairs| ==> current == limit)
      && (at < |pairs| ==>
            && current == lay.offsets[at] && key == pairs[at].key && restartIndex < num
            && NextEntryOffset() == lay.offsets[at + 1]
            && NextEntryOffset() <= |contents| && contents[valueAt..][..valueLength] == pairs[at].value)
    }

    constructor (lt: (seq<Byte>, seq<Byte>) -> bool, contents: seq<Byte>, ghost pairs: seq<Pair>, ghost lay: Layout)
      requires IsBlock(contents, pairs, lay) && KeysFit(pairs) && Increasing(lt, pairs)
      ensures Valid() && this.contents == contents && this.pairs == pairs && this.lt == lt && at == |pairs|
    {
      this.lt, this.contents, this.pairs, this.lay := lt, contents, pairs, lay;
      limit, num := RestartOffset(contents), NumRestarts(contents);
      current, restartIndex := RestartOffset(contents), NumRestarts(contents);
      key, valueAt, valueLength, at := [], 0, 0, |pairs|;
    }

    predicate OnEntry()
      reads this`current
    {
      current < limit
    }

    lemma OnEntryIff()
      requires Valid()
      ensures OnEntry() <==> at < |pairs|
    {
      hide IsBlock, Increasing, KeysFit;
      OffsetsBelow(contents, pairs, lay, at);
    }

    function GetRestartPoint(r: nat): (o: nat)
      requires Shape() && r < num
      ensures o == lay.offsets[lay.restarts[r]]
    {
      RestartPoint(contents, r)
    }

    method SeekToRestartPoint(r: nat)
      requires Shape() && r < num
      modifies this`key, this`restartIndex, this`valueAt, this`valueLength
      ensures Ready(lay.restarts[r]) && restartIndex == r
    {
      hide IsBlock, Increasing, KeysFit;
      key, restartIndex := [], r;
      valueAt, valueLength := GetRestartPoint(r), 0;
      RestartHoldsKey(contents, pairs, lay, r);
    }

    /** Reads entry j, or finds that there is none. */
    method ParseNextKey(ghost j: nat) returns (more: bool)
      requires Shape() && Ready(j) && restartIndex < num
      modifies this
      ensures Valid() && at == j && (more <==> j < |pairs|)
    {
      hide IsBlock, Increasing, ReadLengths;
      OffsetsBelow(contents, pairs, lay, j);
      at := j;
      current := NextEntryOffset();
      if current >= limit {
        current, restartIndex := limit, num;
        return false;
      }
      EntryReads(contents, pairs, lay, j);
      var r := DecodeEntry(contents[current..limit]);
      if r.None? || |key| < r.value.shared {
        assert false;
      }
      var p := current + r.value.header;
      key := key[..r.value.shared] + contents[p..][..r.value.nonShared];
      assert key == pairs[j].key;
      valueAt, valueLength := p + r.value.nonShared, r.value.valueLength;
      while restartIndex + 1 < num && GetRestartPoint(restartIndex + 1) < current
        invariant restartIndex < num
        modifies this`restartIndex
      {
        restartIndex := restartIndex + 1;
      }
      more := true;
    }

    /** Standing on an entry, the next one can be parsed. */
    lemma NextIsReady()
      requires Valid() && at < |pairs|
      ensures Ready(at + 1)
    {
      hide IsBlock, Increasing, KeysFit;
      if at + 1 < |pairs| { SharesWithPrevious(contents, pairs, lay, at + 1); }
    }

    method Next()
      requires Valid() && at < |pairs|
      modifies this
      ensures Valid() && at == old(at) + 1
    {
      NextIsReady();
      var _ := ParseNextKey(at + 1);
    }

    method SeekToFirst()
      requires Valid()
      modifies this
      ensures Valid() && at == 0
    {
      SeekToRestartPoint(0);
      FirstRestart(contents, pairs, lay);
      var _ := ParseNextKey(0);
    }

    /** Parses on until the entry ends at or past `stop`, the start of entry i or the end of the data. */
    method ParseUntil(stop: nat, ghost from: nat, ghost i: nat)
      requires Shape() && Ready(from) && restartIndex < num && from <= i <= |pairs| && stop == lay.offsets[i]
      requires from == i ==> i == |pairs|
      modifies this
      ensures Valid() && at == if from < i then i - 1 else i
    {
      hide IsBlock, Increasing, KeysFit;
      ghost var j := from;
      var more := ParseNextKey(j);
      while more && NextEntryOffset() < stop
        invariant Valid() && at == j && if more then j < i else from == j == i == |pairs|
        decreases i - j
      {
        Between(contents, pairs, lay, j + 1, i);
        NextIsReady();
        j := j + 1;
        more := ParseNextKey(j);
      }
      if more { Between(contents, pairs, lay, j + 1, i); }
    }

    /** Back to a restart point before the current entry, then forward to the entry just before it. */
    method Prev()
      requires Valid() && at < |pairs|
      modifies this
      ensures Valid() && at == if old(at) == 0 then |pairs| else old(at) - 1
    {
      hide IsBlock, Increasing, KeysFit;
      ghost var i := at;
      var original := current;
      while GetRestartPoint(restartIndex) >= original
        invariant restartIndex < num
        modifies this
        invariant at == i && current == original
        decreases restartIndex
      {
        RestartHoldsKey(contents, pairs, lay, restartIndex);
        Between(contents, pairs, lay, lay.restarts[restartIndex], i);
        if restartIndex == 0 {
          FirstRestart(contents, pairs, lay);
          current, restartIndex := limit, num;
          at := |pairs|;
          return;
        }
        restartIndex := restartIndex - 1;
      }
      RestartHoldsKey(contents, pairs, lay, restartIndex);
      Between(contents, pairs, lay, lay.restarts[restartIndex], i);
      ghost var from := lay.restarts[restartIndex];
      SeekToRestartPoint(restartIndex);
      ParseUntil(original, from, i);
    }

    method SeekToLast()
      requires Valid()
      modifies this
      ensures Valid() && at == if pairs == [] then 0 else |pairs| - 1
    {
      hide IsBlock, Increasing, KeysFit;
      SeekToRestartPoint(num - 1);
      RestartHoldsKey(contents, pairs, lay, num - 1);
      RestartBeforeEnd(contents, pairs, lay, num - 1);
      ParseUntil(limit, lay.restarts[num - 1], |pairs|);
    }

    /** Binary search for a restart point, the first one or one whose key is before the target. */
    method FindRestart(target: seq<Byte>) returns (left: nat)
      requires Shape()
      ensures left < num && (left > 0 ==> lay.restarts[left] < |pairs| && lt(pairs[lay.restarts[left]].key, target))
    {
      hide IsBlock, KeysFit, ReadLengths, Increasing;
      var right := num - 1;
      left := 0;
      while left < right
        invariant 0 <= left <= right < num
        invariant left > 0 ==> lay.restarts[left] < |pairs| && lt(pairs[lay.restarts[left]].key, target)
      {
        var mid := (left + right + 1) / 2;
        RestartBeforeEnd(contents, pairs, lay, mid);
        RestartHoldsKey(contents, pairs, lay, mid);
        ghost var i := lay.restarts[mid];
        EntryReads(contents, pairs, lay, i);
        var o := GetRestartPoint(mid);
        var r := DecodeEntry(contents[o..limit]);
        if r.None? || r.value.shared != 0 {
          assert false;
        }
        var midKey := contents[o + r.value.header..][..r.value.nonShared];
        assert midKey == pairs[i].key;
        if lt(midKey, target) {
          left := mid;
        } else {
          right := mid - 1;
        }
      }
    }

    /** Binary search over the restart points, then a linear scan. */
    method Seek(target: seq<Byte>)
      requires Valid()
      modifies this
      ensures Valid()
      ensures forall i :: 0 <= i < at ==> lt(pairs[i].key, target)
      ensures at < |pairs| ==> !lt(pairs[at].key, target)
    {
      hide IsBlock, KeysFit, ReadLengths, Increasing;
      var left := FindRestart(target);
      ghost var j := lay.restarts[left];
      FirstRestart(contents, pairs, lay);
      RestartHoldsKey(contents, pairs, lay, left);
      AllEarlier(lt, pairs, target, j);
      SeekToRestartPoint(left);
      var more := ParseNextKey(j);
      while more && lt(key, target)
        invariant Valid() && at == j <= |pairs| && (more <==> j < |pairs|)
        invariant forall i :: 0 <= i < j ==> lt(pairs[i].key, target)
        decreases |pairs| - j
      {
        NextIsReady();
        j := j + 1;
        more := ParseNextKey(j);
      }
    }
  }

  lemma FirstRestart(contents: seq<Byte>, pairs: seq<Pair>, lay: Layout)
    requires IsBlock(contents, pairs, lay)
    ensures lay.restarts != [] && lay.restarts[0] == 0
  {
  }

  lemma RestartBeforeEnd(contents: seq<Byte>, pairs: seq<Pair>, lay: Layout, r: nat)
    requires IsBlock(contents, pairs, lay) && r < |lay.restarts|
    ensures lay.restarts[r] < |pairs| || (pairs == [] && r == 0 && lay.restarts[r] == 0)
  {
  }

  /** Entry offsets are ordered as the entries are. */
  lemma Between(contents: seq<Byte>, pairs: seq<Pair>, lay: Layout, i: nat, j: nat)
    requires IsBlock(contents, pairs, lay) && i <= |pairs| && j <= |pairs|
    ensures |lay.offsets| == |pairs| + 1 && (lay.offsets[i] < lay.offsets[j] <==> i < j)
  {
    hide RestartPoint;
    if i <= j {
      OffsetsGrow(pairs, lay, contents[..RestartOffset(contents)], i, j);
    } else {
      OffsetsGrow(pairs, lay, contents[..RestartOffset(contents)], j, i);
    }
  }

  lemma AllEarlier(lt: (seq<Byte>, seq<Byte>) -> bool, pairs: seq<Pair>, target: seq<Byte>, j: nat)
    requires Increasing(lt, pairs) && (j > 0 ==> j < |pairs| && lt(pairs[j].key, target))
    ensures forall i :: 0 <= i < j ==> lt(pairs[i].key, target)
  {
  }

  /** Scanning a block from the front returns the pairs it was built from. */
  method ReadBack(lt: (seq<Byte>, seq<Byte>) -> bool, contents: seq<Byte>, ghost pairs: seq<Pair>, ghost lay: Layout) returns (out: seq<Pair>)
    requires IsBlock(contents, pairs, lay) && KeysFit(pairs) && Increasing(lt, pairs)
    ensures out == pairs
  {
    hide IsBlock, KeysFit, Increasing;
    var it := new Iter(lt, contents, pairs, lay);
    out := [];
    it.SeekToFirst();
    it.OnEntryIff();
    while it.OnEntry()
      invariant it.Valid() && fresh(it) && it.pairs == pairs && out == pairs[..it.at] && (it.OnEntry() <==> it.at < |pairs|)
      decreases |pairs| - it.at
    {
      out := out + [Pair(it.key, it.contents[it.valueAt..][..it.valueLength])];
      it.Next();
      it.OnEntryIff();
    }
  }

  lemma RestartHoldsKey(contents: seq<Byte>, pairs: seq<Pair>, lay: Layout, r: nat)
    requires IsBlock(contents, pairs, lay) && r < |lay.restarts|
    ensures |lay.shared| == |pairs| && lay.restarts[r] <= |pairs| && (lay.restarts[r] < |pairs| ==> lay.shared[lay.restarts[r]] == 0)
  {
  }

  lemma OffsetsBelow(contents: seq<Byte>, pairs: seq<Pair>, lay: Layout, j: nat)
    requires IsBlock(contents, pairs, lay) && j <= |pairs|
    ensures |lay.offsets| == |pairs| + 1 && (lay.offsets[j] < RestartOffset(contents) <==> j < |pairs|) && lay.offsets[j] <= RestartOffset(contents)
  {
    OffsetsGrow(pairs, lay, contents[..RestartOffset(contents)], j, |pairs|);
  }

  lemma SharesWithPrevious(contents: seq<Byte>, pairs: seq<Pair>, lay: Layout, j: nat)
    requires IsBlock(contents, pairs, lay) && 0 < j < |pairs|
    ensures |lay.shared| == |pairs| && lay.shared[j] <= |pairs[j].key| && lay.shared[j] <= |pairs[j - 1].key|
    ensures pairs[j].key[..lay.shared[j]] == pairs[j - 1].key[..lay.shared[j]]
  {
    assert EntryOk(pairs, lay, contents[..RestartOffset(contents)], j);
  }
}
