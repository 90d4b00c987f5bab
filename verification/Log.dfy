/**
The write-ahead log: records cut into checksummed fragments that never cross a 32 KB block,
and the reader that recovers them from a file a crash may have cut anywhere.
*/
module Log {
  import opened Common
  import opened Crc

  const BLOCK_SIZE: nat := 32768
  const HEADER_SIZE: nat := 7

  /** kFullType .. kLastType; 0 is reserved for preallocated files. */
  const FULL: nat := 1
  const FIRST: nat := 2
  const MIDDLE: nat := 3
  const LAST: nat := 4

  // ----- the format -----

  function BlockEnd(p: nat): nat {
    p - p % BLOCK_SIZE + BLOCK_SIZE
  }

  /** Where the header of a fragment written at `p` goes: never into a tail too small for it. */
  function HeaderPos(p: nat): nat {
    if BlockEnd(p) - p < HEADER_SIZE then BlockEnd(p) else p
  }

  /** Payload bytes left in the block after a header at `q`. */
  function Avail(q: nat): int {
    BlockEnd(q) - q - HEADER_SIZE
  }

  function RecordType(begin: bool, end: bool): nat {
    if begin && end then FULL else if begin then FIRST else if end then LAST else MIDDLE
  }

  function Header(t: nat, payload: seq<Byte>): (h: seq<Byte>)
    requires t < 256 && |payload| < 65536
    ensures |h| == HEADER_SIZE
  {
    EncodeFixed32(Mask(Extend(Value([t]), payload))) +
    [|payload| % 256, |payload| / 256, t]
  }

  function Zeros(n: nat): (z: seq<Byte>)
    ensures |z| == n
  {
    seq(n, _ => 0)
  }

  /** The physical record at `p`: trailer fill, header, payload. */
  function Physical(p: nat, t: nat, payload: seq<Byte>): (b: seq<Byte>)
    requires t < 256 && |payload| < 65536
    ensures |b| == HeaderPos(p) - p + HEADER_SIZE + |payload|
  {
    Zeros(HeaderPos(p) - p) + Header(t, payload) + payload
  }

  /** Bytes that the first fragment of `data` takes when written at `p`. */
  function FragmentLength(p: nat, data: seq<Byte>): (n: nat)
    ensures n <= |data| && n < 65536
    ensures HeaderPos(p) % BLOCK_SIZE + HEADER_SIZE + n <= BLOCK_SIZE
  {
    var avail := Avail(HeaderPos(p));
    if |data| < avail then |data| else avail
  }

  function FragmentEnd(p: nat, data: seq<Byte>): nat {
    HeaderPos(p) + HEADER_SIZE + FragmentLength(p, data)
  }

  /** A fragment may be empty, but then the next one starts a fresh block. */
  function Fuel(p: nat): nat {
    if Avail(HeaderPos(p)) == 0 then 1 else 0
  }

  /** All the bytes that a record, or the rest of one, appends at position `p`. */
  function Encode(p: nat, data: seq<Byte>, begin: bool): seq<Byte>
    decreases |data|, Fuel(p), 1
  {
    FirstPhysical(p, data, begin) + Remainder(p, data)
  }

  function FirstPhysical(p: nat, data: seq<Byte>, begin: bool): (b: seq<Byte>)
    ensures p + |b| == FragmentEnd(p, data)
  {
    var n := FragmentLength(p, data);
    Physical(p, RecordType(begin, |data| == n), data[..n])
  }

  /** What is left to append after the first fragment. */
  function Remainder(p: nat, data: seq<Byte>): seq<Byte>
    decreases |data|, Fuel(p), 0
  {
    var n := FragmentLength(p, data);
    if |data| == n then [] else Encode(FragmentEnd(p, data), data[n..], false)
  }

  function EncodeAll(p: nat, records: seq<seq<Byte>>): seq<Byte>
    decreases records
  {
    if records == [] then []
    else
      var first := Encode(p, records[0], true);
      first + EncodeAll(p + |first|, records[1..])
  }

  /** A fragment may be empty, but never two in a row. */
  lemma FuelDrops(p: nat, data: seq<Byte>)
    requires data != [] && FragmentLength(p, data) == 0
    ensures Fuel(FragmentEnd(p, data)) < Fuel(p)
  {
  }

  // ----- where a fragment goes depends only on the offset inside the block -----

  lemma SameInBlock(p: nat, q: nat, data: seq<Byte>, begin: bool)
    requires p % BLOCK_SIZE == q % BLOCK_SIZE
    ensures HeaderPos(p) - p == HeaderPos(q) - q && FragmentLength(p, data) == FragmentLength(q, data) && Fuel(p) == Fuel(q)
    ensures FragmentEnd(p, data) - p == FragmentEnd(q, data) - q
    ensures FragmentEnd(p, data) % BLOCK_SIZE == FragmentEnd(q, data) % BLOCK_SIZE
    ensures FirstPhysical(p, data, begin) == FirstPhysical(q, data, begin)
  {
    hide Header;
    assert BlockEnd(p) - p == BlockEnd(q) - q;
    SameRemainder(p, q, FragmentEnd(p, data) - p);
  }

  lemma SameRemainder(p: nat, q: nat, d: nat)
    requires p % BLOCK_SIZE == q % BLOCK_SIZE
    ensures (p + d) % BLOCK_SIZE == (q + d) % BLOCK_SIZE
  {
  }

  lemma {:induction false} EncodeCongruent(p: nat, q: nat, data: seq<Byte>, begin: bool)
    requires p % BLOCK_SIZE == q % BLOCK_SIZE
    ensures Encode(p, data, begin) == Encode(q, data, begin)
    decreases |data|, Fuel(p)
  {
    hide FirstPhysical, HeaderPos, BlockEnd, Avail, FragmentEnd, FragmentLength, Fuel;
    SameInBlock(p, q, data, begin);
    var n := FragmentLength(p, data);
    if |data| != n {
      if n == 0 {
        FuelDrops(p, data);
      }
      EncodeCongruent(FragmentEnd(p, data), FragmentEnd(q, data), data[n..], false);
    }
  }

  // ----- what the writer leaves behind when the file may fail -----

  /**
  What the file does with the two writes of one fragment, the fill of the trailer before it and
  the header with its payload: None if it works, else how many of its bytes arrived.
  */
  datatype Fate = Fate(fill: Option<nat>, body: Option<nat>)

  function Landed(bytes: seq<Byte>, fate: Option<nat>): seq<Byte> {
    if fate.None? || fate.value > |bytes| then bytes else bytes[..fate.value]
  }

  /** Files work unless told otherwise. */
  function First(fates: seq<Fate>): Fate {
    if fates == [] then Fate(None, None) else fates[0]
  }

  function Later(fates: seq<Fate>): seq<Fate> {
    if fates == [] then [] else fates[1..]
  }

  /** The bytes that arrived, the writer's offset, the status it returns, and whether any write failed. */
  datatype Written = Written(bytes: seq<Byte>, offset: nat, ok: bool, faulty: bool)

  function FragmentBody(o: nat, data: seq<Byte>, begin: bool): seq<Byte> {
    var n := FragmentLength(o, data);
    Header(RecordType(begin, |data| == n), data[..n]) + data[..n]
  }

  /** The writer's offset after a fragment, whether or not the fragment arrived. */
  function OffsetAfter(o: nat, data: seq<Byte>): (e: nat)
    ensures e <= BLOCK_SIZE && e % BLOCK_SIZE == FragmentEnd(o, data) % BLOCK_SIZE
  {
    HeaderPos(o) % BLOCK_SIZE + HEADER_SIZE + FragmentLength(o, data)
  }

  function FragmentLands(o: nat, data: seq<Byte>, begin: bool, fate: Fate): seq<Byte> {
    Landed(Zeros(HeaderPos(o) - o), fate.fill) + Landed(FragmentBody(o, data, begin), fate.body)
  }

  /**
  Writing a record, or the rest of one, from block offset `o`. The loop stops at the first
  fragment that fails; a failed fill is not noticed.
  */
  function Writing(o: nat, data: seq<Byte>, begin: bool, fates: seq<Fate>): (w: Written)
    ensures w.offset <= BLOCK_SIZE
    decreases |data|, Fuel(o)
  {
    var n, fate, e := FragmentLength(o, data), First(fates), OffsetAfter(o, data);
    var here := FragmentLands(o, data, begin, fate);
    if fate.body.Some? || |data| == n then Written(here, e, fate.body.None?, fate != Fate(None, None))
    else
      var w := Writing(e, data[n..], false, Later(fates));
      Written(here + w.bytes, w.offset, w.ok, w.faulty || fate.fill.Some?)
  }

  /** When nothing fails the writer appends exactly the encoding and stays in step with the file. */
  lemma {:induction false} WritingWorks(p: nat, o: nat, data: seq<Byte>, begin: bool, fates: seq<Fate>)
    requires p % BLOCK_SIZE == o % BLOCK_SIZE && !Writing(o, data, begin, fates).faulty
    ensures Writing(o, data, begin, fates).ok && Writing(o, data, begin, fates).bytes == Encode(p, data, begin)
    ensures Writing(o, data, begin, fates).offset % BLOCK_SIZE == (p + |Encode(p, data, begin)|) % BLOCK_SIZE
    decreases |data|, Fuel(o)
  {
    hide HeaderPos, BlockEnd, Avail, FragmentLength, Fuel, Header;
    SameInBlock(p, o, data, begin);
    FragmentParts(o, data, begin);
    var n, e := FragmentLength(o, data), OffsetAfter(o, data);
    if |data| != n {
      if n == 0 {
        NoTwoEmpty(o, data);
      }
      WritingWorks(FragmentEnd(p, data), e, data[n..], false, Later(fates));
    } else {
      assert Encode(p, data, begin) == FirstPhysical(p, data, begin);
    }
  }

  lemma NoTwoEmpty(o: nat, data: seq<Byte>)
    requires data != [] && FragmentLength(o, data) == 0
    ensures Fuel(OffsetAfter(o, data)) < Fuel(o)
  {
  }

  lemma FragmentParts(o: nat, data: seq<Byte>, begin: bool)
    ensures Zeros(HeaderPos(o) - o) + FragmentBody(o, data, begin) == FirstPhysical(o, data, begin)
    ensures FragmentLands(o, data, begin, Fate(None, None)) == FirstPhysical(o, data, begin)
  {
    hide Header;
  }

  // ----- the writer -----

  class Writer {
    var dest: seq<Byte>
    var blockOffset: nat

    ghost predicate Valid()
      reads this
    {
      blockOffset <= BLOCK_SIZE
    }

    constructor ()
      ensures Valid() && dest == [] && blockOffset == 0
    {
      dest, blockOffset := [], 0;
    }

    /** Header, payload and the flush of both; the offset moves on even if they do not arrive. */
    method EmitPhysicalRecord(t: nat, payload: seq<Byte>, fate: Option<nat>) returns (ok: bool)
      requires Valid() && t < 256 && blockOffset + HEADER_SIZE + |payload| <= BLOCK_SIZE
      modifies this
      ensures Valid() && dest == old(dest) + Landed(Header(t, payload) + payload, fate) && (ok <==> fate.None?)
      ensures blockOffset == old(blockOffset) + HEADER_SIZE + |payload|
    {
      hide Extend, Mask, EncodeFixed32, Value;
      var crc := Mask(Extend(Value([t]), payload));
      var buf := EncodeFixed32(crc) + [|payload| % 256, |payload| / 256, t];
      dest := dest + Landed(buf + payload, fate);
      ok := fate.None?;
      blockOffset := blockOffset + HEADER_SIZE + |payload|;
    }

    /** Fills a tail too small for a header and starts a new block; the status of the fill is ignored. */
    method SwitchBlock(fate: Option<nat>)
      requires Valid()
      modifies this
      ensures Valid() && dest == old(dest) + Landed(Zeros(HeaderPos(old(blockOffset)) - old(blockOffset)), fate)
      ensures blockOffset == HeaderPos(old(blockOffset)) % BLOCK_SIZE && blockOffset + HEADER_SIZE <= BLOCK_SIZE
    {
      var leftover := BLOCK_SIZE - blockOffset;
      if leftover < HEADER_SIZE {
        if leftover > 0 {
          dest := dest + Landed(Zeros(leftover), fate);
        }
        blockOffset := 0;
      }
    }

    /**
    Refines `Writing`: with a file that works it appends exactly the encoding of the record, and
    it terminates even on empty fragments.
    */
    method AddRecord(data: seq<Byte>, fates: seq<Fate>) returns (ok: bool)
      requires Valid()
      modifies this
      ensures Valid()
      ensures var w := Writing(old(blockOffset), data, true, fates);
              dest == old(dest) + w.bytes && blockOffset == w.offset && ok == w.ok
    {
      hide FragmentLands, OffsetAfter, HeaderPos, FragmentLength, Fuel, Avail;
      var left, begin, rest, more := data, true, fates, true;
      ghost var goal, start := Writing(blockOffset, data, true, fates), dest;
      ok := true;
      while more
        invariant Valid()
        invariant more ==> Ahead(start, goal, left, begin, rest)
        invariant !more ==> dest == start + goal.bytes && blockOffset == goal.offset && ok == goal.ok
        decreases more, |left|, Fuel(blockOffset)
      {
        if left != [] && FragmentLength(blockOffset, left) == 0 {
          NoTwoEmpty(blockOffset, left);
        }
        ok, left := AddFragment(left, begin, First(rest), rest, start, goal);
        begin, rest := false, Later(rest);
        more := ok && |left| > 0;
      }
    }

    /** What is written and what the rest of the loop will write make up the goal. */
    ghost predicate Ahead(start: seq<Byte>, goal: Written, left: seq<Byte>, begin: bool, fates: seq<Fate>)
      reads this
    {
      var w := Writing(blockOffset, left, begin, fates);
      start + goal.bytes == dest + w.bytes && goal.offset == w.offset && goal.ok == w.ok
    }

    /** One turn of the loop: the next fragment, and what is left to write. */
    method AddFragment(left: seq<Byte>, begin: bool, fate: Fate, ghost fates: seq<Fate>, ghost start: seq<Byte>, ghost goal: Written)
        returns (ok: bool, left': seq<Byte>)
      requires Valid() && fate == First(fates) && Ahead(start, goal, left, begin, fates)
      modifies this
      ensures Valid() && (ok <==> fate.body.None?)
      ensures left' == left[FragmentLength(old(blockOffset), left)..] && blockOffset == OffsetAfter(old(blockOffset), left)
      ensures if ok && |left'| > 0 then Ahead(start, goal, left', false, Later(fates))
              else dest == start + goal.bytes && blockOffset == goal.offset && ok == goal.ok
    {
      hide Header, Writing, BlockEnd;
      ghost var o, before := blockOffset, dest;
      SwitchBlock(fate.fill);
      var avail := BLOCK_SIZE - blockOffset - HEADER_SIZE;
      AvailIs(o, blockOffset);
      var n := if |left| < avail then |left| else avail;
      var end := |left| == n;
      ok := EmitPhysicalRecord(RecordType(begin, end), left[..n], fate.body);
      left' := left[n..];
      assert dest == before + FragmentLands(o, left, begin, fate);
      WritingStep(o, left, begin, fates);
      if ok && |left'| > 0 {
        ConcatAssoc(before, FragmentLands(o, left, begin, fate), Writing(blockOffset, left', false, Later(fates)).bytes);
      }
    }
  }

  lemma AvailIs(o: nat, b: nat)
    requires b == HeaderPos(o) % BLOCK_SIZE
    ensures Avail(HeaderPos(o)) == BLOCK_SIZE - b - HEADER_SIZE
  {
  }

  /** One turn of the loop in terms of `Writing`. */
  lemma WritingStep(o: nat, left: seq<Byte>, begin: bool, fates: seq<Fate>)
    ensures
      var w, n, e := Writing(o, left, begin, fates), FragmentLength(o, left), OffsetAfter(o, left);
      var here := FragmentLands(o, left, begin, First(fates));
      if First(fates).body.None? && n < |left| then
        var v := Writing(e, left[n..], false, Later(fates));
        w.bytes == here + v.bytes && w.offset == v.offset && w.ok == v.ok
      else
        w.bytes == here && w.offset == e && w.ok == First(fates).body.None?
  {
    hide FragmentLands, FragmentLength, HeaderPos, Fuel, OffsetAfter, FragmentEnd;
  }

  // ----- what one physical read yields -----

  datatype PhysicalRead =
    | Eof
    | Bad(badNext: nat, reported: bool)
    | Fragment(t: nat, payload: seq<Byte>, next: nat)

  function Min(a: nat, b: nat): nat {
    if a < b then a else b
  }

  function LengthField(header: seq<Byte>): nat
    requires |header| == HEADER_SIZE
  {
    var lo: int, hi: int := header[4], header[5];
    lo + hi * 256
  }

  predicate ChecksumOk(header: seq<Byte>, payload: seq<Byte>)
    requires |header| == HEADER_SIZE
  {
    Value(header[6..] + payload) == Unmask(DecodeFixed32(header[..4]))
  }

  /** Parsing the bytes of one block from position `p` on; `atEof` when the file ends inside the block. */
  function ParseBuffer(buffer: seq<Byte>, p: nat, atEof: bool): (r: PhysicalRead)
    requires |buffer| >= HEADER_SIZE
    ensures r.Bad? ==> r.badNext == p + |buffer|
    ensures r.Fragment? ==> p < r.next <= p + |buffer| && r.t < 256
  {
    var header := buffer[..HEADER_SIZE];
    var length := LengthField(header);
    if HEADER_SIZE + length > |buffer| then
      if atEof then Eof else Bad(p + |buffer|, true)
    else if header[6] == 0 && length == 0 then Bad(p + |buffer|, false)
    else
      var payload := buffer[HEADER_SIZE..HEADER_SIZE + length];
      if !ChecksumOk(header, payload) then Bad(p + |buffer|, true)
      else Fragment(header[6], payload, p + HEADER_SIZE + length)
  }

  /** ReadPhysicalRecord as a function of the file and the position of the next unread byte. */
  function ReadPhysical(file: seq<Byte>, p: nat): (r: PhysicalRead)
    requires p <= |file|
    ensures r.Bad? ==> p < r.badNext <= |file|
    ensures r.Fragment? ==> p < r.next <= |file| && r.t < 256
    decreases |file| - p
  {
    var limit := Min(|file|, BlockEnd(p));
    if limit - p < HEADER_SIZE then
      if BlockEnd(p) <= |file| then ReadPhysical(file, BlockEnd(p)) else Eof
    else ParseBuffer(file[p..limit], p, |file| < BlockEnd(p))
  }

  // ----- fragments survive, truncated ones end the file -----

  lemma HeaderParses(t: nat, payload: seq<Byte>)
    requires 0 < t < 256 && |payload| < 65536
    ensures LengthField(Header(t, payload)) == |payload|
    ensures Header(t, payload)[6] == t
    ensures ChecksumOk(Header(t, payload), payload)
  {
    var h := Header(t, payload);
    var crc := Extend(Value([t]), payload);
    assert h[..4] == EncodeFixed32(Mask(crc));
    Fixed32RoundTrip(Mask(crc));
    UnmaskMask(crc);
    assert h[6..] == [t];
    ExtendConcat(0, [t], payload);
  }

  /** The file holds the physical record written at `p`. */
  ghost predicate HoldsAt(file: seq<Byte>, p: nat, t: nat, payload: seq<Byte>)
    requires 0 < t < 256 && |payload| < 65536
  {
    var q := HeaderPos(p);
    && q % BLOCK_SIZE + HEADER_SIZE + |payload| <= BLOCK_SIZE
    && q + HEADER_SIZE + |payload| <= |file|
    && file[q..q + HEADER_SIZE] == Header(t, payload)
    && file[q + HEADER_SIZE..q + HEADER_SIZE + |payload|] == payload
  }

  lemma WholeFragmentReads(file: seq<Byte>, p: nat, t: nat, payload: seq<Byte>)
    requires 0 < t < 256 && |payload| < 65536 && HoldsAt(file, p, t, payload)
    ensures ReadPhysical(file, p) == Fragment(t, payload, HeaderPos(p) + HEADER_SIZE + |payload|)
  {
    hide Header, LengthField, ChecksumOk;
    var q := HeaderPos(p);
    HeaderParses(t, payload);
    if q != p {
      assert ReadPhysical(file, p) == ReadPhysical(file, q);
    }
    assert q + HEADER_SIZE + |payload| <= BlockEnd(q);
    var limit := Min(|file|, BlockEnd(q));
    var buffer := file[q..limit];
    SliceOfSlice(file, q, limit, 0, HEADER_SIZE);
    SliceOfSlice(file, q, limit, HEADER_SIZE, HEADER_SIZE + |payload|);
    assert ReadPhysical(file, q) == ParseBuffer(buffer, q, |file| < BlockEnd(q));
  }

  /** The file ends inside the physical record written at `p`. */
  ghost predicate CutInside(file: seq<Byte>, p: nat, t: nat, payload: seq<Byte>)
    requires 0 < t < 256 && |payload| < 65536
  {
    var q := HeaderPos(p);
    && q % BLOCK_SIZE + HEADER_SIZE + |payload| <= BLOCK_SIZE
    && p <= |file| < q + HEADER_SIZE + |payload|
    && (q + HEADER_SIZE <= |file| ==> file[q..q + HEADER_SIZE] == Header(t, payload))
  }

  lemma CutFragmentIsEof(file: seq<Byte>, p: nat, t: nat, payload: seq<Byte>)
    requires 0 < t < 256 && |payload| < 65536 && CutInside(file, p, t, payload)
    ensures ReadPhysical(file, p) == Eof
  {
    hide Header, LengthField, ChecksumOk;
    var q := HeaderPos(p);
    HeaderParses(t, payload);
    if q != p && q <= |file| {
      assert ReadPhysical(file, p) == ReadPhysical(file, q);
    }
    if q + HEADER_SIZE <= |file| {
      SliceOfSlice(file, q, |file|, 0, HEADER_SIZE);
    }
  }

  // ----- what reading a logical record yields -----

  /** The result of ReadRecord: a record or the end, and how many drops were reported on the way. */
  datatype RecordRead = Done(record: seq<Byte>, next: nat, drops: nat) | End(endDrops: nat)

  function AddDrops(n: nat, r: RecordRead): RecordRead {
    match r
    case Done(record, next, drops) => Done(record, next, drops + n)
    case End(drops) => End(drops + n)
  }

  function Count(b: bool): nat {
    if b then 1 else 0
  }

  /** ReadRecord from position `p`, having collected `scratch` when inside a fragmented record. */
  function RecordFrom(file: seq<Byte>, p: nat, inside: bool, scratch: seq<Byte>): RecordRead
    requires p <= |file|
    decreases |file| - p
  {
    match ReadPhysical(file, p)
    case Eof => End(0)
    case Bad(next, reported) => AddDrops(Count(reported) + Count(inside), RecordFrom(file, next, false, []))
    case Fragment(t, payload, next) =>
      if t == FULL then Done(payload, next, Count(inside && scratch != []))
      else if t == FIRST then AddDrops(Count(inside && scratch != []), RecordFrom(file, next, true, payload))
      else if t == MIDDLE then
        if inside then RecordFrom(file, next, true, scratch + payload)
        else AddDrops(1, RecordFrom(file, next, false, scratch))
      else if t == LAST then
        if inside then Done(scratch + payload, next, 0)
        else AddDrops(1, RecordFrom(file, next, false, scratch))
      else AddDrops(1, RecordFrom(file, next, false, []))
  }

  lemma RecordFromProgress(file: seq<Byte>, p: nat, inside: bool, scratch: seq<Byte>)
    requires p <= |file|
    ensures RecordFrom(file, p, inside, scratch).Done? ==> p < RecordFrom(file, p, inside, scratch).next <= |file|
    decreases |file| - p
  {
    hide ReadPhysical;
  }

  /** Reading until the end: every record in order, and the number of reported drops. */
  function ReadAll(file: seq<Byte>, p: nat): (seq<seq<Byte>>, nat)
    requires p <= |file|
    decreases |file| - p
  {
    RecordFromProgress(file, p, false, []);
    match RecordFrom(file, p, false, [])
    case End(drops) => ([], drops)
    case Done(record, next, drops) =>
      var (rest, more) := ReadAll(file, next);
      ([record] + rest, drops + more)
  }

  // ----- the crash theorem -----

  /** As far as the file reaches, it agrees with `bytes` written at `p`. */
  ghost predicate PrefixAt(file: seq<Byte>, p: nat, bytes: seq<Byte>) {
    p <= |file| && forall i :: 0 <= i < |bytes| && p + i < |file| ==> file[p + i] == bytes[i]
  }

  lemma PrefixSplit(file: seq<Byte>, p: nat, a: seq<Byte>, b: seq<Byte>)
    requires PrefixAt(file, p, a + b)
    ensures PrefixAt(file, p, a)
    ensures p + |a| <= |file| ==> PrefixAt(file, p + |a|, b)
  {
    forall i | 0 <= i < |a| && p + i < |file| ensures file[p + i] == a[i] {
      assert (a + b)[i] == a[i];
    }
    forall i | 0 <= i < |b| && p + |a| + i < |file| ensures file[p + |a| + i] == b[i] {
      assert (a + b)[|a| + i] == b[i] && file[p + (|a| + i)] == (a + b)[|a| + i];
    }
  }

  lemma PrefixWhole(file: seq<Byte>, p: nat, a: seq<Byte>)
    requires PrefixAt(file, p, a) && p + |a| <= |file|
    ensures file[p..p + |a|] == a
  {
  }

  lemma FragmentOnDisk(file: seq<Byte>, p: nat, t: nat, payload: seq<Byte>)
    requires 0 < t < 256 && |payload| < 65536 && HeaderPos(p) % BLOCK_SIZE + HEADER_SIZE + |payload| <= BLOCK_SIZE
    requires PrefixAt(file, p, Physical(p, t, payload))
    ensures if HeaderPos(p) + HEADER_SIZE + |payload| <= |file| then HoldsAt(file, p, t, payload) else CutInside(file, p, t, payload)
  {
    hide Header, HeaderPos;
    var q := HeaderPos(p);
    var z, h := Zeros(q - p), Header(t, payload);
    PrefixSplit(file, p, z + h, payload);
    PrefixSplit(file, p, z, h);
    if q + HEADER_SIZE <= |file| {
      PrefixWhole(file, q, h);
    }
    if q + HEADER_SIZE + |payload| <= |file| {
      PrefixWhole(file, q + HEADER_SIZE, payload);
    }
  }

  /** One written fragment: read back whole, or the end of the file. */
  lemma ReadsFragment(file: seq<Byte>, p: nat, data: seq<Byte>, begin: bool)
    requires PrefixAt(file, p, FirstPhysical(p, data, begin))
    ensures
      var n := FragmentLength(p, data);
      ReadPhysical(file, p) ==
        if FragmentEnd(p, data) <= |file| then Fragment(RecordType(begin, |data| == n), data[..n], FragmentEnd(p, data)) else Eof
  {
    var n := FragmentLength(p, data);
    var t := RecordType(begin, |data| == n);
    FragmentOnDisk(file, p, t, data[..n]);
    if FragmentEnd(p, data) <= |file| {
      WholeFragmentReads(file, p, t, data[..n]);
    } else {
      CutFragmentIsEof(file, p, t, data[..n]);
    }
  }

  /** A record, or the rest of one, is read back exactly when all its bytes survived. */
  lemma {:induction false} ReadsRecord(file: seq<Byte>, p: nat, data: seq<Byte>, begin: bool, scratch: seq<Byte>)
    requires PrefixAt(file, p, Encode(p, data, begin)) && (begin ==> scratch == [])
    ensures RecordFrom(file, p, !begin, scratch) ==
              if p + |Encode(p, data, begin)| <= |file| then Done(scratch + data, p + |Encode(p, data, begin)|, 0) else End(0)
    decreases |data|, Fuel(p)
  {
    hide ReadPhysical, FirstPhysical, PrefixAt, FragmentLength, FragmentEnd, Fuel;
    var n := FragmentLength(p, data);
    var e := FragmentEnd(p, data);
    PrefixSplit(file, p, FirstPhysical(p, data, begin), Remainder(p, data));
    ReadsFragment(file, p, data, begin);
    if e <= |file| {
      if |data| == n {
        assert data[..n] == data;
      } else {
        if n == 0 {
          FuelDrops(p, data);
        }
        ReadsRecord(file, e, data[n..], false, scratch + data[..n]);
        assert scratch + data[..n] + data[n..] == scratch + data;
        assert [] + data[..n] == data[..n];
      }
    }
  }

  /** How many leading records lie wholly within the first `size` bytes. */
  function Whole(p: nat, records: seq<seq<Byte>>, size: nat): (k: nat)
    ensures k <= |records|
    decreases records
  {
    if records == [] || p + |Encode(p, records[0], true)| > size then 0
    else 1 + Whole(p + |Encode(p, records[0], true)|, records[1..], size)
  }

  lemma NothingAtEnd(file: seq<Byte>)
    ensures RecordFrom(file, |file|, false, []) == End(0)
  {
    assert ReadPhysical(file, |file|) == Eof;
  }

  lemma {:induction false} ReadsAll(file: seq<Byte>, p: nat, records: seq<seq<Byte>>)
    requires PrefixAt(file, p, EncodeAll(p, records)) && |file| <= p + |EncodeAll(p, records)|
    ensures ReadAll(file, p) == (records[..Whole(p, records, |file|)], 0)
    decreases records
  {
    if records == [] {
      NothingAtEnd(file);
    } else {
      ReadsNext(file, p, records);
    }
  }

  lemma {:induction false} ReadsNext(file: seq<Byte>, p: nat, records: seq<seq<Byte>>)
    requires records != [] && PrefixAt(file, p, EncodeAll(p, records)) && |file| <= p + |EncodeAll(p, records)|
    ensures ReadAll(file, p) == (records[..Whole(p, records, |file|)], 0)
    decreases records, 0
  {
    hide Encode, RecordFrom, ReadPhysical, PrefixAt;
    var first := Encode(p, records[0], true);
    var e := p + |first|;
    PrefixSplit(file, p, first, EncodeAll(e, records[1..]));
    ReadsRecord(file, p, records[0], true, []);
    assert [] + records[0] == records[0];
    if e <= |file| {
      ReadsAll(file, e, records[1..]);
      var k := Whole(e, records[1..], |file|);
      assert records[..k + 1] == [records[0]] + records[1..][..k];
    }
  }

  /** `Whole` counts the records whose encoding ends at or before the cut. */
  lemma {:induction false} WholeIsExact(p: nat, records: seq<seq<Byte>>, size: nat)
    requires p <= size
    ensures
      var k := Whole(p, records, size);
      && p + |EncodeAll(p, records[..k])| <= size
      && (k < |records| ==> size < p + |EncodeAll(p, records[..k + 1])|)
    decreases records
  {
    hide Encode;
    var k := Whole(p, records, size);
    if records != [] {
      var e := p + |Encode(p, records[0], true)|;
      if e <= size {
        WholeIsExact(e, records[1..], size);
        assert records[..k][1..] == records[1..][..k - 1];
        if k < |records| {
          assert records[..k + 1][1..] == records[1..][..k];
        }
      } else {
        assert records[..1] == [records[0]] && records[..1][1..] == [];
      }
    }
  }

  /**
  Recovery after a crash: cut the written file at any byte, and the reader returns exactly
  the records that lie wholly before the cut, in order, and reports no corruption.
  */
  lemma CrashRecovery(records: seq<seq<Byte>>, size: nat)
    requires size <= |EncodeAll(0, records)|
    ensures exists k :: 0 <= k <= |records| && ReadAll(EncodeAll(0, records)[..size], 0) == (records[..k], 0)
              && |EncodeAll(0, records[..k])| <= size && (k < |records| ==> size < |EncodeAll(0, records[..k + 1])|)
  {
    hide ReadAll, EncodeAll;
    var file := EncodeAll(0, records)[..size];
    ReadsAll(file, 0, records);
    WholeIsExact(0, records, size);
  }

  // ----- the reader -----

  class Reader {
    const file: seq<Byte>
    var endOfBuffer: nat
    var buffer: seq<Byte>
    var eof: bool
    var drops: nat

    ghost predicate Valid()
      reads this`endOfBuffer, this`buffer, this`eof
    {
      && |buffer| <= endOfBuffer <= |file| && buffer == file[Pos()..endOfBuffer]
      && (eof ==> endOfBuffer == |file| < BlockEnd(Pos()))
      && (!eof ==> endOfBuffer % BLOCK_SIZE == 0 && (buffer != [] ==> endOfBuffer == BlockEnd(Pos())))
    }

    /** File position of the next unread byte. */
    ghost function Pos(): int
      reads this`endOfBuffer, this`buffer
    {
      endOfBuffer - |buffer|
    }

    lemma PosInFile()
      requires Valid()
      ensures 0 <= Pos() <= |file|
    {
    }

    constructor (file: seq<Byte>)
      ensures Valid() && this.file == file && Pos() == 0 && drops == 0
    {
      this.file := file;
      endOfBuffer, buffer, eof, drops := 0, [], false, 0;
      new;
      assert file[0..0] == [];
    }

    /** Reads the next block once the buffer holds less than a header; false at the end of the file. */
    method Refill() returns (more: bool)
      requires Valid()
      modifies this`endOfBuffer, this`buffer, this`eof
      ensures Valid()
      ensures more ==> |buffer| >= HEADER_SIZE && ReadPhysical(file, Pos()) == ReadPhysical(file, old(Pos()))
      ensures !more ==> ReadPhysical(file, old(Pos())) == Eof
    {
      hide ReadPhysical;
      while |buffer| < HEADER_SIZE
        invariant Valid()
        invariant ReadPhysical(file, Pos()) == ReadPhysical(file, old(Pos()))
        decreases !eof, |file| - endOfBuffer
      {
        ghost var p := Pos();
        if eof {
          ShortTail(file, p);
          buffer := [];
          return false;
        }
        var limit := Min(|file|, endOfBuffer + BLOCK_SIZE);
        BlockEndAligned(endOfBuffer);
        SkippedTrailer(file, p, endOfBuffer);
        buffer := file[endOfBuffer..limit];
        eof := |buffer| < BLOCK_SIZE;
        endOfBuffer := limit;
      }
      more := true;
    }

    /** buffer_.clear() */
    method ClearBuffer()
      requires Valid()
      modifies this`buffer
      ensures Valid() && buffer == [] && Pos() == endOfBuffer
    {
      BlockEndIsAligned(endOfBuffer);
      RestOfBlock(Pos(), endOfBuffer, endOfBuffer - Pos());
      buffer := [];
    }

    /** buffer_.remove_prefix(n) */
    method RemovePrefix(n: nat)
      requires Valid() && 0 < n <= |buffer|
      modifies this`buffer
      ensures Valid() && Pos() == old(Pos()) + n
    {
      RestOfBlock(Pos(), endOfBuffer, n);
      buffer := buffer[n..];
    }

    /** ReadPhysicalRecord refines its functional reading. */
    method ReadPhysicalRecord() returns (r: PhysicalRead)
      requires Valid()
      modifies this
      ensures Valid() && 0 <= Pos() <= |file| && r == ReadPhysical(file, old(Pos()))
      ensures r.Fragment? ==> Pos() == r.next
      ensures r.Bad? ==> Pos() == r.badNext
      ensures drops == old(drops) + Count(r.Bad? && r.reported)
    {
      hide ReadPhysical, LengthField, ChecksumOk, BlockEnd;
      var more := Refill();
      if !more {
        return Eof;
      }
      BufferIsBlock(file, Pos(), endOfBuffer, buffer, eof);
      var header := buffer[..HEADER_SIZE];
      var length := LengthField(header);
      if HEADER_SIZE + length > |buffer| {
        ClearBuffer();
        if !eof {
          drops := drops + 1;
          return Bad(endOfBuffer, true);
        }
        return Eof;
      }
      if header[6] == 0 && length == 0 {
        ClearBuffer();
        return Bad(endOfBuffer, false);
      }
      var payload := buffer[HEADER_SIZE..HEADER_SIZE + length];
      if !ChecksumOk(header, payload) {
        ClearBuffer();
        drops := drops + 1;
        return Bad(endOfBuffer, true);
      }
      RemovePrefix(HEADER_SIZE + length);
      r := Fragment(header[6], payload, endOfBuffer - |buffer|);
    }

    /** The reader is at the spec result `r`. */
    ghost predicate Reached(r: RecordRead, dropsBefore: nat, ok: bool, record: seq<Byte>)
      reads this
    {
      match r
      case Done(rec, next, d) => ok && record == rec && Pos() == next && drops == dropsBefore + d
      case End(d) => !ok && drops == dropsBefore + d
    }

    /** Reader::ReadRecord refines the functional reading of one logical record. */
    method ReadRecord() returns (ok: bool, record: seq<Byte>)
      requires Valid()
      modifies this
      ensures Valid() && Reached(RecordFrom(file, old(Pos()), false, []), old(drops), ok, record)
    {
      hide ReadPhysical, RecordFrom, Valid, AddDrops;
      PosInFile();
      var scratch: seq<Byte> := [];
      var inside, done := false, false;
      ok, record := false, [];
      ghost var goal, start := RecordFrom(file, Pos(), false, []), drops;
      AddDropsTwice(0, 0, goal);
      while !done
        invariant Valid() && 0 <= Pos() <= |file| && start <= drops && start == old(drops)
        invariant !done ==> !ok && goal == AddDrops(drops - start, RecordFrom(file, Pos(), inside, scratch))
        invariant done ==> Reached(goal, start, ok, record)
        decreases !done, |file| - Pos()
      {
        ghost var before := drops - start;
        ghost var rest := RecordFrom(file, Pos(), inside, scratch);
        RecordStep(file, Pos(), inside, scratch);
        AddDropsTwice(before, 0, rest);
        var r := ReadPhysicalRecord();
        match r {
          case Eof =>
            done := true;
          case Bad(_, _) =>
            if inside {
              drops := drops + 1;
            }
            inside, scratch := false, [];
          case Fragment(t, payload, _) =>
            if t == FULL {
              if inside && scratch != [] {
                drops := drops + 1;
              }
              ok, record, done := true, payload, true;
            } else if t == FIRST {
              if inside && scratch != [] {
                drops := drops + 1;
              }
              inside, scratch := true, payload;
            } else if t == MIDDLE {
              if !inside {
                drops := drops + 1;
              } else {
                scratch := scratch + payload;
              }
            } else if t == LAST {
              if !inside {
                drops := drops + 1;
              } else {
                ok, record, done := true, scratch + payload, true;
              }
            } else {
              drops := drops + 1;
              inside, scratch := false, [];
            }
        }
        if !done {
          AddDropsTwice(before, drops - start - before, RecordFrom(file, Pos(), inside, scratch));
        }
      }
    }
  }

  /** How one physical record moves the reading of a logical one. */
  lemma RecordStep(file: seq<Byte>, p: nat, inside: bool, scratch: seq<Byte>)
    requires p <= |file|
    ensures RecordFrom(file, p, inside, scratch) ==
            match ReadPhysical(file, p)
            case Eof => End(0)
            case Bad(next, reported) => AddDrops(Count(reported) + Count(inside), RecordFrom(file, next, false, []))
            case Fragment(t, payload, next) =>
              var lost := Count(if t == FULL || t == FIRST then inside && scratch != [] else !(inside && (t == MIDDLE || t == LAST)));
              if t == FULL || (inside && t == LAST) then
                Done(if t == FULL then payload else scratch + payload, next, lost)
              else AddDrops(lost, RecordFrom(file, next, t == FIRST || (t == MIDDLE && inside),
                if t == FIRST then payload else if inside && t == MIDDLE then scratch + payload else if t == MIDDLE || t == LAST then scratch else []))
  {
    hide ReadPhysical, BlockEnd;
  }

  lemma AddDropsTwice(m: nat, n: nat, r: RecordRead)
    ensures AddDrops(m, AddDrops(n, r)) == AddDrops(m + n, r) && AddDrops(0, r) == r
    ensures r.Done? ==> AddDrops(m, r) == Done(r.record, r.next, r.drops + m)
    ensures r.End? ==> AddDrops(m, r) == End(r.endDrops + m)
  {
  }

  lemma BlockEndAligned(q: nat)
    requires q % BLOCK_SIZE == 0
    ensures BlockEnd(q) == q + BLOCK_SIZE && (q + BLOCK_SIZE) % BLOCK_SIZE == 0
  {
  }

  lemma BlockEndIsAligned(p: nat)
    ensures p < BlockEnd(p) && BlockEnd(p) % BLOCK_SIZE == 0
  {
  }

  /** Consuming part of a block stays in the block, or reaches the start of the next. */
  lemma RestOfBlock(p: nat, end: nat, n: nat)
    requires p + n <= end
    ensures p + n < BlockEnd(p) ==> BlockEnd(p + n) == BlockEnd(p)
    ensures BlockEnd(p) <= BlockEnd(p + n)
  {
  }

  lemma ShortTail(file: seq<Byte>, p: nat)
    requires p <= |file| < BlockEnd(p) && |file| - p < HEADER_SIZE
    ensures ReadPhysical(file, p) == Eof
  {
  }

  /** Fewer than a header's bytes before a full block's end are skipped. */
  lemma SkippedTrailer(file: seq<Byte>, p: nat, q: nat)
    requires p <= q <= |file| && (q == p || (q == BlockEnd(p) && q - p < HEADER_SIZE))
    ensures ReadPhysical(file, q) == ReadPhysical(file, p)
  {
  }

  lemma BufferIsBlock(file: seq<Byte>, p: nat, end: nat, buffer: seq<Byte>, eof: bool)
    requires p + HEADER_SIZE <= end <= |file| && buffer == file[p..end]
    requires if eof then end == |file| < BlockEnd(p) else end == BlockEnd(p)
    ensures ReadPhysical(file, p) == ParseBuffer(buffer, p, eof)
  {
  }

  // ----- writing and replaying whole logs -----

  lemma {:induction false} EncodeAllSnoc(p: nat, records: seq<seq<Byte>>, last: seq<Byte>)
    ensures EncodeAll(p, records + [last]) == EncodeAll(p, records) + Encode(p + |EncodeAll(p, records)|, last, true)
    decreases records
  {
    hide Encode;
    if records == [] {
      assert records + [last] == [last] && [last][1..] == [];
    } else {
      var first := Encode(p, records[0], true);
      EncodeAllSnoc(p + |first|, records[1..], last);
      assert (records + [last])[1..] == records[1..] + [last];
    }
  }

  lemma {:induction false} NeverFaulty(o: nat, data: seq<Byte>, begin: bool)
    ensures !Writing(o, data, begin, []).faulty
    decreases |data|, Fuel(o)
  {
    hide HeaderPos, FragmentLands, Avail;
    var n := FragmentLength(o, data);
    if |data| != n {
      if n == 0 {
        NoTwoEmpty(o, data);
      }
      NeverFaulty(OffsetAfter(o, data), data[n..], false);
    }
  }

  method WriteLog(records: seq<seq<Byte>>) returns (file: seq<Byte>)
    ensures file == EncodeAll(0, records)
  {
    hide Encode, Writing;
    var w := new Writer();
    for i := 0 to |records|
      invariant w.Valid() && fresh(w) && w.dest == EncodeAll(0, records[..i])
      invariant w.blockOffset % BLOCK_SIZE == |w.dest| % BLOCK_SIZE
    {
      EncodeAllSnoc(0, records[..i], records[i]);
      assert records[..i + 1] == records[..i] + [records[i]];
      NeverFaulty(w.blockOffset, records[i], true);
      WritingWorks(|w.dest|, w.blockOffset, records[i], true, []);
      var ok := w.AddRecord(records[i], []);
    }
    assert records[..|records|] == records;
    file := w.dest;
  }

  /** Reads records until the reader reports the end, as log recovery does. */
  method ReplayLog(file: seq<Byte>) returns (records: seq<seq<Byte>>, drops: nat)
    ensures (records, drops) == ReadAll(file, 0)
  {
    hide RecordFrom, BlockEnd;
    var r := new Reader(file);
    records := [];
    var more := true;
    assert [] + ReadAll(file, 0).0 == ReadAll(file, 0).0;
    while more
      invariant r.Valid() && fresh(r) && r.file == file
      invariant ReadAll(file, 0) == if more
                then (records + ReadAll(file, r.Pos()).0, r.drops + ReadAll(file, r.Pos()).1)
                else (records, r.drops)
      decreases more, |file| - r.Pos()
    {
      ghost var before, p := records, r.Pos();
      RecordFromProgress(file, p, false, []);
      var record;
      more, record := r.ReadRecord();
      if more {
        records := records + [record];
        assert before + ([record] + ReadAll(file, r.Pos()).0) == records + ReadAll(file, r.Pos()).0;
      } else {
        assert before + [] == before;
      }
    }
    drops := r.drops;
  }
}
