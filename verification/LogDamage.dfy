/**
What the log reader makes of bytes it cannot trust. Whatever the file holds, a record that is
returned was stored with matching checksums; and a damaged byte of a written file is
reported and costs only the records around it.
*/
module LogDamage {
  import opened Common
  import opened Crc
  import opened Log
  import opened LogFaults

  // ----- one fragment -----

  /** The length and the checksum that the header bytes at `q` announce. */
  function StoredLength(file: seq<Byte>, q: nat): nat
    requires q + HEADER_SIZE <= |file|
  {
    var lo: int, hi: int := file[q + 4], file[q + 5];
    lo + 256 * hi
  }

  function StoredChecksum(file: seq<Byte>, q: nat): bv32
    requires q + HEADER_SIZE <= |file|
  {
    Unmask(DecodeFixed32(file[q..q + 4]))
  }

  /** A header at `q` whose payload fits its block and the file, and that is not the mark of unwritten space. */
  predicate Announced(file: seq<Byte>, q: nat) {
    && q + HEADER_SIZE <= Min(|file|, BlockEnd(q))
    && q + HEADER_SIZE + StoredLength(file, q) <= Min(|file|, BlockEnd(q))
    && !(StoredLength(file, q) == 0 && file[q + 6] == 0)
  }

  function StoredPayload(file: seq<Byte>, q: nat): seq<Byte>
    requires Announced(file, q)
  {
    file[q + HEADER_SIZE..q + HEADER_SIZE + StoredLength(file, q)]
  }

  /**
  Such a fragment is returned exactly when the stored checksum is that of its type and payload;
  otherwise the rest of the block is dropped and the loss reported.
  */
  lemma ChecksumDecides(file: seq<Byte>, p: nat)
    requires p <= HeaderPos(p) <= |file| && Announced(file, HeaderPos(p))
    ensures
      var q := HeaderPos(p);
      var payload := StoredPayload(file, q);
      ReadPhysical(file, p) ==
        if Value([file[q + 6]] + payload) == StoredChecksum(file, q) then Fragment(file[q + 6], payload, q + HEADER_SIZE + |payload|)
        else Bad(Min(|file|, BlockEnd(q)), true)
  {
    hide Value, Unmask, DecodeFixed32;
    var q := HeaderPos(p);
    var limit := Min(|file|, BlockEnd(q));
    var buffer := file[q..limit];
    var n := StoredLength(file, q);
    SkipToHeader(file, p);
    HeaderSlices(file, q, limit);
    SliceOfSlice(file, q, limit, HEADER_SIZE, HEADER_SIZE + n);
    assert ReadPhysical(file, q) == ParseBuffer(buffer, q, |file| < BlockEnd(q));
  }

  lemma SkipToHeader(file: seq<Byte>, p: nat)
    requires HeaderPos(p) <= |file|
    ensures ReadPhysical(file, p) == ReadPhysical(file, HeaderPos(p))
  {
    InTrailer(file, p, HeaderPos(p));
  }

  lemma HeaderSlices(file: seq<Byte>, q: nat, limit: nat)
    requires q + HEADER_SIZE <= limit <= |file|
    ensures var header := file[q..limit][..HEADER_SIZE];
            && header[..4] == file[q..q + 4] && header[6..] == [file[q + 6]] && header[6] == file[q + 6]
            && LengthField(header) == StoredLength(file, q)
  {
    var header := file[q..limit][..HEADER_SIZE];
    assert header == file[q..q + HEADER_SIZE];
    assert header[..4] == file[q..q + 4];
  }

  // ----- whatever is returned was stored -----

  /** A fragment at `q` with the checksum of its type and payload. */
  ghost predicate Stored(file: seq<Byte>, q: nat, t: nat, payload: seq<Byte>) {
    && Announced(file, q) && file[q + 6] == t && StoredPayload(file, q) == payload
    && DecodeFixed32(file[q..q + 4]) == Mask(Value([file[q + 6]] + payload))
  }

  lemma FragmentWasStored(file: seq<Byte>, p: nat)
    requires p <= |file| && ReadPhysical(file, p).Fragment?
    ensures var f := ReadPhysical(file, p);
            HeaderPos(p) <= |file| && Stored(file, HeaderPos(p), f.t, f.payload) && f.next == HeaderPos(p) + HEADER_SIZE + |f.payload|
  {
    hide Value, Mask, Unmask, DecodeFixed32;
    var q := HeaderPos(p);
    HeaderInFile(file, p);
    SkipToHeader(file, p);
    var limit := Min(|file|, BlockEnd(q));
    HeaderSlices(file, q, limit);
    assert ReadPhysical(file, q) == ParseBuffer(file[q..limit], q, |file| < BlockEnd(q));
    assert Announced(file, q);
    ChecksumDecides(file, p);
    MaskUnmask(DecodeFixed32(file[q..q + 4]));
  }

  lemma HeaderInFile(file: seq<Byte>, p: nat)
    requires p <= |file| && !ReadPhysical(file, p).Eof?
    ensures HeaderPos(p) + HEADER_SIZE <= Min(|file|, BlockEnd(HeaderPos(p)))
  {
    if BlockEnd(p) - p < HEADER_SIZE {
      BlockEndIsAligned(p);
      BlockEndAligned(BlockEnd(p));
    }
  }

  function Flat(parts: seq<seq<Byte>>): seq<Byte> {
    if parts == [] then [] else Flat(parts[..|parts| - 1]) + parts[|parts| - 1]
  }

  lemma FlatSnoc(parts: seq<seq<Byte>>, part: seq<Byte>)
    ensures Flat(parts + [part]) == Flat(parts) + part
  {
    assert (parts + [part])[..|parts|] == parts;
  }

  function EndOf(at: seq<nat>, parts: seq<seq<Byte>>, i: int): nat {
    if 0 <= i < |at| && i < |parts| then at[i] + HEADER_SIZE + |parts[i]| else 0
  }

  /** Fragments stored with the types of a record's, in order. */
  ghost predicate Typed(file: seq<Byte>, at: seq<nat>, parts: seq<seq<Byte>>, closed: bool)
    requires |at| == |parts|
  {
    forall i :: 0 <= i < |at| ==> Stored(file, at[i], RecordType(i == 0, closed && i == |at| - 1), parts[i])
  }

  /** Each starts where the one before it ends, past the trailer of its block. */
  ghost predicate Consecutive(at: seq<nat>, parts: seq<seq<Byte>>)
    requires |at| == |parts|
  {
    forall i :: 0 < i < |at| ==> at[i] == HeaderPos(EndOf(at, parts, i - 1))
  }

  /** Consecutive fragments of one record, its last one among them if `closed`. */
  ghost predicate Linked(file: seq<Byte>, at: seq<nat>, parts: seq<seq<Byte>>, closed: bool) {
    |at| == |parts| > 0 && Typed(file, at, parts, closed) && Consecutive(at, parts)
  }

  /** A record that some consecutive fragments of the file make up. */
  ghost predicate Recorded(file: seq<Byte>, record: seq<Byte>) {
    exists at, parts :: Linked(file, at, parts, true) && Flat(parts) == record
  }

  lemma LinkNext(file: seq<Byte>, at: seq<nat>, parts: seq<seq<Byte>>, p: nat, closed: bool, part: seq<Byte>)
    requires Linked(file, at, parts, false) && p == EndOf(at, parts, |at| - 1)
    requires Stored(file, HeaderPos(p), if closed then LAST else MIDDLE, part)
    ensures Linked(file, at + [HeaderPos(p)], parts + [part], closed) && Flat(parts + [part]) == Flat(parts) + part
  {
    hide Stored, Typed, Consecutive, HeaderPos, EndOf;
    FlatSnoc(parts, part);
    TypedNext(file, at, parts, HeaderPos(p), closed, part);
    ConsecutiveNext(at, parts, p, part);
  }

  lemma TypedNext(file: seq<Byte>, at: seq<nat>, parts: seq<seq<Byte>>, q: nat, closed: bool, part: seq<Byte>)
    requires |at| == |parts| > 0 && Typed(file, at, parts, false) && Stored(file, q, if closed then LAST else MIDDLE, part)
    ensures Typed(file, at + [q], parts + [part], closed)
  {
    hide Stored;
    forall i | 0 <= i < |at| + 1 ensures Stored(file, (at + [q])[i], RecordType(i == 0, closed && i == |at|), (parts + [part])[i]) {
      assert i < |at| ==> Stored(file, at[i], RecordType(i == 0, false), parts[i]);
    }
  }

  lemma ConsecutiveNext(at: seq<nat>, parts: seq<seq<Byte>>, p: nat, part: seq<Byte>)
    requires |at| == |parts| > 0 && Consecutive(at, parts) && p == EndOf(at, parts, |at| - 1)
    ensures Consecutive(at + [HeaderPos(p)], parts + [part])
  {
    hide HeaderPos;
    var at', parts' := at + [HeaderPos(p)], parts + [part];
    forall i | 0 < i < |at'| ensures at'[i] == HeaderPos(EndOf(at', parts', i - 1)) {
      assert EndOf(at', parts', i - 1) == EndOf(at, parts, i - 1);
    }
  }

  lemma LinkFirst(file: seq<Byte>, q: nat, closed: bool, part: seq<Byte>)
    requires Stored(file, q, if closed then FULL else FIRST, part)
    ensures Linked(file, [q], [part], closed) && Flat([part]) == part
  {
    hide Stored;
    FlatSnoc([], part);
    assert [] + [part] == [part];
  }

  /** What is collected inside a record. */
  ghost predicate Collected(file: seq<Byte>, p: nat, inside: bool, scratch: seq<Byte>) {
    inside ==> exists at, parts :: Linked(file, at, parts, false) && Flat(parts) == scratch && EndOf(at, parts, |at| - 1) == p
  }

  lemma {:induction false} DoneWasStored(file: seq<Byte>, p: nat, inside: bool, scratch: seq<Byte>)
    requires p <= |file| && Collected(file, p, inside, scratch)
    ensures RecordFrom(file, p, inside, scratch).Done? ==> Recorded(file, RecordFrom(file, p, inside, scratch).record)
    decreases |file| - p
  {
    hide ReadPhysical, Stored, Linked, Flat, EndOf;
    match ReadPhysical(file, p)
    case Eof =>
    case Bad(next, _) =>
      DoneWasStored(file, next, false, []);
    case Fragment(t, part, next) =>
      FragmentWasStored(file, p);
      if t == FULL {
        LinkFirst(file, HeaderPos(p), true, part);
      } else if t == FIRST {
        LinkFirst(file, HeaderPos(p), false, part);
        OneEnd(HeaderPos(p), part);
        DoneWasStored(file, next, true, part);
      } else if inside && (t == MIDDLE || t == LAST) {
        var at, parts :| Linked(file, at, parts, false) && Flat(parts) == scratch && EndOf(at, parts, |at| - 1) == p;
        LinkNext(file, at, parts, p, t == LAST, part);
        if t == MIDDLE {
          LongerEnd(file, at, parts, HeaderPos(p), part);
          DoneWasStored(file, next, true, scratch + part);
        }
      } else if t == MIDDLE || t == LAST {
        DoneWasStored(file, next, false, scratch);
      } else {
        DoneWasStored(file, next, false, []);
      }
  }

  lemma OneEnd(q: nat, part: seq<Byte>)
    ensures EndOf([q], [part], |[q]| - 1) == q + HEADER_SIZE + |part|
  {
  }

  lemma LongerEnd(file: seq<Byte>, at: seq<nat>, parts: seq<seq<Byte>>, q: nat, part: seq<Byte>)
    requires Linked(file, at, parts, false)
    ensures EndOf(at + [q], parts + [part], |at + [q]| - 1) == q + HEADER_SIZE + |part|
  {
    hide Stored;
  }

  /** Whatever the file holds, every record read is made of consecutive fragments stored with matching checksums. */
  lemma {:induction false} EveryRecordWasStored(file: seq<Byte>, p: nat)
    requires p <= |file|
    ensures forall i :: 0 <= i < |ReadAll(file, p).0| ==> Recorded(file, ReadAll(file, p).0[i])
    decreases |file| - p
  {
    hide RecordFrom, Recorded;
    RecordFromProgress(file, p, false, []);
    DoneWasStored(file, p, false, []);
    var r := RecordFrom(file, p, false, []);
    if r.Done? {
      EveryRecordWasStored(file, r.next);
      var rest := ReadAll(file, r.next).0;
      assert ReadAll(file, p).0 == [r.record] + rest;
    }
  }

  // ----- one damaged byte -----

  /** The file holds `bytes` at `p`, but for byte `x`, which is `b`. */
  ghost predicate HoldsBut(file: seq<Byte>, p: nat, bytes: seq<Byte>, x: nat, b: Byte) {
    p + |bytes| <= |file| && forall i :: 0 <= i < |bytes| ==> file[p + i] == if p + i == x then b else bytes[i]
  }

  lemma HoldsButSplit(file: seq<Byte>, p: nat, a: seq<Byte>, c: seq<Byte>, x: nat, b: Byte)
    requires HoldsBut(file, p, a + c, x, b)
    ensures HoldsBut(file, p, a, x, b) && HoldsBut(file, p + |a|, c, x, b)
  {
    forall i | 0 <= i < |a| ensures file[p + i] == if p + i == x then b else a[i] {
      assert (a + c)[i] == a[i];
    }
    forall i | 0 <= i < |c| ensures file[p + |a| + i] == if p + |a| + i == x then b else c[i] {
      assert (a + c)[|a| + i] == c[i] && file[p + (|a| + i)] == if p + (|a| + i) == x then b else (a + c)[|a| + i];
    }
  }

  lemma ButAt(file: seq<Byte>, p: nat, bytes: seq<Byte>, x: nat, b: Byte, i: nat)
    requires HoldsBut(file, p, bytes, x, b) && i < |bytes|
    ensures file[p + i] == if p + i == x then b else bytes[i]
  {
    var y := bytes[i];
  }

  lemma HoldsButElsewhere(file: seq<Byte>, p: nat, bytes: seq<Byte>, x: nat, b: Byte)
    requires HoldsBut(file, p, bytes, x, b) && !(p <= x < p + |bytes|)
    ensures PrefixAt(file, p, bytes)
  {
  }

  /**
  Byte `x` is the type or a payload byte of a fragment of the record, or the rest of one, at
  `p`; a type of zero for an empty payload would be the mark of unwritten space.
  */
  predicate Covered(p: nat, data: seq<Byte>, x: nat, b: Byte)
    decreases |data|, Fuel(p)
  {
    var q, n := HeaderPos(p), FragmentLength(p, data);
    || (x == q + 6 && (n > 0 || b != 0))
    || q + HEADER_SIZE <= x < q + HEADER_SIZE + n
    || (n < |data| && Covered(FragmentEnd(p, data), data[n..], x, b))
  }

  /** The damaged fragment is dropped with the rest of its block, and reported. */
  lemma DamagedFragment(file: seq<Byte>, p: nat, t: nat, payload: seq<Byte>, x: nat, b: Byte)
    requires 0 < t < 256 && |payload| < 65536 && HeaderPos(p) % BLOCK_SIZE + HEADER_SIZE + |payload| <= BLOCK_SIZE
    requires HoldsBut(file, p, Physical(p, t, payload), x, b)
    requires var q := HeaderPos(p);
             || (x == q + 6 && b != t && (|payload| > 0 || b != 0))
             || (q + HEADER_SIZE <= x < q + HEADER_SIZE + |payload| && b != payload[x - q - HEADER_SIZE])
    ensures ReadPhysical(file, p) == Bad(Min(|file|, BlockEnd(x)), true)
  {
    hide Header, Value, Unmask, DecodeFixed32, Extend, HeaderPos, BlockEnd, ReadPhysical, LengthField, StoredLength, HoldsBut;
    var q, n := HeaderPos(p), |payload|;
    HeaderNotBefore(p);
    var z, h := Zeros(q - p), Header(t, payload);
    assert Physical(p, t, payload) == z + (h + payload);
    HoldsButSplit(file, p, z, h + payload, x, b);
    HoldsButSplit(file, q, h, payload, x, b);
    HoldsButBounds(file, q + HEADER_SIZE, payload, x, b);
    HeaderBytes(t, payload);
    DamagedHeader(file, q, h, n, x, b);
    InsideBlock(q, n, x);
    DamagedContent(file, q, t, payload, x, b);
    OneByteChanges([t] + payload, x - q - 6, b);
    ChecksumDecides(file, p);
  }

  lemma HeaderNotBefore(p: nat)
    ensures p <= HeaderPos(p)
  {
  }

  /** What the header bytes of a fragment say. */
  lemma HeaderBytes(t: nat, payload: seq<Byte>)
    requires 0 < t < 256 && |payload| < 65536
    ensures var h := Header(t, payload);
            && LengthField(h) == |payload| && h[6] == t
            && Unmask(DecodeFixed32(h[..4])) == Value([t] + payload)
  {
    var h := Header(t, payload);
    HeaderParses(t, payload);
    assert h[6..] == [t];
  }

  lemma DamagedHeader(file: seq<Byte>, q: nat, h: seq<Byte>, n: nat, x: nat, b: Byte)
    requires |h| == HEADER_SIZE && HoldsBut(file, q, h, x, b) && x >= q + 6 && LengthField(h) == n
    ensures StoredLength(file, q) == n && file[q..q + 4] == h[..4] && file[q + 6] == if x == q + 6 then b else h[6]
  {
    assert file[q + 4] == h[4] && file[q + 5] == h[5];
    ButAt(file, q, h, x, b, 6);
    assert file[q..q + 4] == h[..4];
  }

  lemma InsideBlock(q: nat, n: nat, x: nat)
    requires q % BLOCK_SIZE + HEADER_SIZE + n <= BLOCK_SIZE && q <= x < q + HEADER_SIZE + n
    ensures BlockEnd(x) == BlockEnd(q) && q + HEADER_SIZE + n <= BlockEnd(q)
  {
  }

  lemma DamagedContent(file: seq<Byte>, q: nat, t: nat, payload: seq<Byte>, x: nat, b: Byte)
    requires t < 256 && q + HEADER_SIZE + |payload| <= |file| && q + 6 <= x < q + HEADER_SIZE + |payload|
    requires file[q + 6] == (if x == q + 6 then b else t) && HoldsBut(file, q + HEADER_SIZE, payload, x, b)
    ensures [file[q + 6]] + file[q + HEADER_SIZE..q + HEADER_SIZE + |payload|] == ([t] + payload)[x - q - 6 := b]
  {
    var l, r := [file[q + 6]] + file[q + HEADER_SIZE..q + HEADER_SIZE + |payload|], ([t] + payload)[x - q - 6 := b];
    assert |l| == |r|;
    forall i | 0 <= i < |l| ensures l[i] == r[i] {
      if i > 0 {
        var y := payload[i - 1];
        assert l[i] == file[q + HEADER_SIZE + (i - 1)] == if q + HEADER_SIZE + (i - 1) == x then b else y;
      }
    }
  }

  /** The record is not returned: the reader reports it and goes on at the end of the damaged block. */
  lemma {:induction false} DamagedRecord(file: seq<Byte>, p: nat, data: seq<Byte>, begin: bool, scratch: seq<Byte>, x: nat, b: Byte) returns (d: nat)
    requires HoldsBut(file, p, Encode(p, data, begin), x, b) && Covered(p, data, x, b) && (begin ==> scratch == [])
    requires p <= x < p + |Encode(p, data, begin)| && Encode(p, data, begin)[x - p] != b
    ensures Min(|file|, BlockEnd(x)) <= |file| && d > 0
    ensures RecordFrom(file, p, !begin, scratch) == AddDrops(d, RecordFrom(file, Min(|file|, BlockEnd(x)), false, []))
    decreases |data|, Fuel(p)
  {
    hide ReadPhysical, FirstPhysical, HoldsBut, PrefixAt, BlockEnd, HeaderPos, Fuel, FragmentLength, FragmentEnd, Encode;
    var n, e, first := FragmentLength(p, data), FragmentEnd(p, data), FirstPhysical(p, data, begin);
    EncodeSplit(p, data, begin);
    HoldsButSplit(file, p, first, Remainder(p, data), x, b);
    if x < e {
      assert first[x - p] != b;
      FirstDamaged(file, p, data, begin, x, b);
      d := 1 + Count(!begin);
    } else {
      CoveredLater(p, data, begin, x, b);
      HoldsButElsewhere(file, p, first, x, b);
      HoldsButBounds(file, p, first, x, b);
      FragmentPasses(file, p, data, begin, scratch);
      if n == 0 {
        FuelDrops(p, data);
      }
      d := DamagedRecord(file, e, data[n..], false, scratch + data[..n], x, b);
    }
  }

  lemma HoldsButBounds(file: seq<Byte>, p: nat, bytes: seq<Byte>, x: nat, b: Byte)
    requires HoldsBut(file, p, bytes, x, b)
    ensures p + |bytes| <= |file|
  {
  }

  lemma FirstDamaged(file: seq<Byte>, p: nat, data: seq<Byte>, begin: bool, x: nat, b: Byte)
    requires HoldsBut(file, p, FirstPhysical(p, data, begin), x, b) && Covered(p, data, x, b)
    requires p <= x < FragmentEnd(p, data) && FirstPhysical(p, data, begin)[x - p] != b
    ensures ReadPhysical(file, p) == Bad(Min(|file|, BlockEnd(x)), true)
  {
    hide Header, BlockEnd, ReadPhysical;
    var n, q := FragmentLength(p, data), HeaderPos(p);
    var t, payload := RecordType(begin, |data| == n), data[..n];
    LaterIsPast(p, data, x, b);
    PhysicalAt(p, t, payload, x);
    DamagedFragment(file, p, t, payload, x, b);
  }

  /** Bytes of later fragments come later. */
  lemma {:induction false} LaterIsPast(p: nat, data: seq<Byte>, x: nat, b: Byte)
    requires Covered(p, data, x, b)
    ensures x >= HeaderPos(p) + 6
    ensures x < FragmentEnd(p, data) ==>
              var q, n := HeaderPos(p), FragmentLength(p, data);
              (x == q + 6 && (n > 0 || b != 0)) || q + HEADER_SIZE <= x
    decreases |data|, Fuel(p)
  {
    var n, e := FragmentLength(p, data), FragmentEnd(p, data);
    if n < |data| && Covered(e, data[n..], x, b) {
      if n == 0 {
        FuelDrops(p, data);
      }
      LaterIsPast(e, data[n..], x, b);
    }
  }

  lemma PhysicalAt(p: nat, t: nat, payload: seq<Byte>, x: nat)
    requires 0 < t < 256 && |payload| < 65536 && HeaderPos(p) + 6 <= x < HeaderPos(p) + HEADER_SIZE + |payload|
    ensures Physical(p, t, payload)[x - p] == if x == HeaderPos(p) + 6 then t else payload[x - HeaderPos(p) - HEADER_SIZE]
  {
    hide Header;
    HeaderBytes(t, payload);
    var q := HeaderPos(p);
    var z, h := Zeros(q - p), Header(t, payload);
    assert Physical(p, t, payload) == z + h + payload;
    assert (z + h + payload)[x - p] == if x < q + HEADER_SIZE then h[x - q] else payload[x - q - HEADER_SIZE];
  }

  lemma CoveredLater(p: nat, data: seq<Byte>, begin: bool, x: nat, b: Byte)
    requires Covered(p, data, x, b) && x >= FragmentEnd(p, data)
    ensures FragmentLength(p, data) < |data| && Covered(FragmentEnd(p, data), data[FragmentLength(p, data)..], x, b)
    ensures Encode(p, data, begin) == FirstPhysical(p, data, begin) + Encode(FragmentEnd(p, data), data[FragmentLength(p, data)..], false)
  {
    hide FirstPhysical;
  }

  // ----- picking up the thread at the next block -----

  /** From position `from` on, the file is what `bytes` at `p` makes it. */
  ghost predicate AgreesFrom(file: seq<Byte>, from: nat, p: nat, bytes: seq<Byte>) {
    |file| == p + |bytes| && forall i :: 0 <= i < |bytes| && p + i >= from ==> file[p + i] == bytes[i]
  }

  lemma AgreesSplit(file: seq<Byte>, from: nat, p: nat, a: seq<Byte>, c: seq<Byte>)
    requires AgreesFrom(file, from, p, a + c)
    ensures AgreesFrom(file, from, p + |a|, c)
    ensures from <= p ==> PrefixAt(file, p, a)
  {
    forall i | 0 <= i < |c| && p + |a| + i >= from ensures file[p + |a| + i] == c[i] {
      assert (a + c)[|a| + i] == c[i] && file[p + (|a| + i)] == (a + c)[|a| + i];
    }
    if from <= p {
      forall i | 0 <= i < |a| ensures file[p + i] == a[i] {
        assert (a + c)[i] == a[i];
      }
    }
  }

  lemma AgreesWhole(file: seq<Byte>, from: nat, p: nat, bytes: seq<Byte>)
    requires AgreesFrom(file, from, p, bytes) && from <= p
    ensures PrefixAt(file, p, bytes)
  {
  }

  /** How many leading records have their first header before position `e`. */
  function StartBefore(p: nat, records: seq<seq<Byte>>, e: nat): (m: nat)
    ensures m <= |records|
    decreases records
  {
    if records == [] || HeaderPos(p) >= e then 0
    else 1 + StartBefore(p + |Encode(p, records[0], true)|, records[1..], e)
  }

  lemma ReadsRest(file: seq<Byte>, from: nat, p: nat, rs: seq<seq<Byte>>)
    requires AgreesFrom(file, from, p, EncodeAll(p, rs)) && from <= p
    ensures ReadAll(file, p) == (rs, 0)
  {
    hide ReadAll, EncodeAll, Whole;
    AgreesWhole(file, from, p, EncodeAll(p, rs));
    ReadsAll(file, p, rs);
    WholeAll(p, rs, |file|);
    assert rs[..|rs|] == rs;
  }

  /** A record after a trailer too small for a header is the same record in the next block. */
  lemma PastFill(p: nat, rs: seq<seq<Byte>>)
    requires rs != []
    ensures EncodeAll(p, rs) == Zeros(HeaderPos(p) - p) + EncodeAll(HeaderPos(p), rs)
  {
    hide Header, Remainder, HeaderPos, FragmentLength, FragmentEnd, FirstPhysical, Encode;
    var q, data := HeaderPos(p), rs[0];
    SamePastFill(p, data);
    FirstPastFill(p, data);
    EncodeSplit(p, data, true);
    EncodeSplit(q, data, true);
    RemainderPastFill(p, data);
    var z, a, c := Zeros(q - p), FirstPhysical(q, data, true), Remainder(q, data);
    ConcatAssoc(z, a, c);
    ConcatAssoc(z, a + c, EncodeAll(q + |a + c|, rs[1..]));
  }

  lemma SamePastFill(p: nat, data: seq<Byte>)
    ensures var q := HeaderPos(p);
            && p <= q && HeaderPos(q) == q
            && FragmentLength(q, data) == FragmentLength(p, data) && FragmentEnd(q, data) == FragmentEnd(p, data)
  {
    BlockEndIsAligned(p);
    BlockEndAligned(BlockEnd(p));
  }

  lemma RemainderPastFill(p: nat, data: seq<Byte>)
    requires FragmentLength(HeaderPos(p), data) == FragmentLength(p, data) && FragmentEnd(HeaderPos(p), data) == FragmentEnd(p, data)
    ensures Remainder(HeaderPos(p), data) == Remainder(p, data)
  {
    hide Encode;
  }

  lemma FirstPastFill(p: nat, data: seq<Byte>)
    requires HeaderPos(HeaderPos(p)) == HeaderPos(p) && FragmentLength(HeaderPos(p), data) == FragmentLength(p, data)
    ensures FirstPhysical(p, data, true) == Zeros(HeaderPos(p) - p) + FirstPhysical(HeaderPos(p), data, true)
  {
    hide Header, BlockEnd, FragmentLength, HeaderPos;
    HeaderNotBefore(p);
    var q, n := HeaderPos(p), FragmentLength(p, data);
    var z, h, body := Zeros(q - p), Header(RecordType(true, |data| == n), data[..n]), data[..n];
    assert Zeros(0) == [] && [] + h == h;
    ConcatAssoc(z, h, body);
  }

  /** The rest of a record whose start was lost: each fragment is reported and passed over. */
  lemma {:induction false} OrphansPass(file: seq<Byte>, p: nat, data: seq<Byte>) returns (d: nat)
    requires PrefixAt(file, p, Encode(p, data, false)) && p + |Encode(p, data, false)| <= |file|
    ensures RecordFrom(file, p, false, []) == AddDrops(d, RecordFrom(file, p + |Encode(p, data, false)|, false, []))
    decreases |data|, Fuel(p)
  {
    hide ReadPhysical, FirstPhysical, PrefixAt, FragmentLength, FragmentEnd, Fuel, Encode;
    var n, e := FragmentLength(p, data), FragmentEnd(p, data);
    EncodeSplit(p, data, false);
    LastFragment(p, data, false);
    PrefixSplit(file, p, FirstPhysical(p, data, false), Remainder(p, data));
    ReadsFragment(file, p, data, false);
    if n == |data| {
      d := 1;
    } else {
      if n == 0 {
        FuelDrops(p, data);
      }
      d := OrphansPass(file, e, data[n..]);
      AddDropsTwice(1, d, RecordFrom(file, p + |Encode(p, data, false)|, false, []));
      d := d + 1;
    }
  }

  lemma DropsAdd(file: seq<Byte>, p: nat, q: nat, d: nat)
    requires p <= |file| && q <= |file| && RecordFrom(file, p, false, []) == AddDrops(d, RecordFrom(file, q, false, []))
    ensures ReadAll(file, p) == (ReadAll(file, q).0, ReadAll(file, q).1 + d)
  {
    hide RecordFrom;
    RecordFromProgress(file, p, false, []);
    RecordFromProgress(file, q, false, []);
  }

  /** At a block boundary the reader finds every record that starts there or later, and no other. */
  lemma {:induction false} ResumesAtBlock(file: seq<Byte>, e: nat, p: nat, rs: seq<seq<Byte>>)
    requires e % BLOCK_SIZE == 0 && p <= e <= |file| && AgreesFrom(file, e, p, EncodeAll(p, rs))
    ensures ReadAll(file, e).0 == rs[StartBefore(p, rs, e)..]
    decreases rs, 0, 0
  {
    hide ReadAll, Encode, HeaderPos, BlockEnd, EncodeAll, AgreesFrom;
    if rs == [] {
      NothingLeftBut(file, e, p);
      EmptyEnd(file);
    } else if HeaderPos(p) >= e {
      ResumesAtStart(file, e, p, rs);
      assert rs[0..] == rs;
    } else {
      FirstOfAll(p, rs);
      ResumesInRecord(file, e, p, rs[0], true, rs[1..]);
      var m := StartBefore(p + |Encode(p, rs[0], true)|, rs[1..], e);
      assert rs[1..][m..] == rs[m + 1..];
    }
  }

  lemma NothingLeftBut(file: seq<Byte>, e: nat, p: nat)
    requires p <= e <= |file| && AgreesFrom(file, e, p, EncodeAll(p, []))
    ensures e == |file|
  {
  }

  lemma ResumesAtStart(file: seq<Byte>, e: nat, p: nat, rs: seq<seq<Byte>>)
    requires e % BLOCK_SIZE == 0 && p <= e <= HeaderPos(p) && e <= |file| && rs != [] && AgreesFrom(file, e, p, EncodeAll(p, rs))
    ensures ReadAll(file, e) == (rs, 0)
  {
    hide ReadAll, EncodeAll, HeaderPos, AgreesFrom;
    AtBoundary(p, e);
    if p < e {
      PastFill(p, rs);
      AgreesSplit(file, e, p, Zeros(e - p), EncodeAll(e, rs));
    }
    ReadsRest(file, e, e, rs);
  }

  lemma EmptyEnd(file: seq<Byte>)
    ensures ReadAll(file, |file|) == ([], 0)
  {
    NothingAtEnd(file);
  }

  lemma AtBoundary(p: nat, e: nat)
    requires e % BLOCK_SIZE == 0 && p <= e <= HeaderPos(p)
    ensures e == p || e == HeaderPos(p)
  {
  }

  lemma BlocksAhead(p: nat, e: nat, data: seq<Byte>)
    requires e % BLOCK_SIZE == 0 && HeaderPos(p) < e
    ensures FragmentEnd(p, data) <= e
    ensures FragmentLength(p, data) < |data| ==> FragmentEnd(p, data) % BLOCK_SIZE == 0
  {
  }

  /** Inside a record that started before the boundary. */
  lemma {:induction false} ResumesInRecord(file: seq<Byte>, e: nat, p: nat, data: seq<Byte>, begin: bool, rs: seq<seq<Byte>>)
    requires e % BLOCK_SIZE == 0 && HeaderPos(p) < e <= |file|
    requires AgreesFrom(file, e, p, Encode(p, data, begin) + EncodeAll(p + |Encode(p, data, begin)|, rs))
    ensures ReadAll(file, e).0 == rs[StartBefore(p + |Encode(p, data, begin)|, rs, e)..]
    decreases rs, |data|, Fuel(p) + 1
  {
    hide ReadAll, Encode, HeaderPos, BlockEnd, FirstPhysical, Fuel, FragmentLength, FragmentEnd, EncodeAll, AgreesFrom;
    var n, f, first := FragmentLength(p, data), FragmentEnd(p, data), FirstPhysical(p, data, begin);
    BlocksAhead(p, e, data);
    EncodeSplit(p, data, begin);
    var end := p + |Encode(p, data, begin)|;
    if n == |data| {
      LastFragment(p, data, begin);
      AgreesSplit(file, e, p, first, EncodeAll(end, rs));
      ResumesAtBlock(file, e, end, rs);
    } else {
      var rest := data[n..];
      ConcatAssoc(first, Encode(f, rest, false), EncodeAll(end, rs));
      AgreesSplit(file, e, p, first, Encode(f, rest, false) + EncodeAll(end, rs));
      if f < e {
        if n == 0 {
          FuelDrops(p, data);
        }
        BlockStart(f, rest);
        ResumesInRecord(file, e, f, rest, false, rs);
      } else {
        ResumesPastOrphans(file, e, rest, rs);
      }
    }
  }

  lemma ResumesPastOrphans(file: seq<Byte>, e: nat, rest: seq<Byte>, rs: seq<seq<Byte>>)
    requires e <= |file| && AgreesFrom(file, e, e, Encode(e, rest, false) + EncodeAll(e + |Encode(e, rest, false)|, rs))
    ensures ReadAll(file, e).0 == rs[StartBefore(e + |Encode(e, rest, false)|, rs, e)..]
  {
    hide ReadAll, Encode, BlockEnd, EncodeAll, RecordFrom;
    var end := e + |Encode(e, rest, false)|;
    AgreesSplit(file, e, e, Encode(e, rest, false), EncodeAll(end, rs));
    var d := OrphansPass(file, e, rest);
    DropsAdd(file, e, end, d);
    ReadsRest(file, e, end, rs);
    HeaderNotBefore(end);
    assert rs[0..] == rs;
  }

  // ----- the theorem -----

  lemma {:induction false} AllStartBefore(p: nat, rs: seq<seq<Byte>>, e: nat)
    requires p + |EncodeAll(p, rs)| <= e
    ensures StartBefore(p, rs, e) == |rs|
    decreases rs
  {
    hide Encode, HeaderPos;
    if rs != [] {
      EncodeLong(p, rs[0]);
      AllStartBefore(p + |Encode(p, rs[0], true)|, rs[1..], e);
    }
  }

  lemma EncodeLong(p: nat, data: seq<Byte>)
    ensures HeaderPos(p) < p + |Encode(p, data, true)|
  {
    EncodeSplit(p, data, true);
  }

  lemma AfterDamage(file: seq<Byte>, x: nat, p: nat, rs: seq<seq<Byte>>)
    requires p <= x < |file| && AgreesFrom(file, x + 1, p, EncodeAll(p, rs))
    ensures ReadAll(file, Min(|file|, BlockEnd(x))).0 == rs[StartBefore(p, rs, BlockEnd(x))..]
  {
    hide ReadAll, EncodeAll, BlockEnd;
    var e := BlockEnd(x);
    BlockEndIsAligned(x);
    if e <= |file| {
      AgreesLess(file, x + 1, e, p, EncodeAll(p, rs));
      ResumesAtBlock(file, e, p, rs);
    } else {
      EmptyEnd(file);
      AllStartBefore(p, rs, e);
    }
  }

  lemma AgreesLess(file: seq<Byte>, from: nat, later: nat, p: nat, bytes: seq<Byte>)
    requires AgreesFrom(file, from, p, bytes) && from <= later
    ensures AgreesFrom(file, later, p, bytes)
  {
  }

  /**
  Change one type or payload byte of one record of a written file. The reader reports it, returns
  every record before the damaged one, and every record that starts past the damaged block,
  and nothing else.
  */
  lemma DamageIsReported(records: seq<seq<Byte>>, k: nat, x: nat, b: Byte)
    requires k < |records|
    requires var p := |EncodeAll(0, records[..k])|;
             && Covered(p, records[k], x, b) && p <= x < p + |Encode(p, records[k], true)| && x < |EncodeAll(0, records)|
             && EncodeAll(0, records)[x] != b
    ensures
      var p := |EncodeAll(0, records[..k])|;
      var (read, drops) := ReadAll(EncodeAll(0, records)[x := b], 0);
      && drops > 0
      && read == records[..k] + records[k + StartBefore(p, records[k..], BlockEnd(x))..]
  {
    hide ReadAll, Encode, EncodeAll, Covered, BlockEnd, RecordFrom;
    var whole, good, rest := EncodeAll(0, records), records[..k], records[k..];
    var p, file := |EncodeAll(0, good)|, whole[x := b];
    EncodeAllConcat(0, good, rest);
    assert good + rest == records;
    FirstOfAll(p, rest);
    assert rest[0] == records[k];
    DamagedParts(whole, EncodeAll(0, good), Encode(p, records[k], true), EncodeAll(p + |Encode(p, records[k], true)|, rest[1..]), x, b);
    ReadsThrough(file, 0, good);
    var d := DamagedRecord(file, p, records[k], true, [], x, b);
    DropsAdd(file, p, Min(|file|, BlockEnd(x)), d);
    AfterDamage(file, x, p, rest);
    var m := StartBefore(p, rest, BlockEnd(x));
    assert rest[m..] == records[k + m..];
  }

  lemma FirstOfAll(p: nat, rs: seq<seq<Byte>>)
    requires rs != []
    ensures EncodeAll(p, rs) == Encode(p, rs[0], true) + EncodeAll(p + |Encode(p, rs[0], true)|, rs[1..])
  {
    hide Encode;
  }

  lemma DamagedParts(whole: seq<Byte>, a: seq<Byte>, m: seq<Byte>, c: seq<Byte>, x: nat, b: Byte)
    requires whole == a + (m + c) && |a| <= x < |a| + |m| && whole[x] != b
    ensures PrefixAt(whole[x := b], 0, a) && HoldsBut(whole[x := b], |a|, m, x, b) && m[x - |a|] != b
    ensures AgreesFrom(whole[x := b], x + 1, |a|, m + c)
  {
    var file := whole[x := b];
    forall i | 0 <= i < |m| ensures file[|a| + i] == if |a| + i == x then b else m[i] {
      assert whole[|a| + i] == m[i];
    }
    forall i | 0 <= i < |m + c| && |a| + i >= x + 1 ensures file[|a| + i] == (m + c)[i] {
      assert whole[|a| + i] == (m + c)[i];
    }
  }

  lemma {:induction false} EncodeAllConcat(p: nat, a: seq<seq<Byte>>, c: seq<seq<Byte>>)
    ensures EncodeAll(p, a + c) == EncodeAll(p, a) + EncodeAll(p + |EncodeAll(p, a)|, c)
    decreases a
  {
    hide Encode;
    if a == [] {
      assert a + c == c;
    } else {
      var first := Encode(p, a[0], true);
      EncodeAllConcat(p + |first|, a[1..], c);
      assert (a + c)[1..] == a[1..] + c;
      ConcatAssoc(first, EncodeAll(p + |first|, a[1..]), EncodeAll(p + |EncodeAll(p, a)|, c));
    }
  }
}
