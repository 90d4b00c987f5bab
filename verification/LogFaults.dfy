/**
What a failed append does to the log. The writer moves its block offset on whether or not the
bytes arrived and goes on with the next record, so everything appended later may be lost to
the reader. It is read back exactly when the offset still agrees with the file's length and
the failed append left nothing the reader would take for a record.
*/
module LogFaults {
  import opened Common
  import opened Crc
  import opened Log

  /** Whatever is appended next, from block offset `o`, is read back after the records `head`. */
  ghost predicate ReadsBack(file: seq<Byte>, o: nat, head: seq<seq<Byte>>) {
    forall rs :: ReadAll(file + EncodeAll(o, rs), 0) == (head + rs, 0)
  }

  // ----- what counts as losing a record -----

  ghost predicate Refuted(r: RecordRead, record: seq<Byte>) {
    r.Done? ==> r.record != record || r.drops > 0
  }

  lemma RefutedMore(n: nat, r: RecordRead, record: seq<Byte>)
    requires n > 0 || Refuted(r, record)
    ensures Refuted(AddDrops(n, r), record)
  {
  }

  /** Some record appended at offset `o` is not what the reader finds next. */
  ghost predicate Lost(file: seq<Byte>, e: nat, inside: bool, scratch: seq<Byte>, o: nat)
    requires e <= |file|
  {
    exists record :: Refuted(RecordFrom(file + Encode(o, record, true), e, inside, scratch), record)
  }

  /** A header that is not of any record, with nothing readable behind it. */
  lemma JunkRead(file: seq<Byte>, e: nat, inside: bool, scratch: seq<Byte>, record: seq<Byte>)
    requires e <= |file| && Min(|file|, BlockEnd(e)) - e >= HEADER_SIZE
    requires !(FULL <= file[e + 6] <= LAST)
    requires inside || |file| - Min(|file|, BlockEnd(e)) < HEADER_SIZE
    ensures Refuted(RecordFrom(file, e, inside, scratch), record)
  {
    hide LengthField, ChecksumOk;
    var limit := Min(|file|, BlockEnd(e));
    var buffer := file[e..limit];
    assert buffer[..HEADER_SIZE][6] == file[e + 6];
    var r := ParseBuffer(buffer, e, |file| < BlockEnd(e));
    assert ReadPhysical(file, e) == r;
    if r.Bad? && !inside {
      TailIsEof(file, e);
      assert RecordFrom(file, limit, false, []) == End(0);
    }
  }

  lemma TailIsEof(file: seq<Byte>, e: nat)
    requires e <= |file| && |file| - Min(|file|, BlockEnd(e)) < HEADER_SIZE
    ensures ReadPhysical(file, Min(|file|, BlockEnd(e))) == Eof
  {
    var limit := Min(|file|, BlockEnd(e));
    BlockEndIsAligned(e);
    if limit == BlockEnd(e) {
      BlockEndAligned(limit);
    }
    ShortTail(file, limit);
  }

  /** Inside a record with something collected, no empty record is found without a report. */
  lemma {:induction false} PendingRefuted(file: seq<Byte>, p: nat, scratch: seq<Byte>)
    requires p <= |file| && scratch != []
    ensures Refuted(RecordFrom(file, p, true, scratch), [])
    decreases |file| - p
  {
    hide ReadPhysical;
    match ReadPhysical(file, p)
    case Eof =>
    case Bad(next, reported) =>
      RefutedMore(Count(reported) + 1, RecordFrom(file, next, false, []), []);
    case Fragment(t, payload, next) =>
      if t == MIDDLE {
        PendingRefuted(file, next, scratch + payload);
      }
  }

  /** A header that announces a payload cannot begin an empty record. */
  lemma PayloadRefuted(file: seq<Byte>, e: nat, inside: bool, scratch: seq<Byte>)
    requires e <= |file| && Min(|file|, BlockEnd(e)) - e >= HEADER_SIZE
    requires LengthField(file[e..e + HEADER_SIZE]) > 0
    ensures Refuted(RecordFrom(file, e, inside, scratch), [])
  {
    hide LengthField, ChecksumOk;
    var limit := Min(|file|, BlockEnd(e));
    var buffer := file[e..limit];
    assert buffer[..HEADER_SIZE] == file[e..e + HEADER_SIZE];
    var r := ParseBuffer(buffer, e, |file| < BlockEnd(e));
    assert ReadPhysical(file, e) == r;
    if r.Fragment? {
      assert r.payload != [];
      if r.t == FIRST {
        PendingRefuted(file, r.next, r.payload);
        RefutedMore(Count(inside && scratch != []), RecordFrom(file, r.next, true, r.payload), []);
      } else if r.t == MIDDLE && inside {
        PendingRefuted(file, r.next, scratch + r.payload);
      }
    }
  }

  // ----- the bytes of an empty record -----

  lemma EmptyChecksum()
    ensures Extend(Value([FULL]), []) == 0xa016d052
  {
    var c: bv32 := 0xffffffff;
    var none: seq<Byte>, one: seq<Byte> := [], [FULL];
    assert Not(0) == c;
    assert one[..0] == none && FoldLeft(AddByte, c, none) == c;
    assert FoldLeft(AddByte, c, one) == AddByte(c, 1);
    OneByte();
    NotNot(AddByte(c, 1));
  }

  lemma OneByte()
    ensures Not(AddByte(0xffffffff, 1)) == 0xa016d052
  {
    assert Halved(1, 1) == 0;
    assert Halved(1, 2) == 0;
    assert Halved(1, 3) == 0;
    assert Halved(1, 4) == 0;
    assert Halved(1, 5) == 0;
    assert Halved(1, 6) == 0;
    assert Halved(1, 7) == 0;
    assert ByteBits(1) == 1;
    assert Shifted(0xfffffffe, 8) == Shifted(0x7fffffff, 7);
    assert Shifted(0x7fffffff, 7) == Shifted(0xbd09c487, 6);
    assert Shifted(0xbd09c487, 6) == Shifted(0xdc72d93b, 5);
    assert Shifted(0xdc72d93b, 5) == Shifted(0xeccf57e5, 4);
    assert Shifted(0xeccf57e5, 4) == Shifted(0xf491908a, 3);
    assert Shifted(0xf491908a, 3) == Shifted(0x7a48c845, 2);
    assert Shifted(0x7a48c845, 2) == Shifted(0xbfd25f5a, 1);
    assert Shifted(0xbfd25f5a, 1) == Shifted(0x5fe92fad, 0);
  }

  /** None of its first six bytes is a record type. */
  lemma EmptyHeader()
    ensures Header(FULL, []) == [5, 43, 40, 67, 0, 0, 1]
  {
    hide Extend, Value;
    EmptyChecksum();
    assert Mask(0xa016d052) == 0x43282b05;
    assert 0x43282b05 as bv32 as nat == 0x43282b05;
    assert FixedBytes(0x43282b05) == [5, 43, 40, 67];
  }

  /** The writer's padding before a header at offset `o`. */
  function Padding(o: nat): (m: nat)
    ensures m == HeaderPos(o) - o < HEADER_SIZE
    ensures BLOCK_SIZE - o % BLOCK_SIZE < HEADER_SIZE ==> m == BLOCK_SIZE - o % BLOCK_SIZE
    ensures BLOCK_SIZE - o % BLOCK_SIZE >= HEADER_SIZE ==> m == 0
  {
    HeaderPos(o) - o
  }

  lemma EmptyRecordBytes(o: nat)
    ensures |Encode(o, [], true)| == Padding(o) + HEADER_SIZE
    ensures forall i :: 0 <= i < Padding(o) + 6 ==> !(FULL <= Encode(o, [], true)[i] <= LAST)
  {
    hide Header, BlockEnd;
    EmptyHeader();
    var m, h := Padding(o), Header(FULL, []);
    assert FragmentLength(o, []) == 0;
    assert Encode(o, [], true) == Physical(o, FULL, []) + [];
    assert Physical(o, FULL, []) == Zeros(m) + h + [];
    forall i | 0 <= i < m + 6 ensures !(FULL <= (Zeros(m) + h)[i] <= LAST) {
      assert i >= m ==> (Zeros(m) + h)[i] == h[i - m];
    }
  }

  // ----- an offset that disagrees with the file -----

  lemma SameReadSameRecord(file: seq<Byte>, p: nat, q: nat, inside: bool, scratch: seq<Byte>)
    requires p <= |file| && q <= |file| && ReadPhysical(file, p) == ReadPhysical(file, q)
    ensures RecordFrom(file, p, inside, scratch) == RecordFrom(file, q, inside, scratch)
  {
    hide ReadPhysical;
  }

  /** Where the writer or the file is too near the end of a block for a header, an empty record is lost. */
  lemma MisalignedShort(file: seq<Byte>, o: nat, inside: bool)
    requires o % BLOCK_SIZE != |file| % BLOCK_SIZE
    requires BLOCK_SIZE - o % BLOCK_SIZE < HEADER_SIZE || BLOCK_SIZE - |file| % BLOCK_SIZE < HEADER_SIZE
    ensures Lost(file, |file|, inside, [], o)
  {
    hide Encode, RecordFrom, ReadPhysical;
    var y := Encode(o, [], true);
    var all, x := file + y, |file|;
    var d, m := BLOCK_SIZE - x % BLOCK_SIZE, Padding(o);
    EmptyRecordBytes(o);
    assert forall i :: 0 <= i < |y| ==> all[x + i] == y[i];
    if d >= HEADER_SIZE {
      assert all[x + 6] == y[6];
      JunkRead(all, x, inside, [], []);
    } else {
      var z := BlockEnd(x);
      BlockEndIsAligned(x);
      SkippedTrailer(all, x, z);
      SameReadSameRecord(all, x, z, inside, []);
      if |all| - z < HEADER_SIZE {
        BlockEndAligned(z);
        ShortTail(all, z);
        EofIsLost(all, z, inside, []);
      } else {
        assert all[z + 6] == y[d + 6];
        BlockEndAligned(z);
        JunkRead(all, z, inside, [], []);
      }
    }
    assert Refuted(RecordFrom(file + Encode(o, [], true), x, inside, []), []);
  }

  lemma EofIsLost(file: seq<Byte>, p: nat, inside: bool, scratch: seq<Byte>)
    requires p <= |file| && ReadPhysical(file, p) == Eof
    ensures Refuted(RecordFrom(file, p, inside, scratch), [])
  {
  }

  // ----- a record of two blocks -----

  function BigRecord(): (r: seq<Byte>)
    ensures |r| == 2 * BLOCK_SIZE
  {
    Zeros(2 * BLOCK_SIZE)
  }

  /** Two leading fragments: one to the end of the writer's block, one whole block of zeros. */
  lemma BigRecordBytes(o: nat, w: nat)
    requires w == BLOCK_SIZE - o % BLOCK_SIZE >= HEADER_SIZE
    ensures var y := Encode(o, BigRecord(), true);
            && |y| >= 2 * BLOCK_SIZE
            && y[..HEADER_SIZE] == Header(FIRST, Zeros(w - HEADER_SIZE))
            && y[HEADER_SIZE..w] == Zeros(w - HEADER_SIZE)
            && y[w..w + HEADER_SIZE] == Header(MIDDLE, Zeros(BLOCK_SIZE - HEADER_SIZE))
            && y[w + HEADER_SIZE..w + BLOCK_SIZE] == Zeros(BLOCK_SIZE - HEADER_SIZE)
  {
    hide Header, Encode, Remainder;
    var big := BigRecord();
    BigFirst(o, w);
    var e := o + w;
    assert e % BLOCK_SIZE == 0;
    var left := big[w - HEADER_SIZE..];
    BigMiddle(e, left);
    BigLast(e + BLOCK_SIZE, left[BLOCK_SIZE - HEADER_SIZE..]);
    EncodeSplit(o, big, true);
    EncodeSplit(e, left, false);
    var a, b, c := FirstPhysical(o, big, true), FirstPhysical(e, left, false), Remainder(e, left);
    assert Encode(o, big, true) == a + (b + c);
    ThreeParts(a, b, c);
  }

  lemma ThreeParts(a: seq<Byte>, b: seq<Byte>, c: seq<Byte>)
    ensures var y := a + (b + c);
            && |y| == |a| + |b| + |c|
            && (forall i, j :: 0 <= i <= j <= |a| ==> y[i..j] == a[i..j])
            && (forall i, j :: 0 <= i <= j <= |b| ==> y[|a| + i..|a| + j] == b[i..j])
  {
  }

  lemma EncodeSplit(p: nat, data: seq<Byte>, begin: bool)
    ensures Encode(p, data, begin) == FirstPhysical(p, data, begin) + Remainder(p, data)
    ensures FragmentLength(p, data) < |data| ==> Remainder(p, data) == Encode(FragmentEnd(p, data), data[FragmentLength(p, data)..], false)
  {
  }

  lemma BigFirst(o: nat, w: nat)
    requires w == BLOCK_SIZE - o % BLOCK_SIZE >= HEADER_SIZE
    ensures FragmentLength(o, BigRecord()) == w - HEADER_SIZE && FragmentEnd(o, BigRecord()) == o + w
    ensures FirstPhysical(o, BigRecord(), true) == Header(FIRST, Zeros(w - HEADER_SIZE)) + Zeros(w - HEADER_SIZE)
  {
    hide Header;
    assert BigRecord()[..w - HEADER_SIZE] == Zeros(w - HEADER_SIZE);
    assert Zeros(0) + Header(FIRST, Zeros(w - HEADER_SIZE)) == Header(FIRST, Zeros(w - HEADER_SIZE));
  }

  lemma BigMiddle(e: nat, left: seq<Byte>)
    requires e % BLOCK_SIZE == 0 && |left| > BLOCK_SIZE && forall i :: 0 <= i < |left| ==> left[i] == 0
    ensures FragmentLength(e, left) == BLOCK_SIZE - HEADER_SIZE && FragmentEnd(e, left) == e + BLOCK_SIZE
    ensures FirstPhysical(e, left, false) ==
            Header(MIDDLE, Zeros(BLOCK_SIZE - HEADER_SIZE)) + Zeros(BLOCK_SIZE - HEADER_SIZE)
  {
    hide Header;
    var n := BLOCK_SIZE - HEADER_SIZE;
    assert left[..n] == Zeros(n);
    assert Zeros(0) + Header(MIDDLE, Zeros(n)) == Header(MIDDLE, Zeros(n));
  }

  lemma BigLast(e: nat, left: seq<Byte>)
    requires e % BLOCK_SIZE == 0 && |left| <= BLOCK_SIZE + HEADER_SIZE
    ensures |Encode(e, left, false)| >= |left| + HEADER_SIZE
  {
    hide Header;
    EncodeSplit(e, left, false);
    var n := FragmentLength(e, left);
    if n < |left| {
      EncodeSplit(FragmentEnd(e, left), left[n..], false);
    }
  }

  /** With room for a header on both sides, a record of two blocks is reported as damaged. */
  lemma MisalignedBig(file: seq<Byte>, o: nat, inside: bool)
    requires o % BLOCK_SIZE != |file| % BLOCK_SIZE
    requires BLOCK_SIZE - o % BLOCK_SIZE >= HEADER_SIZE && BLOCK_SIZE - |file| % BLOCK_SIZE >= HEADER_SIZE
    ensures Lost(file, |file|, inside, [], o)
  {
    hide Encode, RecordFrom, ReadPhysical, Header, BigRecord, LengthField, Zeros, ChecksumOk;
    var y := Encode(o, BigRecord(), true);
    var all, x := file + y, |file|;
    var d, w := BLOCK_SIZE - x % BLOCK_SIZE, BLOCK_SIZE - o % BLOCK_SIZE;
    BigRecordBytes(o, w);
    TailSlice(file, y, 0, HEADER_SIZE);
    if w > d {
      HeaderParses(FIRST, Zeros(w - HEADER_SIZE));
      TooLong(all, x, inside, [], BigRecord());
    } else {
      TailSlice(file, y, HEADER_SIZE, w);
      TailSlice(file, y, w, w + HEADER_SIZE);
      TailSlice(file, y, w + HEADER_SIZE, w + BLOCK_SIZE);
      FirstThenJunk(all, x, inside, d, w);
    }
    assert Refuted(RecordFrom(file + Encode(o, BigRecord(), true), x, inside, []), BigRecord());
  }

  lemma TailSlice(a: seq<Byte>, b: seq<Byte>, i: nat, j: nat)
    requires i <= j <= |b|
    ensures (a + b)[|a| + i..|a| + j] == b[i..j]
  {
  }

  /** A length that reaches past the end of a full block is reported. */
  lemma TooLong(file: seq<Byte>, e: nat, inside: bool, scratch: seq<Byte>, record: seq<Byte>)
    requires e + HEADER_SIZE <= BlockEnd(e) <= |file|
    requires e + HEADER_SIZE + LengthField(file[e..e + HEADER_SIZE]) > BlockEnd(e)
    ensures Refuted(RecordFrom(file, e, inside, scratch), record)
  {
    hide LengthField, ChecksumOk;
    var limit := BlockEnd(e);
    var buffer := file[e..limit];
    assert buffer[..HEADER_SIZE] == file[e..e + HEADER_SIZE];
    assert ReadPhysical(file, e) == ParseBuffer(buffer, e, false) == Bad(limit, true);
  }

  lemma FirstThenJunk(all: seq<Byte>, x: nat, inside: bool, d: nat, w: nat)
    requires HEADER_SIZE <= w < d == BLOCK_SIZE - x % BLOCK_SIZE && x + 2 * BLOCK_SIZE <= |all|
    requires all[x..x + HEADER_SIZE] == Header(FIRST, Zeros(w - HEADER_SIZE))
    requires all[x + HEADER_SIZE..x + w] == Zeros(w - HEADER_SIZE)
    requires all[x + w..x + w + HEADER_SIZE] == Header(MIDDLE, Zeros(BLOCK_SIZE - HEADER_SIZE))
    requires all[x + w + HEADER_SIZE..x + w + BLOCK_SIZE] == Zeros(BLOCK_SIZE - HEADER_SIZE)
    ensures Refuted(RecordFrom(all, x, inside, []), BigRecord())
  {
    hide ReadPhysical, Header;
    var n := w - HEADER_SIZE;
    assert HeaderPos(x) == x && HoldsAt(all, x, FIRST, Zeros(n));
    WholeFragmentReads(all, x, FIRST, Zeros(n));
    var e := x + w;
    SecondIsJunk(all, x, d, w, Zeros(n));
    RecordStep(all, x, inside, []);
    AddDropsTwice(0, 0, RecordFrom(all, e, true, Zeros(n)));
  }

  lemma SecondIsJunk(all: seq<Byte>, x: nat, d: nat, w: nat, scratch: seq<Byte>)
    requires HEADER_SIZE <= w < d == BLOCK_SIZE - x % BLOCK_SIZE && x + 2 * BLOCK_SIZE <= |all|
    requires all[x + w..x + w + HEADER_SIZE] == Header(MIDDLE, Zeros(BLOCK_SIZE - HEADER_SIZE))
    requires all[x + w + HEADER_SIZE..x + w + BLOCK_SIZE] == Zeros(BLOCK_SIZE - HEADER_SIZE)
    ensures Refuted(RecordFrom(all, x + w, true, scratch), BigRecord())
  {
    hide ReadPhysical, RecordFrom, Header;
    var e, z := x + w, x + d;
    assert BlockEnd(e) == BlockEnd(x) == z;
    if d - w >= HEADER_SIZE {
      HeaderParses(MIDDLE, Zeros(BLOCK_SIZE - HEADER_SIZE));
      TooLong(all, e, true, scratch, BigRecord());
    } else {
      BlockEndIsAligned(x);
      BlockEndAligned(z);
      SkippedTrailer(all, e, z);
      SameReadSameRecord(all, e, z, true, scratch);
      assert all[z + 6] == all[x + w + HEADER_SIZE..x + w + BLOCK_SIZE][d - w - 1];
      JunkRead(all, z, true, scratch, BigRecord());
    }
  }

  lemma MisalignedLosesRecords(file: seq<Byte>, o: nat, inside: bool)
    requires o % BLOCK_SIZE != |file| % BLOCK_SIZE
    ensures Lost(file, |file|, inside, [], o)
  {
    hide Lost;
    if BLOCK_SIZE - o % BLOCK_SIZE < HEADER_SIZE || BLOCK_SIZE - |file| % BLOCK_SIZE < HEADER_SIZE {
      MisalignedShort(file, o, inside);
    } else {
      MisalignedBig(file, o, inside);
    }
  }

  // ----- torn bytes -----

  /** Part of a fragment, with the writer's offset past all of it. */
  lemma TornLosesRecords(file: seq<Byte>, q: nat, t: nat, payload: seq<Byte>, c: nat, o: nat, inside: bool, scratch: seq<Byte>)
    requires 0 < t < 256 && q % BLOCK_SIZE + HEADER_SIZE + |payload| <= BLOCK_SIZE && |payload| < 65536
    requires 0 < c < HEADER_SIZE + |payload| && |file| == q + c
    requires file[q..] == (Header(t, payload) + payload)[..c]
    requires o % BLOCK_SIZE == (q + HEADER_SIZE + |payload|) % BLOCK_SIZE
    ensures Lost(file, q, inside, scratch, o)
  {
    hide Encode, RecordFrom, ReadPhysical, Header, LengthField;
    var y := Encode(o, [], true);
    var all := file + y;
    EmptyRecordBytes(o);
    if c >= HEADER_SIZE {
      HeaderParses(t, payload);
      assert all[q..q + HEADER_SIZE] == file[q..][..HEADER_SIZE] == Header(t, payload);
      PayloadRefuted(all, q, inside, scratch);
    } else {
      assert all[q + 6] == y[6 - c];
      TornFits(q, |payload|, c, o);
      JunkRead(all, q, inside, scratch, []);
    }
    assert Refuted(RecordFrom(file + Encode(o, [], true), q, inside, scratch), []);
  }

  lemma TornFits(q: nat, n: nat, c: nat, o: nat)
    requires q % BLOCK_SIZE + HEADER_SIZE + n <= BLOCK_SIZE && 0 < c < HEADER_SIZE
    requires o % BLOCK_SIZE == (q + HEADER_SIZE + n) % BLOCK_SIZE
    ensures var size := q + c + Padding(o) + HEADER_SIZE;
            Min(size, BlockEnd(q)) - q >= HEADER_SIZE && size - Min(size, BlockEnd(q)) < HEADER_SIZE
  {
    InBlock(q, HEADER_SIZE + n);
  }

  lemma InBlock(q: nat, d: nat)
    requires q % BLOCK_SIZE + d <= BLOCK_SIZE
    ensures (q + d) % BLOCK_SIZE == if q % BLOCK_SIZE + d == BLOCK_SIZE then 0 else q % BLOCK_SIZE + d
  {
  }

  // ----- what a failed append leaves -----

  /**
  An append of `data` at file position `p` fails: the fragments before one are whole, of that
  one a prefix arrived, and the writer's offset `o` stands past it.
  */
  ghost predicate FailsAt(p: nat, data: seq<Byte>, begin: bool, torn: seq<Byte>, o: nat)
    decreases |data|, Fuel(p)
  {
    var n, first := FragmentLength(p, data), FirstPhysical(p, data, begin);
    || (torn <= first && o % BLOCK_SIZE == FragmentEnd(p, data) % BLOCK_SIZE)
    || (n < |data| && first <= torn && FailsAt(FragmentEnd(p, data), data[n..], false, torn[|first|..], o))
  }

  /** What arrives of a fragment is a prefix of what was sent. */
  predicate InOrder(fates: seq<Fate>) {
    forall i :: 0 <= i < |fates| ==> fates[i].fill.None? || fates[i].body == Some(0)
  }

  lemma {:induction false} WritingFails(p: nat, o: nat, data: seq<Byte>, begin: bool, fates: seq<Fate>)
    requires p % BLOCK_SIZE == o % BLOCK_SIZE && InOrder(fates) && !Writing(o, data, begin, fates).ok
    ensures FailsAt(p, data, begin, Writing(o, data, begin, fates).bytes, Writing(o, data, begin, fates).offset)
    decreases |data|, Fuel(o)
  {
    hide HeaderPos, BlockEnd, Avail, FragmentLength, Fuel, Header, FirstPhysical;
    SameInBlock(p, o, data, begin);
    FragmentParts(o, data, begin);
    var n, e, fate := FragmentLength(o, data), OffsetAfter(o, data), First(fates);
    var first := FirstPhysical(o, data, begin);
    if fate.body.Some? {
      LandsPrefix(o, data, begin, fate);
    } else {
      if n == 0 {
        NoTwoEmpty(o, data);
      }
      WritingFails(FragmentEnd(p, data), e, data[n..], false, Later(fates));
      var w := Writing(e, data[n..], false, Later(fates));
      assert (first + w.bytes)[|first|..] == w.bytes;
    }
  }

  lemma LandsPrefix(o: nat, data: seq<Byte>, begin: bool, fate: Fate)
    requires fate.fill.None? || fate.body == Some(0)
    ensures FragmentLands(o, data, begin, fate) <= FirstPhysical(o, data, begin)
  {
    hide Header;
    FragmentParts(o, data, begin);
    var z, b := Zeros(HeaderPos(o) - o), FragmentBody(o, data, begin);
    if fate.fill.None? {
      assert Landed(b, fate.body) <= b;
      assert z + Landed(b, fate.body) <= z + b;
    } else {
      assert Landed(b, fate.body) == [];
    }
  }

  /** The whole record, part of a trailer's fill, or an empty first fragment: nothing the reader trips over. */
  predicate Settled(p: nat, data: seq<Byte>, torn: seq<Byte>) {
    || torn == Encode(p, data, true)
    || |torn| <= HeaderPos(p) - p
    || (data != [] && FragmentLength(p, data) == 0 && torn == FirstPhysical(p, data, true))
  }

  /** The same in the middle of a record, with `scratch` collected so far. */
  predicate SettledIn(p: nat, data: seq<Byte>, begin: bool, scratch: seq<Byte>, torn: seq<Byte>) {
    if begin then Settled(p, data, torn) else torn == Encode(p, data, false) || (torn == [] && scratch == [])
  }

  lemma TailPrefix(file: seq<Byte>, p: nat, a: seq<Byte>, y: seq<Byte>)
    requires p + |a| <= |file| && file[p..p + |a|] == a
    ensures PrefixAt(file + y, p, a)
  {
    forall i | 0 <= i < |a| ensures (file + y)[p + i] == a[i] {
      assert file[p..p + |a|][i] == a[i];
    }
  }

  /** A whole fragment that is not the last one only adds to what is collected. */
  lemma FragmentPasses(file: seq<Byte>, p: nat, data: seq<Byte>, begin: bool, scratch: seq<Byte>)
    requires PrefixAt(file, p, FirstPhysical(p, data, begin)) && FragmentEnd(p, data) <= |file|
    requires FragmentLength(p, data) < |data| && (begin ==> scratch == [])
    ensures RecordFrom(file, p, !begin, scratch) == RecordFrom(file, FragmentEnd(p, data), true, scratch + data[..FragmentLength(p, data)])
  {
    hide ReadPhysical, FirstPhysical, FragmentLength, FragmentEnd;
    ReadsFragment(file, p, data, begin);
    var n, e := FragmentLength(p, data), FragmentEnd(p, data);
    assert [] + data[..n] == data[..n];
    if begin {
      AddDropsTwice(0, 0, RecordFrom(file, e, true, data[..n]));
    }
  }

  lemma LostLater(file: seq<Byte>, p: nat, data: seq<Byte>, begin: bool, scratch: seq<Byte>, o: nat)
    requires FragmentEnd(p, data) <= |file| && file[p..FragmentEnd(p, data)] == FirstPhysical(p, data, begin)
    requires FragmentLength(p, data) < |data| && (begin ==> scratch == [])
    requires Lost(file, FragmentEnd(p, data), true, scratch + data[..FragmentLength(p, data)], o)
    ensures Lost(file, p, !begin, scratch, o)
  {
    hide RecordFrom, FirstPhysical, FragmentLength, FragmentEnd, Encode, PrefixAt;
    var n, e := FragmentLength(p, data), FragmentEnd(p, data);
    var record :| Refuted(RecordFrom(file + Encode(o, record, true), e, true, scratch + data[..n]), record);
    TailPrefix(file, p, FirstPhysical(p, data, begin), Encode(o, record, true));
    FragmentPasses(file + Encode(o, record, true), p, data, begin, scratch);
  }

  /** The reader skips a trailer too small for a header, whatever it holds. */
  lemma LostPastTrailer(file: seq<Byte>, p: nat, q: nat, inside: bool, scratch: seq<Byte>, o: nat)
    requires p <= q <= |file| && (q == p || (BlockEnd(p) - p < HEADER_SIZE && q <= BlockEnd(p)))
    requires Lost(file, q, inside, scratch, o)
    ensures Lost(file, p, inside, scratch, o)
  {
    hide RecordFrom, Encode, ReadPhysical;
    var record :| Refuted(RecordFrom(file + Encode(o, record, true), q, inside, scratch), record);
    InTrailer(file + Encode(o, record, true), p, q);
    SameReadSameRecord(file + Encode(o, record, true), p, q, inside, scratch);
  }

  lemma InTrailer(file: seq<Byte>, p: nat, q: nat)
    requires p <= q <= |file| && (q == p || (BlockEnd(p) - p < HEADER_SIZE && q <= BlockEnd(p)))
    ensures ReadPhysical(file, p) == ReadPhysical(file, q)
  {
    if p < q < BlockEnd(p) {
      assert BlockEnd(q) == BlockEnd(p);
    }
  }

  lemma PendingLosesRecords(file: seq<Byte>, p: nat, scratch: seq<Byte>, o: nat)
    requires p <= |file| && scratch != []
    ensures Lost(file, p, true, scratch, o)
  {
    PendingRefuted(file + Encode(o, [], true), p, scratch);
  }

  lemma BlockStart(p: nat, data: seq<Byte>)
    ensures FragmentLength(p, data) < |data| ==> FragmentEnd(p, data) % BLOCK_SIZE == 0
    ensures p % BLOCK_SIZE == 0 ==> HeaderPos(p) == p && (data != [] ==> FragmentLength(p, data) > 0)
  {
  }

  /** Unless what it left is settled, a failed append loses some record appended after it. */
  lemma {:induction false} UnsettledLosesRecords(file: seq<Byte>, p: nat, data: seq<Byte>, begin: bool, scratch: seq<Byte>,
                                                 torn: seq<Byte>, o: nat)
    requires FailsAt(p, data, begin, torn, o) && |file| == p + |torn| && file[p..] == torn
    requires if begin then scratch == [] else p % BLOCK_SIZE == 0 && data != []
    requires !SettledIn(p, data, begin, scratch, torn)
    ensures Lost(file, p, !begin, scratch, o)
    decreases |data|, Fuel(p)
  {
    hide Lost, FragmentLength, FirstPhysical, FragmentEnd, HeaderPos, Fuel, Encode;
    var n, first, e := FragmentLength(p, data), FirstPhysical(p, data, begin), FragmentEnd(p, data);
    BlockStart(p, data);
    EncodeSplit(p, data, begin);
    if first <= torn && n < |data| {
      assert file[p..e] == torn[..|first|] == first;
      if scratch + data[..n] != [] && torn == first {
        PendingLosesRecords(file, e, scratch + data[..n], o);
      } else {
        if n == 0 {
          FuelDrops(p, data);
        }
        assert file[e..] == torn[|first|..];
        assert torn == first + torn[|first|..];
        UnsettledLosesRecords(file, e, data[n..], false, scratch + data[..n], torn[|first|..], o);
      }
      LostLater(file, p, data, begin, scratch, o);
    } else {
      WithinFragmentLoses(file, p, data, begin, scratch, torn, o);
    }
  }

  lemma WithinFragmentLoses(file: seq<Byte>, p: nat, data: seq<Byte>, begin: bool, scratch: seq<Byte>, torn: seq<Byte>, o: nat)
    requires torn <= FirstPhysical(p, data, begin) && o % BLOCK_SIZE == FragmentEnd(p, data) % BLOCK_SIZE
    requires |file| == p + |torn| && file[p..] == torn && (torn == FirstPhysical(p, data, begin) ==> FragmentLength(p, data) == |data|)
    requires if begin then scratch == [] else p % BLOCK_SIZE == 0 && data != []
    requires !SettledIn(p, data, begin, scratch, torn)
    ensures Lost(file, p, !begin, scratch, o)
  {
    hide Lost, Encode, FragmentLength, Header, Remainder;
    var n, q := FragmentLength(p, data), HeaderPos(p);
    BlockStart(p, data);
    EncodeSplit(p, data, begin);
    LastFragment(p, data, begin);
    if torn == [] && !begin {
      PendingLosesRecords(file, p, scratch, o);
    } else {
      var t := RecordType(begin, |data| == n);
      TornBody(file, p, t, data[..n], torn);
      TornLosesRecords(file, q, t, data[..n], |file| - q, o, !begin, scratch);
      LostPastTrailer(file, p, q, !begin, scratch, o);
    }
  }

  lemma LastFragment(p: nat, data: seq<Byte>, begin: bool)
    ensures FragmentLength(p, data) == |data| ==> Encode(p, data, begin) == FirstPhysical(p, data, begin)
  {
    hide FirstPhysical;
  }

  lemma TornBody(file: seq<Byte>, p: nat, t: nat, payload: seq<Byte>, torn: seq<Byte>)
    requires t < 256 && |payload| < 65536 && torn <= Physical(p, t, payload) && |torn| > HeaderPos(p) - p
    requires |file| == p + |torn| && file[p..] == torn
    ensures file[HeaderPos(p)..] == (Header(t, payload) + payload)[..|file| - HeaderPos(p)]
  {
    hide Header, BlockEnd;
    var q := HeaderPos(p);
    var z, b := Zeros(q - p), Header(t, payload) + payload;
    assert Physical(p, t, payload) == z + b;
    assert file[q..] == torn[q - p..] == (z + b)[..|torn|][q - p..];
    assert (z + b)[..|torn|] == z + b[..|torn| - (q - p)];
  }

  // ----- reading up to the damage and from there on -----

  lemma {:induction false} ReadsThrough(file: seq<Byte>, p: nat, good: seq<seq<Byte>>)
    requires PrefixAt(file, p, EncodeAll(p, good)) && p + |EncodeAll(p, good)| <= |file|
    ensures var e := p + |EncodeAll(p, good)|;
            ReadAll(file, p) == (good + ReadAll(file, e).0, ReadAll(file, e).1)
    decreases good
  {
    hide Encode, RecordFrom, PrefixAt;
    if good == [] {
      assert [] + ReadAll(file, p).0 == ReadAll(file, p).0;
    } else {
      var first := Encode(p, good[0], true);
      var q := p + |first|;
      PrefixSplit(file, p, first, EncodeAll(q, good[1..]));
      ReadsRecord(file, p, good[0], true, []);
      assert [] + good[0] == good[0];
      ReadsThrough(file, q, good[1..]);
      var rest := ReadAll(file, p + |EncodeAll(p, good)|).0;
      assert [good[0]] + (good[1..] + rest) == good + rest;
    }
  }

  lemma {:induction false} EncodeAllCongruent(p: nat, q: nat, rs: seq<seq<Byte>>)
    requires p % BLOCK_SIZE == q % BLOCK_SIZE
    ensures EncodeAll(p, rs) == EncodeAll(q, rs)
    decreases rs
  {
    hide Encode;
    if rs != [] {
      EncodeCongruent(p, q, rs[0], true);
      var n := |Encode(p, rs[0], true)|;
      SameRemainder(p, q, n);
      EncodeAllCongruent(p + n, q + n, rs[1..]);
    }
  }

  lemma {:induction false} WholeAll(p: nat, rs: seq<seq<Byte>>, size: nat)
    requires p + |EncodeAll(p, rs)| <= size
    ensures Whole(p, rs, size) == |rs|
    decreases rs
  {
    hide Encode;
    if rs != [] {
      WholeAll(p + |Encode(p, rs[0], true)|, rs[1..], size);
    }
  }

  lemma ReadsOn(file: seq<Byte>, rs: seq<seq<Byte>>)
    ensures ReadAll(file + EncodeAll(|file|, rs), |file|) == (rs, 0)
  {
    hide ReadAll, EncodeAll, Whole;
    var y := EncodeAll(|file|, rs);
    ReadsAll(file + y, |file|, rs);
    WholeAll(|file|, rs, |file + y|);
    assert rs[..|rs|] == rs;
  }

  /** The file begins with the records `good`. */
  ghost predicate Begins(file: seq<Byte>, good: seq<seq<Byte>>) {
    EncodeAll(0, good) <= file
  }

  lemma ReadsGood(file: seq<Byte>, good: seq<seq<Byte>>, y: seq<Byte>)
    requires Begins(file, good)
    ensures var p := |EncodeAll(0, good)|;
            ReadAll(file + y, 0) == (good + ReadAll(file + y, p).0, ReadAll(file + y, p).1)
  {
    hide ReadAll, EncodeAll;
    TailPrefix(file, 0, EncodeAll(0, good), y);
    ReadsThrough(file + y, 0, good);
  }

  lemma OneRecord(o: nat, record: seq<Byte>)
    ensures EncodeAll(o, [record]) == Encode(o, record, true)
  {
    hide Encode;
    assert [record][1..] == [];
  }

  lemma RefutedIsNotRead(file: seq<Byte>, p: nat, record: seq<Byte>)
    requires p <= |file| && Refuted(RecordFrom(file, p, false, []), record)
    ensures ReadAll(file, p) != ([record], 0)
  {
    hide RecordFrom;
    RecordFromProgress(file, p, false, []);
    var r := RecordFrom(file, p, false, []);
    if r.Done? {
      assert ([r.record] + ReadAll(file, r.next).0)[0] == r.record;
    }
  }

  lemma PrefixCancels(a: seq<seq<Byte>>, b: seq<seq<Byte>>, c: seq<seq<Byte>>)
    ensures a + b == a + c ==> b == c
  {
    assert (a + b)[|a|..] == b && (a + c)[|a|..] == c;
  }

  lemma LostIsNotReadBack(file: seq<Byte>, good: seq<seq<Byte>>, o: nat)
    requires Begins(file, good) && Lost(file, |EncodeAll(0, good)|, false, [], o)
    ensures !ReadsBack(file, o, good)
  {
    hide RecordFrom, ReadAll, EncodeAll, Encode;
    var p := |EncodeAll(0, good)|;
    var record :| Refuted(RecordFrom(file + Encode(o, record, true), p, false, []), record);
    OneRecord(o, record);
    var all := file + EncodeAll(o, [record]);
    ReadsGood(file, good, EncodeAll(o, [record]));
    RefutedIsNotRead(all, p, record);
    PrefixCancels(good, ReadAll(all, p).0, [record]);
  }

  /** From the end of the good records the reader gets to the end of the file with nothing in hand. */
  ghost predicate Resumes(file: seq<Byte>, p: nat)
    requires p <= |file|
  {
    forall rs :: ReadAll(file + EncodeAll(|file|, rs), p) == ReadAll(file + EncodeAll(|file|, rs), |file|)
  }

  lemma ResumedIsReadBack(file: seq<Byte>, good: seq<seq<Byte>>, o: nat)
    requires Begins(file, good) && Resumes(file, |EncodeAll(0, good)|) && o % BLOCK_SIZE == |file| % BLOCK_SIZE
    ensures ReadsBack(file, o, good)
  {
    hide ReadAll, EncodeAll;
    forall rs ensures ReadAll(file + EncodeAll(o, rs), 0) == (good + rs, 0) {
      EncodeAllCongruent(o, |file|, rs);
      ReadsGood(file, good, EncodeAll(o, rs));
      ReadsOn(file, rs);
    }
  }

  /** As long as nothing is torn, the offset decides: later records are read back exactly when it agrees with the file. */
  lemma InStepIff(good: seq<seq<Byte>>, o: nat)
    ensures ReadsBack(EncodeAll(0, good), o, good) <==> o % BLOCK_SIZE == |EncodeAll(0, good)| % BLOCK_SIZE
  {
    hide EncodeAll, ReadsBack, Lost;
    var file := EncodeAll(0, good);
    if o % BLOCK_SIZE == |file| % BLOCK_SIZE {
      ResumedIsReadBack(file, good, o);
    } else {
      MisalignedLosesRecords(file, o, false);
      LostIsNotReadBack(file, good, o);
    }
  }

  // ----- what is settled -----

  lemma SameRecordSameAll(file: seq<Byte>, p: nat, q: nat)
    requires p <= |file| && q <= |file| && RecordFrom(file, p, false, []) == RecordFrom(file, q, false, [])
    ensures ReadAll(file, p) == ReadAll(file, q)
  {
    hide RecordFrom;
  }

  lemma TrailerResumes(file: seq<Byte>, p: nat)
    requires p <= |file| && |file| - p <= HeaderPos(p) - p
    ensures Resumes(file, p)
  {
    hide ReadAll, EncodeAll, RecordFrom, ReadPhysical;
    forall rs ensures ReadAll(file + EncodeAll(|file|, rs), p) == ReadAll(file + EncodeAll(|file|, rs), |file|) {
      var all := file + EncodeAll(|file|, rs);
      InTrailer(all, p, |file|);
      SameReadSameRecord(all, p, |file|, false, []);
      SameRecordSameAll(all, p, |file|);
    }
  }

  /** A fresh record starts with a FULL or FIRST fragment, which an empty first fragment does not disturb. */
  lemma FreshAfterEmpty(file: seq<Byte>, rs: seq<seq<Byte>>)
    ensures var all := file + EncodeAll(|file|, rs);
            RecordFrom(all, |file|, true, []) == RecordFrom(all, |file|, false, [])
  {
    hide ReadPhysical, FirstPhysical, FragmentLength;
    var x, all := |file|, file + EncodeAll(|file|, rs);
    if rs == [] {
      assert all == file;
      ShortTail(all, x);
    } else {
      var first := FirstPhysical(x, rs[0], true);
      StartsWith(x, rs);
      FreshPrefix(file, first, EncodeAll(x, rs));
      ReadsFragment(all, x, rs[0], true);
    }
  }

  lemma StartsWith(x: nat, rs: seq<seq<Byte>>)
    requires rs != []
    ensures FirstPhysical(x, rs[0], true) <= EncodeAll(x, rs)
  {
    hide FirstPhysical, Remainder;
    var first, rest := FirstPhysical(x, rs[0], true), Remainder(x, rs[0]);
    var more := EncodeAll(x + |Encode(x, rs[0], true)|, rs[1..]);
    ConcatAssoc(first, rest, more);
  }

  lemma FreshPrefix(file: seq<Byte>, a: seq<Byte>, y: seq<Byte>)
    requires a <= y
    ensures PrefixAt(file + y, |file|, a)
  {
    forall i | 0 <= i < |a| ensures (file + y)[|file| + i] == a[i] {
      assert y[..|a|][i] == a[i];
    }
  }

  lemma EmptyFirstResumes(file: seq<Byte>, p: nat, data: seq<Byte>)
    requires data != [] && FragmentLength(p, data) == 0 && p <= |file| && file[p..] == FirstPhysical(p, data, true)
    ensures Resumes(file, p)
  {
    hide ReadAll, EncodeAll, RecordFrom, FirstPhysical, FragmentLength;
    forall rs ensures ReadAll(file + EncodeAll(|file|, rs), p) == ReadAll(file + EncodeAll(|file|, rs), |file|) {
      EmptyFirstPasses(file, p, data, EncodeAll(|file|, rs));
      FreshAfterEmpty(file, rs);
      SameRecordSameAll(file + EncodeAll(|file|, rs), p, |file|);
    }
  }

  lemma EmptyFirstPasses(file: seq<Byte>, p: nat, data: seq<Byte>, y: seq<Byte>)
    requires data != [] && FragmentLength(p, data) == 0 && p <= |file| && file[p..] == FirstPhysical(p, data, true)
    ensures RecordFrom(file + y, p, false, []) == RecordFrom(file + y, |file|, true, [])
  {
    hide RecordFrom, FragmentLength, Header;
    assert FragmentEnd(p, data) == |file|;
    TailPrefix(file, p, FirstPhysical(p, data, true), y);
    FragmentPasses(file + y, p, data, true, []);
    assert [] + data[..0] == [];
  }

  // ----- the theorem -----

  /**
  After any failed append, everything appended later is read back if and only if the writer's
  offset still agrees with the length of the file and what the append left behind is settled.
  */
  lemma FailedAppendIff(good: seq<seq<Byte>>, data: seq<Byte>, o: nat, fates: seq<Fate>)
    requires o % BLOCK_SIZE == |EncodeAll(0, good)| % BLOCK_SIZE && InOrder(fates) && !Writing(o, data, true, fates).ok
    ensures
      var before, w := EncodeAll(0, good), Writing(o, data, true, fates);
      var head := if w.bytes == Encode(|before|, data, true) then good + [data] else good;
      ReadsBack(before + w.bytes, w.offset, head) <==>
        w.offset % BLOCK_SIZE == |before + w.bytes| % BLOCK_SIZE && Settled(|before|, data, w.bytes)
  {
    hide EncodeAll, Encode, Writing, FailsAt, ReadsBack, Lost, FirstPhysical, FragmentLength, HeaderPos;
    var before, w := EncodeAll(0, good), Writing(o, data, true, fates);
    var p, file := |before|, before + w.bytes;
    WritingFails(p, o, data, true, fates);
    assert file[p..] == w.bytes && Begins(file, good);
    if w.bytes == Encode(p, data, true) {
      EncodeAllSnoc(0, good, data);
      assert EncodeAll(0, good + [data]) == file;
      InStepIff(good + [data], w.offset);
    } else if !Settled(p, data, w.bytes) {
      UnsettledLosesRecords(file, p, data, true, [], w.bytes, w.offset);
      LostIsNotReadBack(file, good, w.offset);
    } else {
      SettledIff(file, good, p, data, w.bytes, w.offset);
    }
  }

  lemma SettledIff(file: seq<Byte>, good: seq<seq<Byte>>, p: nat, data: seq<Byte>, torn: seq<Byte>, o: nat)
    requires p == |EncodeAll(0, good)| && Begins(file, good) && |file| == p + |torn| && file[p..] == torn
    requires Settled(p, data, torn) && torn != Encode(p, data, true)
    ensures ReadsBack(file, o, good) <==> o % BLOCK_SIZE == |file| % BLOCK_SIZE
  {
    hide EncodeAll, Encode, ReadsBack, Lost, FirstPhysical, FragmentLength, Resumes;
    var fill := |torn| <= HeaderPos(p) - p;
    if o % BLOCK_SIZE == |file| % BLOCK_SIZE {
      if fill {
        TrailerResumes(file, p);
      } else {
        EmptyFirstResumes(file, p, data);
      }
      ResumedIsReadBack(file, good, o);
    } else {
      MisalignedLosesRecords(file, o, !fill);
      if fill {
        LostPastTrailer(file, p, |file|, false, [], o);
      } else {
        LostAfterEmptyFirst(file, p, data, o);
      }
      LostIsNotReadBack(file, good, o);
    }
  }

  lemma LostAfterEmptyFirst(file: seq<Byte>, p: nat, data: seq<Byte>, o: nat)
    requires data != [] && FragmentLength(p, data) == 0 && p <= |file| && file[p..] == FirstPhysical(p, data, true)
    requires Lost(file, |file|, true, [], o)
    ensures Lost(file, p, false, [], o)
  {
    hide RecordFrom, FirstPhysical, FragmentLength, Encode;
    var record :| Refuted(RecordFrom(file + Encode(o, record, true), |file|, true, []), record);
    EmptyFirstPasses(file, p, data, Encode(o, record, true));
  }

  // ----- a record that is acknowledged and lost -----

  /**
  A 100-byte record fails with nothing written. The next record fills the writer's block, and
  the one after it, written and acknowledged, crosses the end of the file's block: the reader
  reports a bad length and drops it, and skips its last bytes as a block never written to.
  */
  lemma AcknowledgedRecordLost(lost: seq<Byte>, first: seq<Byte>, second: seq<Byte>)
    requires |lost| == 100 && |first| == 32654 && |second| == 200 && second[100..] == Zeros(100)
    ensures Writing(0, lost, true, [Fate(None, Some(0))]) == Written([], 107, false, true)
    ensures Writing(107, first, true, []) == Written(Encode(107, first, true), 32768, true, false)
    ensures Writing(32768, second, true, []) == Written(Encode(32768, second, true), 207, true, false)
    ensures ReadAll(Encode(107, first, true) + Encode(32768, second, true), 0) == ([first], 1)
  {
    hide Writing, Encode, ReadAll, HeaderPos, Avail, BlockEnd, Header;
    Rooms();
    OneFragment(0, lost);
    OneFragment(107, first);
    OneFragment(32768, second);
    var file := Encode(107, first, true) + Encode(32768, second, true);
    LostBytes(file, first, second);
    LostRead(file, first, second);
  }

  lemma Rooms()
    ensures HeaderPos(0) == 0 && HeaderPos(107) == 107 && HeaderPos(32768) == 32768
    ensures Avail(0) == Avail(32768) == 32761 && Avail(107) == 32654
  {
  }

  /** A record that fits in the block the writer is in. */
  lemma OneFragment(o: nat, data: seq<Byte>)
    requires HeaderPos(o) == o && |data| <= Avail(o)
    ensures Encode(o, data, true) == Header(FULL, data) + data
    ensures Writing(o, data, true, []) == Written(Encode(o, data, true), o % BLOCK_SIZE + HEADER_SIZE + |data|, true, false)
    ensures Writing(o, data, true, [Fate(None, Some(0))]) == Written([], o % BLOCK_SIZE + HEADER_SIZE + |data|, false, true)
  {
    hide Header;
    assert data[..|data|] == data && FragmentLength(o, data) == |data|;
    LastFragment(o, data, true);
    FragmentParts(o, data, true);
    assert Zeros(0) == [];
    var body := FragmentBody(o, data, true);
    assert Landed([], None) + Landed(body, Some(0)) == [];
  }

  lemma LostBytes(file: seq<Byte>, first: seq<Byte>, second: seq<Byte>)
    requires |first| == 32654 && |second| == 200 && second[100..] == Zeros(100)
    requires file == Header(FULL, first) + first + (Header(FULL, second) + second)
    ensures |file| == 32868 && file[..7] == Header(FULL, first) && file[7..32661] == first
    ensures file[32661..32668] == Header(FULL, second) && file[32768..] == Zeros(100)
  {
    hide Header;
  }

  lemma LostRead(file: seq<Byte>, first: seq<Byte>, second: seq<Byte>)
    requires |first| == 32654 && |second| == 200
    requires |file| == 32868 && file[..7] == Header(FULL, first) && file[7..32661] == first
    requires file[32661..32668] == Header(FULL, second) && file[32768..] == Zeros(100)
    ensures ReadAll(file, 0) == ([first], 1)
  {
    hide Header, LengthField, ReadPhysical, RecordFrom, ReadAll, BlockEnd, HoldsAt;
    Ends();
    assert HoldsAt(file, 0, FULL, first) by { FirstHolds(file, first); }
    WholeFragmentReads(file, 0, FULL, first);
    FullIsDone(file, 0, first, 32661);
    HeaderParses(FULL, second);
    LongHeader(file, 32661);
    ZeroBlock(file, 32768);
    ShortTail(file, 32868);
    NothingLeft(file, 32661, 32768);
    assert [first] + [] == [first];
  }

  lemma Ends()
    ensures HeaderPos(0) == 0 && BlockEnd(32661) == 32768 && BlockEnd(32768) == BlockEnd(32868) == 65536
  {
  }

  lemma FirstHolds(file: seq<Byte>, first: seq<Byte>)
    requires |first| == 32654 && |file| == 32868 && file[..7] == Header(FULL, first) && file[7..32661] == first
    ensures HoldsAt(file, 0, FULL, first)
  {
    hide Header;
  }

  lemma FullIsDone(file: seq<Byte>, p: nat, record: seq<Byte>, next: nat)
    requires p < next <= |file| && ReadPhysical(file, p) == Fragment(FULL, record, next)
    ensures ReadAll(file, p) == ([record] + ReadAll(file, next).0, ReadAll(file, next).1)
  {
    hide ReadPhysical;
  }

  /** A reported bad record, a block of zeros, the end. */
  lemma NothingLeft(file: seq<Byte>, p: nat, q: nat)
    requires p < q < |file| && ReadPhysical(file, p) == Bad(q, true) && ReadPhysical(file, q) == Bad(|file|, false)
    requires ReadPhysical(file, |file|) == Eof
    ensures ReadAll(file, p) == ([], 1)
  {
    hide ReadPhysical;
    assert RecordFrom(file, |file|, false, []) == End(0);
    assert RecordFrom(file, q, false, []) == End(0);
    assert RecordFrom(file, p, false, []) == End(1);
  }

  lemma LongHeader(file: seq<Byte>, e: nat)
    requires e + HEADER_SIZE <= BlockEnd(e) <= |file|
    requires e + HEADER_SIZE + LengthField(file[e..e + HEADER_SIZE]) > BlockEnd(e)
    ensures ReadPhysical(file, e) == Bad(BlockEnd(e), true)
  {
    hide LengthField, ChecksumOk;
    var buffer := file[e..BlockEnd(e)];
    assert buffer[..HEADER_SIZE] == file[e..e + HEADER_SIZE];
    assert ReadPhysical(file, e) == ParseBuffer(buffer, e, false);
  }

  lemma ZeroBlock(file: seq<Byte>, e: nat)
    requires e + HEADER_SIZE <= |file| < BlockEnd(e) && file[e..] == Zeros(|file| - e)
    ensures ReadPhysical(file, e) == Bad(|file|, false)
  {
    hide ChecksumOk;
    var buffer := file[e..|file|];
    assert buffer == Zeros(|file| - e);
    assert ReadPhysical(file, e) == ParseBuffer(buffer, e, true);
  }
}
