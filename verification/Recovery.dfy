/**
Replaying a log file after a crash: the log reader, the batch parser and the writer queue
together. What a synced write put in the log is back in memory afterwards, unless a write to
the same file had failed before it.
*/
module Recovery {
  import opened Common
  import opened Crc
  import opened Coding
  import opened WriteBatch
  import opened GroupCommit
  import opened WriteQueue
  import opened Log
  import opened LogFaults

  // ----- replaying records -----

  function UpdatesOf(r: seq<Byte>): seq<Placed> {
    if |r| < HEADER then [] else PlacedAt(SequenceOf(r), Parse(r[HEADER..]).1)
  }

  function Updates(rs: seq<seq<Byte>>): seq<Placed> {
    if rs == [] then [] else Updates(rs[..|rs| - 1]) + UpdatesOf(rs[|rs| - 1])
  }

  predicate Sound(r: seq<Byte>) {
    |r| >= HEADER && Parse(r[HEADER..]).0 && |Parse(r[HEADER..]).1| == CountOf(r)
  }

  /** The highest sequence number in use after the records; 64-bit arithmetic. */
  function LastUsed(start: nat, rs: seq<seq<Byte>>): nat {
    if rs == [] then start
    else
      var before := LastUsed(start, rs[..|rs| - 1]);
      var r := rs[|rs| - 1];
      if |r| < HEADER then before
      else
        var last := (SequenceOf(r) + CountOf(r) + TWO64 - 1) % TWO64;
        if last > before then last else before
  }

  lemma UpdatesSnoc(rs: seq<seq<Byte>>, r: seq<Byte>, start: nat)
    ensures Updates(rs + [r]) == Updates(rs) + UpdatesOf(r)
    ensures LastUsed(start, rs + [r]) ==
            if |r| < HEADER then LastUsed(start, rs)
            else
              var last := (SequenceOf(r) + CountOf(r) + TWO64 - 1) % TWO64;
              if last > LastUsed(start, rs) then last else LastUsed(start, rs)
  {
    hide SequenceOf, CountOf, UpdatesOf;
    assert (rs + [r])[..|rs + [r]| - 1] == rs;
  }

  ghost predicate AllSound(rs: seq<seq<Byte>>) {
    forall i :: 0 <= i < |rs| ==> Sound(rs[i])
  }

  /** What is read so far and what is left make up the whole file. */
  ghost predicate ReadSoFar(file: seq<Byte>, seen: seq<seq<Byte>>, drops: nat, p: int) {
    0 <= p <= |file| && ReadAll(file, 0) == (seen + ReadAll(file, p).0, drops + ReadAll(file, p).1)
  }

  function Joined(tables: seq<seq<Placed>>): seq<Placed> {
    if tables == [] then [] else Joined(tables[..|tables| - 1]) + tables[|tables| - 1]
  }

  lemma JoinedSnoc(tables: seq<seq<Placed>>, t: seq<Placed>)
    ensures Joined(tables + [t]) == Joined(tables) + t
  {
    assert (tables + [t])[..|tables + [t]| - 1] == tables;
  }

  function InMemory(mem: Option<seq<Placed>>): seq<Placed> {
    if mem.Some? then mem.value else []
  }

  /** The tables filled by the records so far, and the memtable: it becomes a table after each record that `full` names. */
  datatype Filling = Filling(tables: seq<seq<Placed>>, mem: Option<seq<Placed>>)

  function Filled(rs: seq<seq<Byte>>, full: nat -> bool): Filling {
    if rs == [] then Filling([], None)
    else
      var before, r := Filled(rs[..|rs| - 1], full), rs[|rs| - 1];
      if |r| < HEADER then before
      else
        var mem := InMemory(before.mem) + UpdatesOf(r);
        if full(|rs|) then Filling(before.tables + [mem], None) else Filling(before.tables, Some(mem))
  }

  /** What is in memory at the end becomes the last table. */
  function AllTables(f: Filling): seq<seq<Placed>> {
    if f.mem.Some? then f.tables + [f.mem.value] else f.tables
  }

  lemma FilledSnoc(rs: seq<seq<Byte>>, r: seq<Byte>, full: nat -> bool)
    ensures Filled(rs + [r], full) ==
            (var before := Filled(rs, full);
             if |r| < HEADER then before
             else
               var mem := InMemory(before.mem) + UpdatesOf(r);
               if full(|rs| + 1) then Filling(before.tables + [mem], None) else Filling(before.tables, Some(mem)))
  {
    hide UpdatesOf;
    assert (rs + [r])[..|rs + [r]| - 1] == rs;
  }

  /** However the memtable fills, the tables hold every update replayed, in order. */
  lemma {:induction false} TablesHoldAll(rs: seq<seq<Byte>>, full: nat -> bool)
    ensures Joined(AllTables(Filled(rs, full))) == Updates(rs)
    ensures Joined(Filled(rs, full).tables) + InMemory(Filled(rs, full).mem) == Updates(rs)
  {
    hide UpdatesOf, Joined;
    var f := Filled(rs, full);
    if rs == [] {
      assert Joined([]) == [] by { JoinedNone(); }
    } else {
      var n := |rs| - 1;
      var before := Filled(rs[..n], full);
      TablesHoldAll(rs[..n], full);
      JoinedSnoc(before.tables, InMemory(before.mem) + UpdatesOf(rs[n]));
      ConcatAssoc(Joined(before.tables), InMemory(before.mem), UpdatesOf(rs[n]));
      ShortHasNone(rs[n]);
    }
    JoinedSnoc(f.tables, InMemory(f.mem));
    assert Joined(f.tables) + [] == Joined(f.tables);
  }

  lemma JoinedNone()
    ensures Joined([]) == []
  {
  }

  lemma ShortHasNone(r: seq<Byte>)
    ensures |r| < HEADER ==> UpdatesOf(r) == []
  {
  }

  /**
  DBImpl::RecoverLogFile. With paranoid checks any reported loss or malformed batch fails the
  recovery; without, everything readable is applied. The memtable is written out as a table
  whenever it is over the write buffer size, and once more at the end: `full` says after which
  records it is, `written` which table writes succeed.
  */
  method RecoverLogFile(file: seq<Byte>, paranoid: bool, start: nat, full: nat -> bool, written: nat -> bool)
    returns (ok: bool, tables: seq<seq<Placed>>, maxSequence: nat)
    ensures (forall i :: written(i)) ==> (ok <==> !paranoid || (ReadAll(file, 0).1 == 0 && AllSound(ReadAll(file, 0).0)))
    ensures ok && paranoid ==> ReadAll(file, 0).1 == 0 && AllSound(ReadAll(file, 0).0)
    ensures ok ==> tables == AllTables(Filled(ReadAll(file, 0).0, full)) && Joined(tables) == Updates(ReadAll(file, 0).0)
    ensures ok ==> maxSequence == LastUsed(start, ReadAll(file, 0).0)
  {
    hide ReadAll, RecordFrom, Parse, BlockEnd, Reader.Valid, Updates, LastUsed, SequenceOf, CountOf, Joined, Filled, UpdatesOf;
    var reader := new Reader(file);
    var mem: Option<seq<Placed>>, count := None, 0;
    ok, tables, maxSequence := true, [], start;
    ghost var seen: seq<seq<Byte>> := [];
    StartReading(file, start);
    NothingFilled(full);
    while true
      invariant reader.Valid() && fresh(reader) && reader.file == file
      invariant ReadSoFar(file, seen, reader.drops, reader.Pos()) && ok
      invariant Filling(tables, mem) == Filled(seen, full) && count == |seen| && maxSequence == LastUsed(start, seen)
      invariant paranoid ==> AllSound(seen) && reader.drops == 0
      decreases |file| - reader.Pos()
    {
      ghost var p := reader.Pos();
      ReadOn(file, seen, reader.drops, p);
      var more, record := reader.ReadRecord();
      ok := !paranoid || reader.drops == 0;
      if !ok {
        return;
      }
      if !more {
        break;
      }
      UpdatesSnoc(seen, record, start);
      FilledSnoc(seen, record, full);
      seen, count := seen + [record], count + 1;
      if |record| < HEADER {
        ok := !paranoid;
        if !ok {
          UnsoundStays(file, seen, reader.drops, reader.Pos());
          return;
        }
      } else {
        var sound, updates := InsertInto(record);
        assert updates == UpdatesOf(record) by { UpdatesAre(record); }
        mem := Some(InMemory(mem) + updates);
        ok := sound || !paranoid;
        if !ok {
          UnsoundStays(file, seen, reader.drops, reader.Pos());
          return;
        }
        var last := (SequenceOf(record) + CountOf(record) + TWO64 - 1) % TWO64;
        if last > maxSequence {
          maxSequence := last;
        }
        if full(count) {
          ok := written(|tables|);
          tables, mem := tables + [mem.value], None;
          if !ok {
            return;
          }
        }
      }
    }
    TablesHoldAll(seen, full);
    if mem.Some? {
      ok := written(|tables|);
      tables := tables + [mem.value];
    }
  }

  lemma NothingFilled(full: nat -> bool)
    ensures Filled([], full) == Filling([], None)
  {
  }

  lemma UpdatesAre(r: seq<Byte>)
    requires |r| >= HEADER
    ensures UpdatesOf(r) == PlacedAt(SequenceOf(r), Parse(r[HEADER..]).1)
  {
  }

  lemma UnsoundStays(file: seq<Byte>, seen: seq<seq<Byte>>, drops: nat, p: int)
    requires ReadSoFar(file, seen, drops, p) && seen != [] && !Sound(seen[|seen| - 1])
    ensures !AllSound(ReadAll(file, 0).0)
  {
    hide ReadAll, Sound;
    assert ReadAll(file, 0).0[|seen| - 1] == seen[|seen| - 1];
  }

  lemma StartReading(file: seq<Byte>, start: nat)
    ensures ReadSoFar(file, [], 0, 0) && Updates([]) == [] && LastUsed(start, []) == start
  {
    hide ReadAll;
    assert [] + ReadAll(file, 0).0 == ReadAll(file, 0).0;
  }

  /** One more record, or the end. */
  lemma ReadOn(file: seq<Byte>, seen: seq<seq<Byte>>, drops: nat, p: nat)
    requires ReadSoFar(file, seen, drops, p)
    ensures
      match RecordFrom(file, p, false, [])
      case Done(record, next, d) => p < next && ReadSoFar(file, seen + [record], drops + d, next)
      case End(d) => ReadAll(file, 0) == (seen, drops + d)
  {
    hide RecordFrom;
    RecordFromProgress(file, p, false, []);
    match RecordFrom(file, p, false, [])
    case Done(record, next, d) =>
      assert seen + ([record] + ReadAll(file, next).0) == seen + [record] + ReadAll(file, next).0;
    case End(d) =>
      assert seen + [] == seen;
  }

  // ----- what the writer queue put in the log -----

  /** Lengths and sequence numbers within the widths of the format. */
  ghost predicate RecordFits(r: Record) {
    1 <= r.first && r.first + |r.ops| < TWO64 && |r.ops| < TWO32 && forall op :: op in r.ops ==> Fits(op)
  }

  ghost predicate AllFit(rs: seq<Record>) {
    forall i :: 0 <= i < |rs| ==> RecordFits(rs[i])
  }

  function UpdatesIn(rs: seq<Record>): seq<Placed> {
    if rs == [] then [] else UpdatesIn(rs[..|rs| - 1]) + PlacedAt(rs[|rs| - 1].first, rs[|rs| - 1].ops)
  }

  lemma ReplayOne(r: Record)
    requires RecordFits(r)
    ensures Sound(BytesOf(r)) && UpdatesOf(BytesOf(r)) == PlacedAt(r.first, r.ops)
    ensures |BytesOf(r)| >= HEADER && SequenceOf(BytesOf(r)) == r.first && CountOf(BytesOf(r)) == |r.ops|
  {
    hide Rep, Parse, SequenceOf, CountOf, Fits;
    ReplayRoundTrip(r.first, r.ops);
  }

  /** Within 64 bits, the last sequence number of a batch is the one its last update takes. */
  lemma LastOfBatch(r: Record)
    requires RecordFits(r)
    ensures (r.first + |r.ops| + TWO64 - 1) % TWO64 == r.first + |r.ops| - 1
    ensures forall p :: p in PlacedAt(r.first, r.ops) ==> p.sequence <= r.first + |r.ops| - 1
  {
  }

  ghost predicate Covers(last: nat, ps: seq<Placed>) {
    forall p :: p in ps ==> p.sequence <= last
  }

  lemma CoversMore(last: nat, last': nat, ps: seq<Placed>, qs: seq<Placed>)
    requires Covers(last, ps) && Covers(last', qs) && last <= last'
    ensures Covers(last', ps + qs)
  {
  }

  /** Replaying what was logged yields the logged updates, and leaves no sequence number to be used twice. */
  lemma {:induction false} ReplayAll(rs: seq<Record>, start: nat)
    requires AllFit(rs)
    ensures AllSound(AllBytes(rs)) && Updates(AllBytes(rs)) == UpdatesIn(rs)
    ensures Covers(LastUsed(start, AllBytes(rs)), UpdatesIn(rs))
  {
    hide BytesOf, UpdatesOf, SequenceOf, CountOf, Sound, RecordFits, Covers, Updates, LastUsed, AllBytes;
    if rs == [] {
      ReplayNothing(start);
      assert AllBytes(rs) == [];
    } else {
      var n := |rs| - 1;
      var r := rs[n];
      BytesSnoc(rs);
      ReplayAll(rs[..n], start);
      ReplayOne(r);
      LastOfBatch(r);
      UpdatesSnoc(AllBytes(rs[..n]), BytesOf(r), start);
      CoversOne(LastUsed(start, AllBytes(rs)), r);
      CoversMore(LastUsed(start, AllBytes(rs[..n])), LastUsed(start, AllBytes(rs)), UpdatesIn(rs[..n]), PlacedAt(r.first, r.ops));
    }
  }

  lemma ReplayNothing(start: nat)
    ensures Updates([]) == [] && UpdatesIn([]) == [] && Covers(LastUsed(start, []), [])
  {
  }

  lemma BytesSnoc(rs: seq<Record>)
    requires rs != [] && AllFit(rs)
    ensures AllFit(rs[..|rs| - 1]) && RecordFits(rs[|rs| - 1])
    ensures AllBytes(rs) == AllBytes(rs[..|rs| - 1]) + [BytesOf(rs[|rs| - 1])]
  {
    hide BytesOf, RecordFits;
  }

  lemma CoversOne(last: nat, r: Record)
    requires RecordFits(r) && r.first + |r.ops| - 1 <= last
    ensures Covers(last, PlacedAt(r.first, r.ops))
  {
  }

  lemma EncodeAllGrows(records: seq<seq<Byte>>, i: nat, j: nat)
    requires i < j <= |records|
    ensures |EncodeAll(0, records[..i])| < |EncodeAll(0, records[..j])|
    decreases j
  {
    hide EncodeAll;
    if i < j - 1 { EncodeAllGrows(records, i, j - 1); }
    assert records[..j] == records[..j - 1] + [records[j - 1]];
    EncodeAllSnoc(0, records[..j - 1], records[j - 1]);
    EncodeNotEmpty(|EncodeAll(0, records[..j - 1])|, records[j - 1]);
  }

  lemma EncodeNotEmpty(p: nat, data: seq<Byte>)
    ensures |Encode(p, data, true)| > 0
  {
    hide Remainder;
  }

  /** However a file no write to which failed was cut past its synced part, replay finds whole records, the synced ones among them. */
  lemma CutFileReplays(file: LogFile, size: nat) returns (k: nat)
    requires LogOk(file) && AllFit(file.records) && !file.faulty && file.syncedBytes <= size <= |file.bytes|
    ensures file.synced <= k <= |file.records| && AllFit(file.records[..k])
    ensures ReadAll(file.bytes[..size], 0) == (AllBytes(file.records[..k]), 0)
  {
    hide ReadAll, EncodeAll, BytesOf, RecordFits;
    var records := AllBytes(file.records);
    CrashRecovery(records, size);
    k :| 0 <= k <= |records| && ReadAll(EncodeAll(0, records)[..size], 0) == (records[..k], 0)
      && |EncodeAll(0, records[..k])| <= size && (k < |records| ==> size < |EncodeAll(0, records[..k + 1])|);
    assert records[..file.synced] == AllBytes(file.records[..file.synced]);
    if k < file.synced {
      if k + 1 < file.synced { EncodeAllGrows(records, k + 1, file.synced); }
    }
    assert records[..k] == AllBytes(file.records[..k]);
  }

  lemma {:induction false} EncodeAllPrefix(records: seq<seq<Byte>>, i: nat)
    requires i <= |records|
    ensures EncodeAll(0, records[..i]) <= EncodeAll(0, records)
    decreases |records|
  {
    hide EncodeAll, Encode;
    var n := |records|;
    if i == n {
      assert records[..i] == records;
    } else {
      EncodeAllPrefix(records[..n - 1], i);
      assert records[..n - 1][..i] == records[..i] && records == records[..n - 1] + [records[n - 1]];
      EncodeAllSnoc(0, records[..n - 1], records[n - 1]);
    }
  }

  /** However the file was cut past its synced part, the synced records appended before any write failed are read first. */
  lemma CutFileKeepsIntact(file: LogFile, size: nat)
    requires LogOk(file) && file.syncedBytes <= size <= |file.bytes|
    ensures AllBytes(file.records[..Min(file.synced, file.intact)]) <= ReadAll(file.bytes[..size], 0).0
  {
    hide ReadAll, EncodeAll, BytesOf;
    var n, m := file.intact, Min(file.synced, file.intact);
    var good, all := AllBytes(file.records[..m]), AllBytes(file.records[..n]);
    assert all[..m] == good;
    EncodeAllPrefix(all, m);
    PrefixOfPrefix(EncodeAll(0, good), EncodeAll(0, all), file.bytes, size);
    var cut := file.bytes[..size];
    ReadsGood(cut, good, []);
    assert cut + [] == cut;
  }

  lemma PrefixOfPrefix(a: seq<Byte>, b: seq<Byte>, c: seq<Byte>, size: nat)
    requires a <= b <= c && |a| <= size <= |c|
    ensures a <= c[..size]
  {
  }

  lemma {:induction false} UpdatesPrefix(a: seq<seq<Byte>>, b: seq<seq<Byte>>)
    requires a <= b
    ensures Updates(a) <= Updates(b)
    decreases |b|
  {
    hide UpdatesOf;
    if |a| < |b| {
      UpdatesPrefix(a, b[..|b| - 1]);
    } else {
      assert a == b;
    }
  }

  lemma MoreInserted(a: seq<Placed>, b: seq<Placed>, first: nat, ops: seq<Op>)
    requires a <= b && AllInserted(a, first, ops)
    ensures AllInserted(b, first, ops)
  {
  }

  lemma {:induction false} UpdatesInHas(rs: seq<Record>, i: nat, x: nat)
    requires i < |rs| && x < |rs[i].ops|
    ensures Placed(rs[i].first + x, rs[i].ops[x]) in UpdatesIn(rs)
  {
    var n := |rs| - 1;
    if i < n {
      UpdatesInHas(rs[..n], i, x);
    } else {
      assert PlacedAt(rs[i].first, rs[i].ops)[x] == Placed(rs[i].first + x, rs[i].ops[x]);
    }
  }

  /**
  Durability: if no write to the log file had failed before the record of a successful sync
  write was appended, cut the file anywhere past its synced part, and recovery finds every
  update of the write with its sequence number. If no write to the file failed at all, recovery
  succeeds even with paranoid checks.
  */
  lemma SyncedWriteSurvives(st: State, m: nat, k: nat, size: nat)
    requires Inv(st) && Committed(st, m, k) && st.calls[st.groups[m].ids[k]].sync
    requires st.groups[m].at.Some? && st.groups[m].at.value.file < |st.logs|
    requires var file := st.logs[st.groups[m].at.value.file];
             && AllFit(file.records) && st.groups[m].at.value.index < file.intact <= |file.records|
             && file.syncedBytes <= size <= |file.bytes|
    ensures
      var file := st.logs[st.groups[m].at.value.file];
      var (records, drops) := ReadAll(file.bytes[..size], 0);
      && AllInserted(Updates(records), BatchStart(st.groups[m], st.calls, k), st.calls[st.groups[m].ids[k]].batch.value)
      && (!file.faulty ==> drops == 0 && AllSound(records))
  {
    hide ReadAll, AllBytes, RecordFits, Updates, UpdatesIn, BatchStart, AllSound, AllInserted, Holds, Covers, LogOk, Encoded, GroupsOk, StageOk, Consumed, InsertedOf, RecordsOf, AllRecords, IdsOf, ArrivalsOk;
    var g := st.groups[m];
    var file := st.logs[g.at.value.file];
    assert LogOk(file);
    SyncedWriteIsDurable(st, m, k);
    var ops, first := st.calls[g.ids[k]].batch.value, BatchStart(g, st.calls, k);
    var n := Min(file.synced, file.intact);
    FitPrefix(file.records, n);
    ReplayAll(file.records[..n], 0);
    UpdatesInHold(file.records[..n], g.at.value.index, first - g.first, ops);
    CutFileKeepsIntact(file, size);
    UpdatesPrefix(AllBytes(file.records[..n]), ReadAll(file.bytes[..size], 0).0);
    MoreInserted(UpdatesIn(file.records[..n]), Updates(ReadAll(file.bytes[..size], 0).0), first, ops);
    if !file.faulty {
      var all := CutFileReplays(file, size);
      ReplayAll(file.records[..all], 0);
    }
  }

  lemma FitPrefix(rs: seq<Record>, n: nat)
    requires AllFit(rs) && n <= |rs|
    ensures AllFit(rs[..n])
  {
    hide RecordFits;
  }

  // ----- what the guard keeps out -----

  /** A file no write to which failed reads back as its records. */
  lemma FaultlessLogReads(file: LogFile)
    requires LogOk(file) && !file.faulty
    ensures ReadAll(file.bytes, 0) == (AllBytes(file.records), 0)
  {
    hide ReadAll, EncodeAll, BytesOf;
    ReadsOn([], AllBytes(file.records));
    assert [] + file.bytes == file.bytes;
  }

  /**
  After the first failed append to a log file, what later groups append is read back if and only
  if the writer's offset agrees with the file's length and the failed append left nothing torn.
  */
  lemma FirstFailureIff(file: LogFile, r: Record, fates: seq<Fate>)
    requires LogOk(file) && !file.faulty && InOrder(fates) && !Writing(file.offset, BytesOf(r), true, fates).ok
    ensures
      var w := Writing(file.offset, BytesOf(r), true, fates);
      var after := Appended(file, r, w);
      var head := AllBytes(file.records) + if w.bytes == Encode(|file.bytes|, BytesOf(r), true) then [BytesOf(r)] else [];
      ReadsBack(after.bytes, after.offset, head) <==>
        after.offset % BLOCK_SIZE == |after.bytes| % BLOCK_SIZE && Settled(|file.bytes|, BytesOf(r), w.bytes)
  {
    hide EncodeAll, BytesOf, Writing, ReadsBack, Settled, Encode;
    FailedAppendIff(AllBytes(file.records), BytesOf(r), file.offset, fates);
    assert AllBytes(file.records) + [] == AllBytes(file.records);
  }

  function OneValue(n: nat, value: seq<Byte>): Record {
    Record(n, [Put([], value)])
  }

  lemma OneValueBytes(n: nat, value: seq<Byte>)
    requires n < TWO64 && |value| < TWO32
    ensures var b := BytesOf(OneValue(n, value));
            |b| == 14 + |Varint(|value|)| + |value| && b[|b| - |value|..] == value
  {
    hide Fixed64, FixedBytes, Records, RecordBytes, Varint, Prefixed;
    var ops := [Put([], value)];
    RecordsOne(ops);
    PutBytes(value);
    var front := Fixed64(n) + FixedBytes(1);
    assert BytesOf(OneValue(n, value)) == front + RecordBytes(Put([], value));
  }

  lemma EmptyPrefixed()
    ensures |Prefixed([])| == 1
  {
    assert Varint(0) == [0];
  }

  lemma PrefixedIs(value: seq<Byte>)
    requires |value| < TWO32
    ensures Prefixed(value) == Varint(|value|) + value
  {
    hide Varint;
    Narrow(|value|);
  }

  lemma Narrow(n: nat)
    requires n < TWO32
    ensures n % TWO32 == n
  {
  }

  lemma PutBytes(value: seq<Byte>)
    requires |value| < TWO32
    ensures var b := RecordBytes(Put([], value));
            |b| == 2 + |Varint(|value|)| + |value| && b[|b| - |value|..] == value
  {
    hide Varint, Prefixed;
    EmptyPrefixed();
    assert Prefixed(value) == Varint(|value|) + value by { PrefixedIs(value); }
    assert RecordBytes(Put([], value)) == [VALUE] + Prefixed([]) + Prefixed(value);
  }

  /**
  Three groups on a new log file. The first append, of 100 bytes, fails with nothing written; the
  second and third succeed, and the sync after them too. The third record is gone.
  */
  lemma SyncedRecordLost() returns (a: Record, b: Record, c: Record, file: LogFile)
    ensures
      var first := Appended(NewLog, a, Writing(0, BytesOf(a), true, [Fate(None, Some(0))]));
      var second := Appended(first, b, Writing(first.offset, BytesOf(b), true, []));
      file == SyncedFile(Appended(second, c, Writing(second.offset, BytesOf(c), true, [])))
    ensures AllFit([a, b, c]) && file.records == [b, c] && file.synced == 2 && file.intact == 0
    ensures ReadAll(file.bytes, 0) == ([BytesOf(b)], 1)
  {
    hide Writing, Encode, ReadAll, BytesOf, Fits;
    a, b, c := OneValue(1, Zeros(85)), OneValue(2, Zeros(32637)), OneValue(3, Zeros(184));
    LostLengths();
    OneValueFits(1, Zeros(85));
    OneValueFits(2, Zeros(32637));
    OneValueFits(3, Zeros(184));
    AcknowledgedRecordLost(BytesOf(a), BytesOf(b), BytesOf(c));
    var first := Appended(NewLog, a, Writing(0, BytesOf(a), true, [Fate(None, Some(0))]));
    assert first == LogFile([], 0, [], 107, 0, true, 0);
    var second := Appended(first, b, Writing(first.offset, BytesOf(b), true, []));
    assert second == LogFile([b], 0, Encode(107, BytesOf(b), true), 32768, 0, true, 0);
    var third := Appended(second, c, Writing(second.offset, BytesOf(c), true, []));
    assert third.records == [b, c] && third.bytes == Encode(107, BytesOf(b), true) + Encode(32768, BytesOf(c), true);
    file := SyncedFile(third);
  }

  lemma OneValueFits(n: nat, value: seq<Byte>)
    requires 1 <= n < TWO32 && |value| < TWO32
    ensures RecordFits(OneValue(n, value))
  {
    assert forall op :: op in OneValue(n, value).ops ==> op == Put([], value);
  }

  lemma LostLengths()
    ensures |BytesOf(OneValue(1, Zeros(85)))| == 100 && |BytesOf(OneValue(2, Zeros(32637)))| == 32654
    ensures |BytesOf(OneValue(3, Zeros(184)))| == 200 && BytesOf(OneValue(3, Zeros(184)))[100..] == Zeros(100)
  {
    OneValueBytes(1, Zeros(85));
    OneValueBytes(2, Zeros(32637));
    OneValueBytes(3, Zeros(184));
    assert |Varint(85)| == 1;
    assert |Varint(32637)| == 3;
    assert |Varint(184)| == 2;
  }

  lemma UpdatesInHold(rs: seq<Record>, i: nat, offset: int, ops: seq<Op>)
    requires i < |rs| && Holds(rs[i].ops, offset, ops)
    ensures rs[i].first + offset >= 0 && AllInserted(UpdatesIn(rs), rs[i].first + offset, ops)
  {
    hide UpdatesIn;
    forall x | 0 <= x < |ops| ensures Placed(rs[i].first + offset + x, ops[x]) in UpdatesIn(rs) {
      UpdatesInHas(rs, i, offset + x);
    }
  }
}
