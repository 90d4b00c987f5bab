/** db/version_edit.cc: the records of the manifest. */
module VersionEdit {
  import opened Common
  import opened Crc
  import opened Coding


  datatype Meta = Meta(number: nat, size: nat, smallest: seq<Byte>, largest: seq<Byte>)

  datatype Edit = Edit(
    comparator: Option<seq<Byte>>, logNumber: Option<nat>, prevLogNumber: Option<nat>,
    nextFile: Option<nat>, lastSequence: Option<nat>,
    compactPointers: seq<(nat, seq<Byte>)>, deleted: set<(nat, nat)>, added: seq<(nat, Meta)>)

  const FRESH: Edit := Edit(None, None, None, None, None, [], {}, [])

  // ----- one field -----

  datatype Field =
    | Comparator(name: seq<Byte>) | LogNumber(n: nat) | NextFile(n: nat) | LastSequence(n: nat)
    | CompactPointer(level: nat, key: seq<Byte>) | Deleted(level: nat, n: nat) | New(level: nat, meta: Meta)
    | PrevLogNumber(n: nat)

  function GetLevel(input: seq<Byte>): (r: Option<(nat, seq<Byte>)>)
    ensures r.Some? ==> |r.value.1| < |input|
  {
    match Varint32(input)
    case Some((v, rest)) => if v < NUM_LEVELS then Some((v, rest)) else None
    case None => None
  }

  /** An internal key is never empty. */
  function GetInternalKey(input: seq<Byte>): (r: Option<(seq<Byte>, seq<Byte>)>)
    ensures r.Some? ==> |r.value.1| < |input|
  {
    match GetPrefixed(input)
    case Some((s, rest)) => if s == [] then None else Some((s, rest))
    case None => None
  }

  function NumberField(tag: nat, n: nat): Field {
    if tag == 2 then LogNumber(n) else if tag == 3 then NextFile(n) else if tag == 4 then LastSequence(n) else PrevLogNumber(n)
  }

  function GetNumber(tag: nat, input: seq<Byte>): (r: Option<(Field, seq<Byte>)>)
    ensures r.Some? ==> |r.value.1| < |input|
  {
    match Varint64(input)
    case None => None
    case Some((n, rest)) => Some((NumberField(tag, n), rest))
  }

  function GetPointer(input: seq<Byte>): (r: Option<(Field, seq<Byte>)>)
    ensures r.Some? ==> |r.value.1| < |input|
  {
    match GetLevel(input)
    case None => None
    case Some((level, in1)) =>
      match GetInternalKey(in1)
      case None => None
      case Some((key, rest)) => Some((CompactPointer(level, key), rest))
  }

  function GetDeleted(input: seq<Byte>): (r: Option<(Field, seq<Byte>)>)
    ensures r.Some? ==> |r.value.1| < |input|
  {
    match GetLevel(input)
    case None => None
    case Some((level, in1)) =>
      match Varint64(in1)
      case None => None
      case Some((n, rest)) => Some((Deleted(level, n), rest))
  }

  function GetNew(input: seq<Byte>): (r: Option<(Field, seq<Byte>)>)
    ensures r.Some? ==> |r.value.1| < |input|
  {
    match GetLevel(input)
    case None => None
    case Some((level, in1)) =>
      match Varint64(in1)
      case None => None
      case Some((number, in2)) =>
        match Varint64(in2)
        case None => None
        case Some((size, in3)) =>
          match GetInternalKey(in3)
          case None => None
          case Some((smallest, in4)) =>
            match GetInternalKey(in4)
            case None => None
            case Some((largest, rest)) => Some((New(level, Meta(number, size, smallest, largest)), rest))
  }

  /** The field behind a tag; None for a malformed field or an unknown tag. */
  function GetBody(tag: nat, input: seq<Byte>): (r: Option<(Field, seq<Byte>)>)
    ensures r.Some? ==> |r.value.1| < |input|
  {
    if tag == 1 then (match GetPrefixed(input) case None => None case Some((s, rest)) => Some((Comparator(s), rest)))
    else if tag == 2 || tag == 3 || tag == 4 || tag == 9 then GetNumber(tag, input)
    else if tag == 5 then GetPointer(input)
    else if tag == 6 then GetDeleted(input)
    else if tag == 7 then GetNew(input)
    else None
  }

  // ----- every field reads back -----

  predicate KeyFits(k: seq<Byte>) {
    0 < |k| < TWO32
  }

  predicate FieldFits(f: Field) {
    match f
    case Comparator(name) => |name| < TWO32
    case LogNumber(n) => n < TWO64
    case NextFile(n) => n < TWO64
    case LastSequence(n) => n < TWO64
    case PrevLogNumber(n) => n < TWO64
    case CompactPointer(level, key) => level < NUM_LEVELS && KeyFits(key)
    case Deleted(level, n) => level < NUM_LEVELS && n < TWO64
    case New(level, m) => level < NUM_LEVELS && m.number < TWO64 && m.size < TWO64 && KeyFits(m.smallest) && KeyFits(m.largest)
  }

  lemma LevelRoundTrip(level: nat, rest: seq<Byte>)
    requires level < NUM_LEVELS
    ensures GetLevel(Varint(level) + rest) == Some((level, rest))
  {
    Varint32RoundTrip(level, rest);
  }

  lemma KeyRoundTrip(k: seq<Byte>, rest: seq<Byte>)
    requires KeyFits(k)
    ensures GetInternalKey(Prefixed(k) + rest) == Some((k, rest))
  {
    hide Prefixed, GetPrefixed;
    PrefixedRoundTrip(k, rest);
  }

  lemma NewRoundTrip(level: nat, m: Meta, rest: seq<Byte>)
    requires FieldFits(New(level, m))
    ensures GetNew(Varint(level) + Varint(m.number) + Varint(m.size) + Prefixed(m.smallest) + Prefixed(m.largest) + rest) ==
            Some((New(level, m), rest))
  {
    hide Varint, Prefixed, GetLevel, Varint64, GetInternalKey;
    var t4 := Prefixed(m.largest) + rest;
    var t3 := Prefixed(m.smallest) + t4;
    var t2 := Varint(m.size) + t3;
    var t1 := Varint(m.number) + t2;
    assert Varint(level) + Varint(m.number) + Varint(m.size) + Prefixed(m.smallest) + Prefixed(m.largest) + rest == Varint(level) + t1;
    LevelRoundTrip(level, t1);
    Varint64RoundTrip(m.number, t2);
    Varint64RoundTrip(m.size, t3);
    KeyRoundTrip(m.smallest, t4);
    KeyRoundTrip(m.largest, rest);
  }

  function TagOf(f: Field): nat {
    match f
    case Comparator(_) => 1 case LogNumber(_) => 2 case NextFile(_) => 3 case LastSequence(_) => 4
    case CompactPointer(_, _) => 5 case Deleted(_, _) => 6 case New(_, _) => 7 case PrevLogNumber(_) => 9
  }

  function BodyBytes(f: Field): seq<Byte> {
    match f
    case Comparator(name) => Prefixed(name)
    case LogNumber(n) => Varint(n)
    case NextFile(n) => Varint(n)
    case LastSequence(n) => Varint(n)
    case CompactPointer(level, key) => Varint(level) + Prefixed(key)
    case Deleted(level, n) => Varint(level) + Varint(n)
    case New(level, m) => Varint(level) + Varint(m.number) + Varint(m.size) + Prefixed(m.smallest) + Prefixed(m.largest)
    case PrevLogNumber(n) => Varint(n)
  }

  lemma BodyRoundTrip(f: Field, rest: seq<Byte>)
    requires FieldFits(f)
    ensures GetBody(TagOf(f), BodyBytes(f) + rest) == Some((f, rest))
  {
    hide Varint, Prefixed, GetPrefixed, GetLevel, Varint64, GetInternalKey, GetNew;
    match f
    case Comparator(name) => PrefixedRoundTrip(name, rest);
    case LogNumber(n) => Varint64RoundTrip(n, rest);
    case NextFile(n) => Varint64RoundTrip(n, rest);
    case LastSequence(n) => Varint64RoundTrip(n, rest);
    case PrevLogNumber(n) => Varint64RoundTrip(n, rest);
    case CompactPointer(level, key) =>
      assert BodyBytes(f) + rest == Varint(level) + (Prefixed(key) + rest);
      LevelRoundTrip(level, Prefixed(key) + rest);
      KeyRoundTrip(key, rest);
    case Deleted(level, n) =>
      assert BodyBytes(f) + rest == Varint(level) + (Varint(n) + rest);
      LevelRoundTrip(level, Varint(n) + rest);
      Varint64RoundTrip(n, rest);
    case New(level, m) => NewRoundTrip(level, m, rest);
  }

  // ----- whole edits -----

  function Set(e: Edit, f: Field): Edit {
    match f
    case Comparator(name) => e.(comparator := Some(name))
    case LogNumber(n) => e.(logNumber := Some(n))
    case NextFile(n) => e.(nextFile := Some(n))
    case LastSequence(n) => e.(lastSequence := Some(n))
    case PrevLogNumber(n) => e.(prevLogNumber := Some(n))
    case CompactPointer(level, key) => e.(compactPointers := e.compactPointers + [(level, key)])
    case Deleted(level, n) => e.(deleted := e.deleted + {(level, n)})
    case New(level, m) => e.(added := e.added + [(level, m)])
  }

  function SetAll(e: Edit, fs: seq<Field>): Edit
    decreases fs
  {
    if fs == [] then e else SetAll(Set(e, fs[0]), fs[1..])
  }

  function BytesOf(fs: seq<Field>): seq<Byte> {
    if fs == [] then [] else Varint(TagOf(fs[0])) + BodyBytes(fs[0]) + BytesOf(fs[1..])
  }

  /** What decoding yields from state `e`: None is corruption. */
  function Decoded(e: Edit, input: seq<Byte>): Option<Edit>
    decreases |input|
  {
    match Varint32(input)
    case None => if input == [] then Some(e) else None
    case Some((tag, in1)) =>
      match GetBody(tag, in1)
      case None => None
      case Some((f, rest)) => Decoded(Set(e, f), rest)
  }

  /** Every level named exists and every key is a key: the edit can be applied. */
  ghost predicate Applicable(e: Edit) {
    && (forall p :: p in e.compactPointers ==> p.0 < 7 && p.1 != [])
    && (forall d :: d in e.deleted ==> d.0 < 7)
    && (forall a :: a in e.added ==> a.0 < 7 && a.1.smallest != [] && a.1.largest != [])
  }

  lemma BodyApplicable(e: Edit, tag: nat, input: seq<Byte>)
    requires Applicable(e) && GetBody(tag, input).Some?
    ensures Applicable(Set(e, GetBody(tag, input).value.0))
  {
    hide Varint32, Varint64, GetPrefixed;
  }

  /** Whatever bytes the manifest holds, an edit that decodes names only levels that exist and keys that are not empty. */
  lemma {:induction false} DecodedIsApplicable(e: Edit, input: seq<Byte>)
    requires Applicable(e)
    ensures Decoded(e, input).Some? ==> Applicable(Decoded(e, input).value)
    decreases |input|
  {
    hide Varint32, GetBody, Set, Applicable;
    var t := Varint32(input);
    if t.Some? && GetBody(t.value.0, t.value.1).Some? {
      var (f, rest) := GetBody(t.value.0, t.value.1).value;
      BodyApplicable(e, t.value.0, t.value.1);
      DecodedIsApplicable(Set(e, f), rest);
    }
  }

  lemma {:induction false} DecodesFields(e: Edit, fs: seq<Field>)
    requires forall i :: 0 <= i < |fs| ==> FieldFits(fs[i])
    ensures Decoded(e, BytesOf(fs)) == Some(SetAll(e, fs))
    decreases fs
  {
    hide Varint, BodyBytes, GetBody, FieldFits, Set, Varint32;
    if fs == [] {
      NothingToRead();
    } else {
      var rest := BodyBytes(fs[0]) + BytesOf(fs[1..]);
      assert BytesOf(fs) == Varint(TagOf(fs[0])) + rest;
      Varint32RoundTrip(TagOf(fs[0]), rest);
      BodyRoundTrip(fs[0], BytesOf(fs[1..]));
      DecodesFields(Set(e, fs[0]), fs[1..]);
    }
  }

  lemma NothingToRead()
    ensures Varint32([]) == None
  {
  }

  function Opt(present: bool, f: Field): seq<Field> {
    if present then [f] else []
  }

  function PointerFields(ps: seq<(nat, seq<Byte>)>): seq<Field> {
    seq(|ps|, i requires 0 <= i < |ps| => CompactPointer(ps[i].0, ps[i].1))
  }

  function DeletedFields(ds: seq<(nat, nat)>): seq<Field> {
    seq(|ds|, i requires 0 <= i < |ds| => Deleted(ds[i].0, ds[i].1))
  }

  function NewFields(ns: seq<(nat, Meta)>): seq<Field> {
    seq(|ns|, i requires 0 <= i < |ns| => New(ns[i].0, ns[i].1))
  }

  function Value(o: Option<nat>): nat {
    if o.Some? then o.value else 0
  }

  function HeadFields(e: Edit): seq<Field> {
    Opt(e.comparator.Some?, Comparator(if e.comparator.Some? then e.comparator.value else [])) +
    Opt(e.logNumber.Some?, LogNumber(Value(e.logNumber))) +
    Opt(e.prevLogNumber.Some?, PrevLogNumber(Value(e.prevLogNumber))) +
    Opt(e.nextFile.Some?, NextFile(Value(e.nextFile))) +
    Opt(e.lastSequence.Some?, LastSequence(Value(e.lastSequence)))
  }

  /** The fields in the order they are written; `order` lists the deleted files. */
  function FieldsOf(e: Edit, order: seq<(nat, nat)>): seq<Field> {
    HeadFields(e) + PointerFields(e.compactPointers) + DeletedFields(order) + NewFields(e.added)
  }

  lemma {:induction false} SetAllConcat(e: Edit, a: seq<Field>, b: seq<Field>)
    ensures SetAll(e, a + b) == SetAll(SetAll(e, a), b)
    decreases a
  {
    hide Set;
    if a == [] {
      assert a + b == b;
    } else {
      SetAllConcat(Set(e, a[0]), a[1..], b);
      assert (a + b)[1..] == a[1..] + b;
    }
  }

  lemma {:induction false} SetPointers(e: Edit, ps: seq<(nat, seq<Byte>)>)
    ensures SetAll(e, PointerFields(ps)) == e.(compactPointers := e.compactPointers + ps)
    decreases ps
  {
    if ps == [] {
      assert e.compactPointers + ps == e.compactPointers;
    } else {
      assert PointerFields(ps)[1..] == PointerFields(ps[1..]);
      SetPointers(Set(e, CompactPointer(ps[0].0, ps[0].1)), ps[1..]);
      assert e.compactPointers + [ps[0]] + ps[1..] == e.compactPointers + ps;
    }
  }

  lemma {:induction false} SetDeleted(e: Edit, ds: seq<(nat, nat)>)
    ensures SetAll(e, DeletedFields(ds)) == e.(deleted := e.deleted + set d | d in ds)
    decreases ds
  {
    if ds == [] {
      assert e.deleted + (set d | d in ds) == e.deleted;
    } else {
      assert DeletedFields(ds)[1..] == DeletedFields(ds[1..]);
      SetDeleted(Set(e, Deleted(ds[0].0, ds[0].1)), ds[1..]);
      assert ds == [ds[0]] + ds[1..];
      assert e.deleted + {ds[0]} + (set d | d in ds[1..]) == e.deleted + set d | d in ds;
    }
  }

  lemma {:induction false} SetNew(e: Edit, ns: seq<(nat, Meta)>)
    ensures SetAll(e, NewFields(ns)) == e.(added := e.added + ns)
    decreases ns
  {
    if ns == [] {
      assert e.added + ns == e.added;
    } else {
      assert NewFields(ns)[1..] == NewFields(ns[1..]);
      SetNew(Set(e, New(ns[0].0, ns[0].1)), ns[1..]);
      assert e.added + [ns[0]] + ns[1..] == e.added + ns;
    }
  }

  /** Clear leaves the compaction pointers alone. */
  function Cleared(e: Edit): Edit {
    FRESH.(compactPointers := e.compactPointers)
  }

  lemma SetsAllFields(start: Edit, e: Edit, order: seq<(nat, nat)>)
    requires e.deleted == set d | d in order
    ensures SetAll(Cleared(start), FieldsOf(e, order)) == e.(compactPointers := start.compactPointers + e.compactPointers)
  {
    hide HeadFields;
    var head := HeadFields(e);
    var e1 := e.(compactPointers := start.compactPointers, deleted := {}, added := []);
    SetsHead(start, e);
    var p, d, n := PointerFields(e.compactPointers), DeletedFields(order), NewFields(e.added);
    SetAllConcat(Cleared(start), head + p + d, n);
    SetAllConcat(Cleared(start), head + p, d);
    SetAllConcat(Cleared(start), head, p);
    SetPointers(e1, e.compactPointers);
    var e2 := e1.(compactPointers := e1.compactPointers + e.compactPointers);
    SetDeleted(e2, order);
    assert e2.deleted + (set d | d in order) == e.deleted;
    SetNew(e2.(deleted := e.deleted), e.added);
    assert e2.added + e.added == e.added;
    assert FieldsOf(e, order) == head + p + d + n;
  }

  lemma SetOpt(e: Edit, present: bool, f: Field)
    ensures SetAll(e, Opt(present, f)) == if present then Set(e, f) else e
  {
    assert [f][1..] == [];
  }

  lemma SetsHead(start: Edit, e: Edit)
    ensures
      SetAll(Cleared(start), HeadFields(e)) ==
      e.(compactPointers := start.compactPointers, deleted := {}, added := [])
  {
    hide SetAll, Opt;
    var c, l := Comparator(if e.comparator.Some? then e.comparator.value else []), LogNumber(Value(e.logNumber));
    var p, n, s := PrevLogNumber(Value(e.prevLogNumber)), NextFile(Value(e.nextFile)), LastSequence(Value(e.lastSequence));
    var oc, ol, op := Opt(e.comparator.Some?, c), Opt(e.logNumber.Some?, l), Opt(e.prevLogNumber.Some?, p);
    var on, os := Opt(e.nextFile.Some?, n), Opt(e.lastSequence.Some?, s);
    var e0 := Cleared(start);
    SetAllConcat(e0, oc + ol + op + on, os);
    SetAllConcat(e0, oc + ol + op, on);
    SetAllConcat(e0, oc + ol, op);
    SetAllConcat(e0, oc, ol);
    SetOpt(e0, e.comparator.Some?, c);
    var e1 := e0.(comparator := e.comparator);
    SetOpt(e1, e.logNumber.Some?, l);
    var e2 := e1.(logNumber := e.logNumber);
    SetOpt(e2, e.prevLogNumber.Some?, p);
    var e3 := e2.(prevLogNumber := e.prevLogNumber);
    SetOpt(e3, e.nextFile.Some?, n);
    SetOpt(e3.(nextFile := e.nextFile), e.lastSequence.Some?, s);
  }

  /** Numbers and lengths within the widths of the format, levels that exist, keys that are not empty. */
  ghost predicate EditFits(e: Edit, order: seq<(nat, nat)>) {
    forall i :: 0 <= i < |FieldsOf(e, order)| ==> FieldFits(FieldsOf(e, order)[i])
  }

  /**
  Decoding an encoded edit gives it back, except that an edit that is reused keeps its old
  compaction pointers in front: it is exact for a fresh one.
  */
  lemma EditRoundTrip(start: Edit, e: Edit, order: seq<(nat, nat)>)
    requires e.deleted == (set d | d in order) && EditFits(e, order)
    ensures Decoded(Cleared(start), BytesOf(FieldsOf(e, order))) == Some(e.(compactPointers := start.compactPointers + e.compactPointers))
    ensures start.compactPointers == [] ==> Decoded(Cleared(start), BytesOf(FieldsOf(e, order))) == Some(e)
  {
    hide FieldsOf, Decoded, BytesOf, FieldFits;
    DecodesFields(Cleared(start), FieldsOf(e, order));
    SetsAllFields(start, e, order);
    assert start.compactPointers == [] ==> start.compactPointers + e.compactPointers == e.compactPointers;
  }

  // ----- the encoder and the decoder -----

  lemma {:induction false} BytesSnoc(fs: seq<Field>, f: Field)
    ensures BytesOf(fs + [f]) == BytesOf(fs) + Varint(TagOf(f)) + BodyBytes(f)
    decreases fs
  {
    hide Varint, BodyBytes;
    if fs == [] {
      assert (fs + [f])[1..] == [] && BytesOf([]) == [];
    } else {
      BytesSnoc(fs[1..], f);
      assert (fs + [f])[1..] == fs[1..] + [f];
    }
  }

  method PutField(dst: seq<Byte>, f: Field, ghost fs: seq<Field>) returns (r: seq<Byte>)
    requires dst == BytesOf(fs)
    ensures r == BytesOf(fs + [f])
  {
    BytesSnoc(fs, f);
    r := dst + Varint(TagOf(f)) + BodyBytes(f);
  }

  method PutOptional(dst: seq<Byte>, present: bool, f: Field, ghost fs: seq<Field>) returns (r: seq<Byte>)
    requires dst == BytesOf(fs)
    ensures r == BytesOf(fs + Opt(present, f))
  {
    r := dst;
    if present {
      r := PutField(dst, f, fs);
    } else {
      assert fs + [] == fs;
    }
  }

  method EncodeHead(e: Edit) returns (dst: seq<Byte>)
    ensures dst == BytesOf(HeadFields(e))
  {
    hide BytesOf, BodyBytes, Varint, Opt;
    NoBytes();
    var c, l := Comparator(if e.comparator.Some? then e.comparator.value else []), LogNumber(Value(e.logNumber));
    var p, n, q := PrevLogNumber(Value(e.prevLogNumber)), NextFile(Value(e.nextFile)), LastSequence(Value(e.lastSequence));
    dst := PutOptional([], e.comparator.Some?, c, []);
    ghost var fs := [] + Opt(e.comparator.Some?, c);
    dst := PutOptional(dst, e.logNumber.Some?, l, fs);
    fs := fs + Opt(e.logNumber.Some?, l);
    dst := PutOptional(dst, e.prevLogNumber.Some?, p, fs);
    fs := fs + Opt(e.prevLogNumber.Some?, p);
    dst := PutOptional(dst, e.nextFile.Some?, n, fs);
    fs := fs + Opt(e.nextFile.Some?, n);
    dst := PutOptional(dst, e.lastSequence.Some?, q, fs);
    fs := fs + Opt(e.lastSequence.Some?, q);
    assert fs == HeadFields(e);
  }

  method EncodeTo(e: Edit, order: seq<(nat, nat)>) returns (dst: seq<Byte>)
    ensures dst == BytesOf(FieldsOf(e, order))
  {
    hide BytesOf, HeadFields;
    var head := EncodeHead(e);
    dst := EncodeLists(e, order, head, HeadFields(e));
  }

  lemma NoBytes()
    ensures BytesOf([]) == []
  {
  }

  method EncodeLists(e: Edit, order: seq<(nat, nat)>, dst0: seq<Byte>, ghost fs0: seq<Field>) returns (dst: seq<Byte>)
    requires dst0 == BytesOf(fs0)
    ensures dst == BytesOf(fs0 + PointerFields(e.compactPointers) + DeletedFields(order) + NewFields(e.added))
  {
    hide BytesOf, BodyBytes, Varint;
    dst := dst0;
    ghost var fs := fs0;
    var ps, ns := e.compactPointers, e.added;
    for i := 0 to |ps|
      invariant dst == BytesOf(fs) && fs == fs0 + PointerFields(ps[..i])
    {
      dst := PutField(dst, CompactPointer(ps[i].0, ps[i].1), fs);
      fs := fs + [CompactPointer(ps[i].0, ps[i].1)];
    }
    assert ps[..|ps|] == ps;
    ghost var fs1 := fs;
    for i := 0 to |order|
      invariant dst == BytesOf(fs) && fs == fs1 + DeletedFields(order[..i])
    {
      dst := PutField(dst, Deleted(order[i].0, order[i].1), fs);
      fs := fs + [Deleted(order[i].0, order[i].1)];
    }
    assert order[..|order|] == order;
    ghost var fs2 := fs;
    for i := 0 to |ns|
      invariant dst == BytesOf(fs) && fs == fs2 + NewFields(ns[..i])
    {
      dst := PutField(dst, New(ns[i].0, ns[i].1), fs);
      fs := fs + [New(ns[i].0, ns[i].1)];
    }
    assert ns[..|ns|] == ns;
  }

  /** DecodeFrom on an edit in any state: whether the bytes are well formed, and the edit they leave. */
  method DecodeFrom(start: Edit, src: seq<Byte>) returns (ok: bool, e: Edit)
    ensures ok <==> Decoded(Cleared(start), src).Some?
    ensures ok ==> e == Decoded(Cleared(start), src).value
    ensures ok && Applicable(Cleared(start)) ==> Applicable(e)
  {
    hide GetBody, Varint32, Set, Applicable;
    e := Cleared(start);
    if Applicable(e) {
      DecodedIsApplicable(e, src);
    }
    var input := src;
    while true
      invariant Decoded(e, input) == Decoded(Cleared(start), src)
      decreases |input|
    {
      var tag := Varint32(input);
      if tag.None? {
        ok := input == [];
        return;
      }
      var field := GetBody(tag.value.0, tag.value.1);
      if field.None? {
        ok := false;
        return;
      }
      e, input := Set(e, field.value.0), field.value.1;
    }
  }
}
