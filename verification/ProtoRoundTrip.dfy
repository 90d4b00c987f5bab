/**
Decoding what was encoded. The reader's descriptor may list the fields in another order, lack
some the writer knew, and know some the writer lacked.
*/
module ProtoRoundTrip {
  import opened Common
  import opened Crc
  import opened Coding
  import opened Proto
  import opened ProtoDecode

  // ----- a message that fits has a wire form -----

  lemma {:induction false} ValueIsWire(t: Type, v: Value)
    requires ValueTyped(t, v) && ValueFits(t, v)
    ensures ValueWire(t, v).Wire?
    decreases t, 0, 0
  {
    if t.Sub? {
      assert MessageTyped(t.fields, v.slots);
      MessageIsWire(t.fields, v.slots, |t.fields|);
      assert t.fields[..|t.fields|] == t.fields && v.slots[..|t.fields|] == v.slots;
    }
  }

  lemma {:induction false} ValuesIsWire(t: Type, key: seq<Byte>, vals: seq<Value>)
    requires forall i :: 0 <= i < |vals| ==> ValueTyped(t, vals[i]) && ValueFits(t, vals[i])
    ensures ValuesWire(t, key, vals).Wire?
    decreases t, 1, |vals|
  {
    if vals != [] {
      ValuesIsWire(t, key, vals[..|vals| - 1]);
      ValueIsWire(t, vals[|vals| - 1]);
    }
  }

  lemma FieldIsWire(f: Field, vals: seq<Value>)
    requires SlotTyped(f, vals) && SlotFits(f, vals)
    ensures FieldWire(f, vals).Wire?
    decreases f, 1, 0
  {
    match f.rule
    case Repeated(_) =>
      ValuesIsWire(f.t, [], vals);
      ValuesIsWire(f.t, Key(f.tag, WireType(f.t)), vals);
    case FixedCount(_) =>
      ValuesIsWire(f.t, [], vals);
      ValuesIsWire(f.t, Key(f.tag, WireType(f.t)), vals);
    case _ => if vals != [] { ValueIsWire(f.t, vals[0]); }
  }

  /** Every field's slot fits; of the descriptor nothing is said. */
  ghost predicate SlotsFit(fields: seq<Field>, slots: seq<seq<Value>>)
    requires MessageTyped(fields, slots)
  {
    forall i :: 0 <= i < |fields| ==> SlotFits(fields[i], slots[i])
  }

  lemma {:induction false} MessageIsWire(fields: seq<Field>, slots: seq<seq<Value>>, n: nat)
    requires MessageTyped(fields, slots) && SlotsFit(fields, slots) && n <= |fields|
    ensures MessageTyped(fields[..n], slots[..n]) && MessageWire(fields[..n], slots[..n]).Wire?
    decreases fields, 0, n
  {
    hide SlotTyped, FieldWire;
    if n > 0 {
      MessageIsWire(fields, slots, n - 1);
      FieldIsWire(fields[n - 1], slots[n - 1]);
      assert fields[..n][..n - 1] == fields[..n - 1] && slots[..n][..n - 1] == slots[..n - 1];
    }
  }

  /** A field's bytes are part of the message's. */
  lemma {:induction false} FieldWithin(fields: seq<Field>, slots: seq<seq<Value>>, n: nat, i: nat)
    requires MessageTyped(fields, slots) && SlotsFit(fields, slots) && i < n <= |fields|
    ensures MessageTyped(fields[..n], slots[..n]) && FieldWire(fields[i], slots[i]).Wire?
    ensures MessageWire(fields[..n], slots[..n]).Wire?
    ensures |FieldWire(fields[i], slots[i]).bytes| <= |MessageWire(fields[..n], slots[..n]).bytes|
    decreases n
  {
    hide SlotTyped, FieldWire;
    MessageIsWire(fields, slots, n);
    MessageIsWire(fields, slots, n - 1);
    FieldIsWire(fields[i], slots[i]);
    FieldIsWire(fields[n - 1], slots[n - 1]);
    assert fields[..n][..n - 1] == fields[..n - 1] && slots[..n][..n - 1] == slots[..n - 1];
    if i < n - 1 { FieldWithin(fields, slots, n - 1, i); }
  }

  // ----- defaults and zero values -----

  lemma {:induction false} DefaultsAt(fields: seq<Field>, i: nat)
    requires i < |fields|
    ensures Defaults(fields)[i] == DefaultSlot(fields[i])
  {
    hide DefaultSlot;
    if i < |fields| - 1 { DefaultsAt(fields[..|fields| - 1], i); }
  }

  /** A field without a has_ flag that is not written holds its default. */
  lemma {:induction false} ZeroIsDefault(t: Type, v: Value)
    requires ValueTyped(t, v) && ValueFits(t, v) && IsZero(t, v)
    ensures v == Default(t)
    decreases t
  {
    match t
    case FixedLength(n) => assert v.bytes == Zeros(n);
    case Sub(fields) =>
      assert MessageTyped(fields, v.slots) && MessageFits(fields, v.slots);
      forall i | 0 <= i < |fields| ensures v.slots[i] == Defaults(fields)[i] {
        DefaultsAt(fields, i);
        assert SlotTyped(fields[i], v.slots[i]) && SlotFits(fields[i], v.slots[i]) && SlotIsZero(fields[i], v.slots[i]);
        if fields[i].rule.Implicit? {
          ZeroIsDefault(fields[i].t, v.slots[i][0]);
          assert v.slots[i] == [v.slots[i][0]];
        }
      }
      assert v.slots == Defaults(fields);
    case _ =>
  }

  // ----- records -----

  lemma FindUnique(fields: seq<Field>, i: nat)
    requires TagsOk(fields) && i < |fields|
    ensures FindField(fields, fields[i].tag) == i
  {
  }

  /** One record: its key leads to its field, and decoding goes on behind it. */
  lemma RecordStep(fields: seq<Field>, i: nat, wire: nat, body: seq<Byte>, rest: seq<Byte>, st: State, st': State)
    requires TagsOk(fields) && i < |fields| == |st.slots| && wire < 8 && |st'.slots| == |fields|
    requires GetField(fields, i, wire, body + rest, st) == Some((st', rest))
    ensures GetFields(fields, Key(fields[i].tag, wire) + body + rest, st) == GetFields(fields, rest, st')
  {
    hide GetField, Varint, Dec32, FindField, TagsOk;
    var key := fields[i].tag * 8 + wire;
    KeyParts(fields, i, wire);
    var input := Key(fields[i].tag, wire) + body + rest;
    assert input == Varint(key) + (body + rest);
    Dec32RoundTrip(key, body + rest);
    VarintNotEmpty(key);
    FindUnique(fields, i);
  }

  lemma KeyParts(fields: seq<Field>, i: nat, wire: nat)
    requires TagsOk(fields) && i < |fields| && wire < 8
    ensures 0 < fields[i].tag * 8 + wire < TWO32
    ensures (fields[i].tag * 8 + wire) / 8 == fields[i].tag && (fields[i].tag * 8 + wire) % 8 == wire
  {
  }

  lemma VarintNotEmpty(v: nat)
    ensures Varint(v) != []
  {
  }

  /** Values behind keys, taken from the front. */
  lemma {:induction false} ValuesCons(t: Type, key: seq<Byte>, vals: seq<Value>)
    requires vals != [] && forall i :: 0 <= i < |vals| ==> ValueTyped(t, vals[i]) && ValueFits(t, vals[i])
    ensures ValueWire(t, vals[0]).Wire? && ValuesWire(t, key, vals[1..]).Wire? && ValuesWire(t, key, vals).Wire?
    ensures ValuesWire(t, key, vals).bytes == key + ValueWire(t, vals[0]).bytes + ValuesWire(t, key, vals[1..]).bytes
    decreases |vals|
  {
    hide ValueWire, ValueTyped, ValueFits;
    ValueIsWire(t, vals[0]);
    ValuesIsWire(t, key, vals[1..]);
    ValuesIsWire(t, key, vals);
    var n := |vals| - 1;
    var last := vals[n];
    ValueIsWire(t, last);
    ValuesIsWire(t, key, vals[..n]);
    if n == 0 {
      assert vals[1..] == [] && vals[..0] == [];
    } else {
      ValuesCons(t, key, vals[..n]);
      assert vals[..n][1..] == vals[1..][..n - 1] && vals[1..][n - 1] == last;
      ValuesIsWire(t, key, vals[1..][..n - 1]);
      Regroup(key, ValueWire(t, vals[0]).bytes, ValuesWire(t, key, vals[1..][..n - 1]).bytes, key + ValueWire(t, last).bytes);
    }
  }

  lemma Regroup(a: seq<Byte>, b: seq<Byte>, c: seq<Byte>, d: seq<Byte>)
    ensures (a + b + c) + d == a + b + (c + d)
  {
  }

  lemma {:induction false} PackedRoundTrip(t: Type, vals: seq<Value>, room: nat)
    requires Packable(t) && |vals| <= room && forall i :: 0 <= i < |vals| ==> ValueTyped(t, vals[i]) && ValueFits(t, vals[i])
    ensures ValuesWire(t, [], vals).Wire? && GetPacked(t, ValuesWire(t, [], vals).bytes, room) == Some(vals)
    decreases |vals|
  {
    hide ValueWire, ValueTyped, ValueFits, GetScalar;
    if vals != [] {
      ValuesCons(t, [], vals);
      var tail := ValuesWire(t, [], vals[1..]).bytes;
      assert ValuesWire(t, [], vals).bytes == ValueWire(t, vals[0]).bytes + tail;
      ScalarRoundTrip(t, vals[0], tail);
      PackedRoundTrip(t, vals[1..], room - 1);
      ScalarNotEmpty(t, vals[0]);
      assert [vals[0]] + vals[1..] == vals;
    }
  }

  lemma ScalarNotEmpty(t: Type, v: Value)
    requires Packable(t) && ValueTyped(t, v)
    ensures ValueWire(t, v).Wire? && ValueWire(t, v).bytes != []
  {
  }

  // ----- unknown fields -----

  lemma {:induction false} SkipVarintRoundTrip(v: nat, rest: seq<Byte>)
    ensures SkipVarint(Varint(v) + rest) == Some(rest)
    decreases v
  {
    var s := Varint(v) + rest;
    if v < 128 {
      assert s[1..] == rest;
    } else {
      SkipVarintRoundTrip(v / 128, rest);
      assert s[1..] == Varint(v / 128) + rest;
    }
  }

  /** Whatever its type, a value behind its wire type is skipped to the byte. */
  lemma SkipRoundTrip(t: Type, v: Value, rest: seq<Byte>)
    requires ValueTyped(t, v) && ValueFits(t, v)
    ensures ValueWire(t, v).Wire? && SkipField(WireType(t), ValueWire(t, v).bytes + rest) == Some(rest)
  {
    hide Varint, GetDelimited, Delimited, FixedBytes, Coding.Fixed64, MessageWire;
    ValueIsWire(t, v);
    match t
    case Bool => SkipVarintRoundTrip(if v.b then 1 else 0, rest);
    case Int(_) => SkipVarintRoundTrip(Unsigned(v.i), rest);
    case UInt(_) => SkipVarintRoundTrip(v.i, rest);
    case SInt(_) => SkipVarintRoundTrip(Zigzag(v.i), rest);
    case Fixed32 => assert (FixedBytes(v.i) + rest)[4..] == rest;
    case Fixed64 => assert (Coding.Fixed64(v.i) + rest)[8..] == rest;
    case Bytes(_) => DelimitedRoundTrip(v.bytes, rest);
    case String(_) => DelimitedRoundTrip(v.bytes, rest);
    case FixedLength(_) => DelimitedRoundTrip(v.bytes, rest);
    case Sub(fields) =>
      assert MessageTyped(fields, v.slots) && MessageFits(fields, v.slots);
      DelimitedRoundTrip(MessageWire(fields, v.slots).bytes, rest);
  }

  /** Which types a wire type can carry, by the length of what it announces. */
  lemma WireTypeLengths(t: Type, v: Value)
    requires ValueTyped(t, v) && ValueWire(t, v).Wire?
    ensures WireType(t) == 5 ==> |ValueWire(t, v).bytes| == 4
    ensures WireType(t) == 1 ==> |ValueWire(t, v).bytes| == 8
    ensures WireType(t) == 5 || WireType(t) == 1 <==> t.Fixed32? || t.Fixed64?
    ensures WireType(t) == 2 <==> !Packable(t)
    ensures WireType(t) in {0, 1, 2, 5}
  {
    hide Varint, FixedBytes, Coding.Fixed64, Delimited, MessageWire;
  }

  /** A record whose tag the reader does not know changes nothing. */
  lemma SkipRecord(fields: seq<Field>, tag: nat, wire: nat, body: seq<Byte>, rest: seq<Byte>, st: State)
    requires |st.slots| == |fields| && 0 < tag && tag * 8 + 7 < TWO32 && wire < 8 && FindField(fields, tag) == |fields|
    requires SkipField(wire, body + rest) == Some(rest)
    ensures GetFields(fields, Key(tag, wire) + body + rest, st) == GetFields(fields, rest, st)
  {
    hide GetField, Varint, Dec32, FindField, SkipField, Finish;
    var key := tag * 8 + wire;
    KeySplits(tag, wire);
    assert Key(tag, wire) + body + rest == Varint(key) + (body + rest);
    Dec32RoundTrip(key, body + rest);
    VarintNotEmpty(key);
  }

  lemma KeySplits(tag: nat, wire: nat)
    requires wire < 8
    ensures (tag * 8 + wire) / 8 == tag && (tag * 8 + wire) % 8 == wire
  {
  }

  lemma SkipPacked(data: seq<Byte>, rest: seq<Byte>)
    requires |data| < TWO32
    ensures SkipField(2, Delimited(data) + rest) == Some(rest)
  {
    hide Delimited, GetDelimited;
    DelimitedRoundTrip(data, rest);
  }

  /** The records of an array, one per entry, all unknown. */
  lemma {:induction false} SkipEntries(fields: seq<Field>, f: Field, vals: seq<Value>, rest: seq<Byte>, st: State)
    requires |st.slots| == |fields| && 0 < f.tag && f.tag * 8 + 7 < TWO32 && FindField(fields, f.tag) == |fields|
    requires forall i :: 0 <= i < |vals| ==> ValueTyped(f.t, vals[i]) && ValueFits(f.t, vals[i])
    ensures
      var w := ValuesWire(f.t, Key(f.tag, WireType(f.t)), vals);
      w.Wire? && GetFields(fields, w.bytes + rest, st) == GetFields(fields, rest, st)
    decreases |vals|
  {
    hide GetFields, ValueWire, ValueFits, ValueTyped, FindField, SkipField;
    var key := Key(f.tag, WireType(f.t));
    if vals == [] {
      assert [] + rest == rest;
    } else {
      ValuesCons(f.t, key, vals);
      var v, tail := ValueWire(f.t, vals[0]).bytes, ValuesWire(f.t, key, vals[1..]).bytes;
      SkipRoundTrip(f.t, vals[0], tail + rest);
      SkipRecord(fields, f.tag, WireType(f.t), v, tail + rest, st);
      SkipEntries(fields, f, vals[1..], rest, st);
      assert key + v + tail + rest == key + v + (tail + rest);
    }
  }

  /** A field the reader does not know is passed over, however it is written. */
  lemma UnknownFieldPasses(fields: seq<Field>, f: Field, vals: seq<Value>, rest: seq<Byte>, st: State)
    requires |st.slots| == |fields| && 0 < f.tag && f.tag * 8 + 7 < TWO32 && FindField(fields, f.tag) == |fields|
    requires SlotTyped(f, vals) && SlotFits(f, vals) && FieldWire(f, vals).Wire? && |FieldWire(f, vals).bytes| < TWO32
    ensures GetFields(fields, FieldWire(f, vals).bytes + rest, st) == GetFields(fields, rest, st)
  {
    hide GetFields, ValueWire, ValueFits, ValueTyped, FindField, SkipField, IsZero, ValuesWire;
    var w := FieldWire(f, vals).bytes;
    if w == [] {
      assert w + rest == rest;
    } else if !IsArray(f) {
      SkipRoundTrip(f.t, vals[0], rest);
      SkipRecord(fields, f.tag, WireType(f.t), ValueWire(f.t, vals[0]).bytes, rest, st);
    } else if Packable(f.t) {
      var data := ValuesWire(f.t, [], vals).bytes;
      SkipPacked(data, rest);
      SkipRecord(fields, f.tag, 2, Delimited(data), rest, st);
    } else {
      SkipEntries(fields, f, vals, rest, st);
    }
  }

  // ----- one field of the reader's descriptor -----

  predicate IsArray(f: Field) {
    f.rule.Repeated? || f.rule.FixedCount?
  }

  function MaxOf(f: Field): nat {
    if f.rule.Repeated? then f.rule.max else if f.rule.FixedCount? then f.rule.n else 0
  }

  /** Field n has not been read, no fixed-count array is half read, and no rival in its union is set. */
  ghost predicate Ready(fields: seq<Field>, st: State, n: nat, vals: seq<Value>) {
    && TagsOk(fields) && n < |fields| == |st.slots| && st.slots[n] == DefaultSlot(fields[n])
    && FixedDone(fields, st) && !(st.fixed.Some? && st.fixed.value.0 == n)
    && (vals != [] ==> UnionFree(fields, st, n))
  }

  ghost predicate UnionFree(fields: seq<Field>, st: State, n: nat)
    requires n < |fields| == |st.slots|
  {
    forall j :: 0 <= j < |fields| && j != n && SameUnion(fields[n].rule, fields[j].rule) ==> st.slots[j] == []
  }

  /** The reader's state once the whole field has been read. */
  ghost function Put(fields: seq<Field>, st: State, n: nat, vals: seq<Value>): (r: State)
    requires n < |fields| == |st.slots|
    ensures |r.slots| == |fields|
  {
    State(st.slots[n := vals],
          if fields[n].rule.FixedCount? && vals != [] then Some((n, |vals|)) else st.fixed,
          if fields[n].rule.Required? then st.seen + {n} else st.seen)
  }

  lemma {:induction false} ValueRoundTrip(t: Type, v: Value, rest: seq<Byte>)
    requires ValueTyped(t, v) && ValueFits(t, v)
    ensures ValueWire(t, v).Wire? && GetValue(t, ValueWire(t, v).bytes + rest, Default(t)) == Some((v, rest))
    decreases t, 0, 0
  {
    if !t.Sub? {
      ScalarRoundTrip(t, v, rest);
    } else {
      hide GetFields, GetDelimited, MessageWire, Delimited;
      assert MessageTyped(t.fields, v.slots) && MessageFits(t.fields, v.slots);
      MessageRoundTrip(t.fields, v.slots);
      DelimitedRoundTrip(MessageWire(t.fields, v.slots).bytes, rest);
    }
  }

  lemma NothingToClear(fields: seq<Field>, st: State, n: nat)
    requires n < |fields| == |st.slots| && UnionFree(fields, st, n)
    ensures ClearUnion(fields, n, st.slots) == st.slots
  {
  }

  /** A field that is written once. */
  lemma SingleRoundTrip(fields: seq<Field>, st: State, n: nat, f: Field, v: Value, rest: seq<Byte>)
    requires Ready(fields, st, n, [v]) && f == fields[n] && !IsArray(f) && ValueTyped(f.t, v) && ValueFits(f.t, v)
    requires f.rule.Implicit? || f.rule.Required? || st.slots[n] == []
    ensures SingleWire(f, v).Wire?
    ensures GetFields(fields, SingleWire(f, v).bytes + rest, st) == GetFields(fields, rest, Put(fields, st, n, [v]))
    decreases f, 0, 0
  {
    hide GetFields, GetValue, ValueWire, ValueFits, ValueTyped, ClearUnion, TagsOk, UnionFree, FixedDone;
    ValueRoundTrip(f.t, v, rest);
    NothingToClear(fields, st, n);
    var st' := Put(fields, st, n, [v]);
    assert GetField(fields, n, WireType(f.t), ValueWire(f.t, v).bytes + rest, st) == Some((st', rest));
    RecordStep(fields, n, WireType(f.t), ValueWire(f.t, v).bytes, rest, st, st');
  }

  // ----- arrays -----

  /** The entries of an array field, and that it is ready to be read. */
  ghost predicate ArrayAt(fields: seq<Field>, st: State, n: nat, f: Field, vals: seq<Value>) {
    && Ready(fields, st, n, vals) && f == fields[n] && IsArray(f)
    && |vals| <= MaxOf(f) && (f.rule.FixedCount? ==> |vals| == f.rule.n)
    && forall i :: 0 <= i < |vals| ==> ValueTyped(f.t, vals[i]) && ValueFits(f.t, vals[i])
  }

  lemma PackedFieldRoundTrip(fields: seq<Field>, st: State, n: nat, f: Field, vals: seq<Value>, rest: seq<Byte>)
    requires ArrayAt(fields, st, n, f, vals) && vals != [] && Packable(f.t)
    requires ValuesWire(f.t, [], vals).Wire? && |ValuesWire(f.t, [], vals).bytes| < TWO32
    ensures GetFields(fields, Key(f.tag, 2) + Delimited(ValuesWire(f.t, [], vals).bytes) + rest, st) ==
            GetFields(fields, rest, Put(fields, st, n, vals))
  {
    hide GetFields, GetPacked, GetDelimited, ValuesWire, ValueFits, ValueTyped, Delimited, TagsOk, FixedDone, UnionFree;
    var data, st' := ValuesWire(f.t, [], vals).bytes, Put(fields, st, n, vals);
    DelimitedRoundTrip(data, rest);
    PackedRoundTrip(f.t, vals, MaxOf(f));
    assert Store(f.rule, DefaultSlot(f), 0, vals) == vals;
    assert GetField(fields, n, 2, Delimited(data) + rest, st) == Some((st', rest));
    RecordStep(fields, n, 2, Delimited(data), rest, st, st');
  }

  /** The array with its first j entries read. */
  ghost function Partial(f: Field, vals: seq<Value>, j: nat): seq<Value>
    requires j <= |vals|
  {
    if f.rule.FixedCount? && |vals| == f.rule.n then vals[..j] + DefaultSlot(f)[j..] else vals[..j]
  }

  ghost function EntryState(st: State, n: nat, f: Field, vals: seq<Value>, j: nat): (r: State)
    requires n < |st.slots| && j <= |vals|
    ensures |r.slots| == |st.slots|
  {
    st.(slots := st.slots[n := Partial(f, vals, j)], fixed := if f.rule.FixedCount? && j > 0 then Some((n, j)) else st.fixed)
  }

  lemma EntryEnds(fields: seq<Field>, st: State, n: nat, f: Field, vals: seq<Value>)
    requires ArrayAt(fields, st, n, f, vals)
    ensures EntryState(st, n, f, vals, 0) == st
    ensures EntryState(st, n, f, vals, |vals|) == Put(fields, st, n, vals)
  {
    hide TagsOk, ValueTyped, ValueFits, FixedDone, UnionFree;
    assert Partial(f, vals, 0) == DefaultSlot(f);
    assert Partial(f, vals, |vals|) == vals;
    assert st.slots[n := st.slots[n]] == st.slots;
  }

  lemma EntryStored(f: Field, vals: seq<Value>, j: nat)
    requires IsArray(f) && j < |vals| && (f.rule.FixedCount? ==> |vals| == f.rule.n)
    ensures Store(f.rule, Partial(f, vals, j), j, [vals[j]]) == Partial(f, vals, j + 1)
    ensures !f.rule.FixedCount? ==> |Partial(f, vals, j)| == j
  {
    assert vals[..j + 1] == vals[..j] + [vals[j]];
    if f.rule.FixedCount? {
      var p := Partial(f, vals, j);
      assert p[..j] == vals[..j] && p[j + 1..] == DefaultSlot(f)[j + 1..];
    }
  }

  /** One entry of an array that is not packed. */
  lemma EntryRoundTrip(fields: seq<Field>, st: State, n: nat, f: Field, vals: seq<Value>, j: nat, rest: seq<Byte>)
    requires ArrayAt(fields, st, n, f, vals) && !Packable(f.t) && j < |vals|
    ensures ValueWire(f.t, vals[j]).Wire?
    ensures GetFields(fields, Key(f.tag, WireType(f.t)) + ValueWire(f.t, vals[j]).bytes + rest, EntryState(st, n, f, vals, j)) ==
            GetFields(fields, rest, EntryState(st, n, f, vals, j + 1))
    decreases f, 0, 0
  {
    hide GetFields, GetValue, ValueWire, ValueFits, ValueTyped, TagsOk, FixedDone, UnionFree, Store, Partial;
    var v, from, to := vals[j], EntryState(st, n, f, vals, j), EntryState(st, n, f, vals, j + 1);
    ValueRoundTrip(f.t, v, rest);
    EntryStored(f, vals, j);
    if j == 0 { EntryEnds(fields, st, n, f, vals); }
    assert CountOf(f, n, from.slots[n], from) == j;
    assert from.slots[n := Partial(f, vals, j + 1)] == to.slots;
    assert GetField(fields, n, WireType(f.t), ValueWire(f.t, v).bytes + rest, from) == Some((to, rest));
    RecordStep(fields, n, WireType(f.t), ValueWire(f.t, v).bytes, rest, from, to);
  }

  lemma {:induction false} EntriesRoundTrip(fields: seq<Field>, st: State, n: nat, f: Field, vals: seq<Value>, j: nat, rest: seq<Byte>)
    requires ArrayAt(fields, st, n, f, vals) && !Packable(f.t) && j <= |vals|
    ensures
      var w := ValuesWire(f.t, Key(f.tag, WireType(f.t)), vals[j..]);
      w.Wire? && GetFields(fields, w.bytes + rest, EntryState(st, n, f, vals, j)) == GetFields(fields, rest, EntryState(st, n, f, vals, |vals|))
    decreases f, 1, |vals| - j
  {
    hide GetFields, ValueWire, ValueFits, ValueTyped, TagsOk, EntryState, FixedDone, UnionFree;
    var key := Key(f.tag, WireType(f.t));
    if j == |vals| {
      assert vals[j..] == [];
      assert [] + rest == rest;
    } else {
      ValuesCons(f.t, key, vals[j..]);
      assert vals[j..][1..] == vals[j + 1..];
      var v, tail := ValueWire(f.t, vals[j]).bytes, ValuesWire(f.t, key, vals[j + 1..]).bytes;
      EntryRoundTrip(fields, st, n, f, vals, j, tail + rest);
      EntriesRoundTrip(fields, st, n, f, vals, j + 1, rest);
      assert key + v + tail + rest == key + v + (tail + rest);
    }
  }

  /** The bytes of a field, read by a decoder that is ready for it, put its values in place. */
  lemma FieldRoundTrip(fields: seq<Field>, st: State, n: nat, f: Field, vals: seq<Value>, rest: seq<Byte>)
    requires Ready(fields, st, n, vals) && f == fields[n] && SlotTyped(f, vals) && SlotFits(f, vals)
    requires FieldWire(f, vals).Wire? && |FieldWire(f, vals).bytes| < TWO32
    ensures GetFields(fields, FieldWire(f, vals).bytes + rest, st) == GetFields(fields, rest, Put(fields, st, n, vals))
    decreases f, 2, 0
  {
    if IsArray(f) {
      ArrayRoundTrip(fields, st, n, f, vals, rest);
    } else if vals != [] && !(f.rule.Implicit? && IsZero(f.t, vals[0])) {
      assert vals == [vals[0]];
      SingleRoundTrip(fields, st, n, f, vals[0], rest);
    } else {
      hide GetFields, ValueWire, ValueFits, ValueTyped, TagsOk;
      AbsentRoundTrip(fields, st, n, vals);
      assert [] + rest == rest;
    }
  }

  lemma AbsentRoundTrip(fields: seq<Field>, st: State, n: nat, vals: seq<Value>)
    requires n < |fields| == |st.slots| && st.slots[n] == DefaultSlot(fields[n]) && SlotTyped(fields[n], vals) && SlotFits(fields[n], vals)
    requires vals == [] || (fields[n].rule.Implicit? && IsZero(fields[n].t, vals[0]))
    ensures Put(fields, st, n, vals) == st
  {
    var f := fields[n];
    if vals != [] {
      ZeroIsDefault(f.t, vals[0]);
      assert vals == [vals[0]];
    }
    assert vals == DefaultSlot(f);
    assert st.slots[n := vals] == st.slots;
  }

  lemma ArrayRoundTrip(fields: seq<Field>, st: State, n: nat, f: Field, vals: seq<Value>, rest: seq<Byte>)
    requires Ready(fields, st, n, vals) && f == fields[n] && SlotTyped(f, vals) && SlotFits(f, vals) && IsArray(f)
    requires FieldWire(f, vals).Wire? && |FieldWire(f, vals).bytes| < TWO32
    ensures GetFields(fields, FieldWire(f, vals).bytes + rest, st) == GetFields(fields, rest, Put(fields, st, n, vals))
    decreases f, 1, |vals| + 1
  {
    hide GetFields, ValueWire, ValueFits, ValueTyped, TagsOk, ValuesWire, FixedDone, UnionFree;
    assert ArrayAt(fields, st, n, f, vals);
    if vals == [] {
      AbsentRoundTrip(fields, st, n, vals);
      assert [] + rest == rest;
    } else if Packable(f.t) {
      PackedFieldRoundTrip(fields, st, n, f, vals, rest);
    } else {
      EntriesRoundTrip(fields, st, n, f, vals, 0, rest);
      EntryEnds(fields, st, n, f, vals);
      assert vals[0..] == vals;
    }
  }

  // ----- a reader and a writer -----

  /** Every field of the writer is unknown to the reader, or the same field there. */
  predicate Compatible(fields: seq<Field>, written: seq<Field>) {
    forall k :: 0 <= k < |written| ==>
      FindField(fields, written[k].tag) < |fields| ==> fields[FindField(fields, written[k].tag)] == written[k]
  }

  /** The reader's state after the writer's first k fields. */
  ghost function ReadAfter(fields: seq<Field>, written: seq<Field>, slots: seq<seq<Value>>, k: nat): (st: State)
    requires k <= |written| == |slots|
    ensures |st.slots| == |fields|
  {
    if k == 0 then State(Defaults(fields), None, {})
    else
      var before, n := ReadAfter(fields, written, slots, k - 1), FindField(fields, written[k - 1].tag);
      if n == |fields| then before else Put(fields, before, n, slots[k - 1])
  }

  /** What the reader finds for its field i among the writer's first k fields. */
  ghost function Found(fields: seq<Field>, written: seq<Field>, slots: seq<seq<Value>>, k: nat, i: nat): seq<Value>
    requires k <= |written| == |slots| && i < |fields|
  {
    var j := FindField(written, fields[i].tag);
    if j < k then slots[j] else DefaultSlot(fields[i])
  }

  /** Descriptors with usable tags that agree on the fields they share, and a message that fits the writer's. */
  ghost predicate Exchange(fields: seq<Field>, written: seq<Field>, slots: seq<seq<Value>>) {
    TagsOk(fields) && TagsOk(written) && Compatible(fields, written) && MessageTyped(written, slots) && MessageFits(written, slots)
  }

  lemma FindPlace(fields: seq<Field>, tag: nat, i: nat)
    requires TagsOk(fields) && i < |fields| && fields[i].tag == tag
    ensures FindField(fields, tag) == i
  {
  }

  lemma FindLater(written: seq<Field>, k: nat, tag: nat)
    requires TagsOk(written) && 0 < k <= |written|
    ensures FindField(written, tag) < k <==> FindField(written, tag) < k - 1 || written[k - 1].tag == tag
  {
    if written[k - 1].tag == tag {
      FindPlace(written, tag, k - 1);
    }
  }

  /** Which of the reader's fields the writer's field k - 1 is. */
  lemma FoundNow(fields: seq<Field>, written: seq<Field>, k: nat, i: nat)
    requires TagsOk(fields) && TagsOk(written) && 0 < k <= |written| && i < |fields|
    ensures var now := i == FindField(fields, written[k - 1].tag);
            && (FindField(written, fields[i].tag) < k <==> FindField(written, fields[i].tag) < k - 1 || now)
            && (now ==> FindField(written, fields[i].tag) == k - 1)
  {
    hide FindField;
    FindLater(written, k, fields[i].tag);
    if written[k - 1].tag == fields[i].tag {
      FindPlace(fields, written[k - 1].tag, i);
      FindPlace(written, fields[i].tag, k - 1);
    }
  }

  lemma {:induction false} SlotsAfter(fields: seq<Field>, written: seq<Field>, slots: seq<seq<Value>>, k: nat, i: nat)
    requires TagsOk(fields) && TagsOk(written) && k <= |written| == |slots| && i < |fields|
    ensures ReadAfter(fields, written, slots, k).slots[i] == Found(fields, written, slots, k, i)
    decreases k
  {
    hide Defaults, DefaultSlot, FindField, TagsOk;
    if k == 0 {
      DefaultsAt(fields, i);
    } else {
      SlotsAfter(fields, written, slots, k - 1, i);
      FoundNow(fields, written, k, i);
    }
  }

  /** An array of fixed count that has been read is complete. */
  lemma {:induction false} FixedAfter(fields: seq<Field>, written: seq<Field>, slots: seq<seq<Value>>, k: nat)
    requires Exchange(fields, written, slots) && k <= |written|
    ensures var x := ReadAfter(fields, written, slots, k).fixed;
            x.Some? ==>
              && x.value.0 < |fields| && FindField(written, fields[x.value.0].tag) < k
              && fields[x.value.0].rule.FixedCount? && x.value.1 == fields[x.value.0].rule.n
    decreases k
  {
    hide Defaults, FindField, TagsOk, MessageFits, ValueTyped;
    if k > 0 {
      FixedAfter(fields, written, slots, k - 1);
      var n := FindField(fields, written[k - 1].tag);
      if n < |fields| {
        FoundNow(fields, written, k, n);
        assert SlotTyped(written[k - 1], slots[k - 1]);
      }
    }
  }

  lemma {:induction false} SeenAfter(fields: seq<Field>, written: seq<Field>, slots: seq<seq<Value>>, k: nat, i: nat)
    requires TagsOk(fields) && TagsOk(written) && k <= |written| == |slots| && i < |fields| && fields[i].rule.Required?
    ensures i in ReadAfter(fields, written, slots, k).seen <==> FindField(written, fields[i].tag) < k
    decreases k
  {
    hide Defaults, FindField, TagsOk;
    if k > 0 {
      SeenAfter(fields, written, slots, k - 1, i);
      FoundNow(fields, written, k, i);
    }
  }

  /** Before the writer's field k, the reader is ready for it. */
  lemma ReadyForNext(fields: seq<Field>, written: seq<Field>, slots: seq<seq<Value>>, k: nat)
    requires Exchange(fields, written, slots) && k < |written| && FindField(fields, written[k].tag) < |fields|
    ensures Ready(fields, ReadAfter(fields, written, slots, k), FindField(fields, written[k].tag), slots[k])
  {
    hide MessageFits, Defaults, DefaultSlot, SlotTyped, TagsOk, ReadAfter, FixedDone, FindField;
    var st, n := ReadAfter(fields, written, slots, k), FindField(fields, written[k].tag);
    SlotsAfter(fields, written, slots, k, n);
    FixedAfter(fields, written, slots, k);
    assert FixedDone(fields, st) by { CompleteIsDone(fields, st); }
    FindPlace(written, fields[n].tag, k);
    if slots[k] != [] {
      forall j | 0 <= j < |fields| && j != n && SameUnion(fields[n].rule, fields[j].rule) ensures st.slots[j] == [] {
        SlotsAfter(fields, written, slots, k, j);
        UnionFound(fields, written, slots, k, n, j);
      }
    }
  }

  lemma CompleteIsDone(fields: seq<Field>, st: State)
    requires st.fixed.Some? && st.fixed.value.0 < |fields| && fields[st.fixed.value.0].rule.FixedCount? ==>
               st.fixed.value.1 == fields[st.fixed.value.0].rule.n
    ensures FixedDone(fields, st)
  {
  }

  lemma UnionFound(fields: seq<Field>, written: seq<Field>, slots: seq<seq<Value>>, k: nat, n: nat, j: nat)
    requires Exchange(fields, written, slots) && k < |written| && n < |fields| && j < |fields| && slots[k] != []
    requires fields[n] == written[k] && SameUnion(fields[n].rule, fields[j].rule)
    ensures Found(fields, written, slots, k, j) == []
  {
    hide MessageFits, ValueTyped, SlotTyped;
    var m := FindField(written, fields[j].tag);
    if m < k {
      FindPlace(fields, written[m].tag, j);
      assert SameUnion(written[m].rule, written[k].rule);
    }
  }

  /** The writer's first k fields bring the reader to its state after them. */
  lemma {:induction false} FieldsExchange(fields: seq<Field>, written: seq<Field>, slots: seq<seq<Value>>, k: nat, rest: seq<Byte>)
    requires Exchange(fields, written, slots) && k <= |written|
    ensures MessageTyped(written[..k], slots[..k]) && MessageWire(written[..k], slots[..k]).Wire?
    ensures GetFields(fields, MessageWire(written[..k], slots[..k]).bytes + rest, State(Defaults(fields), None, {})) ==
            GetFields(fields, rest, ReadAfter(fields, written, slots, k))
    decreases written, 0, k
  {
    hide GetFields, FieldWire, SlotTyped, Defaults, SlotFits, TagsOk, Compatible;
    MessageIsWire(written, slots, k);
    if k == 0 {
      assert [] + rest == rest;
    } else {
      var f, vals := written[k - 1], slots[k - 1];
      MessageIsWire(written, slots, k - 1);
      FieldIsWire(f, vals);
      assert written[..k][..k - 1] == written[..k - 1] && slots[..k][..k - 1] == slots[..k - 1];
      var a, b := MessageWire(written[..k - 1], slots[..k - 1]).bytes, FieldWire(f, vals).bytes;
      assert a + b + rest == a + (b + rest);
      FieldsExchange(fields, written, slots, k - 1, b + rest);
      FieldWithin(written, slots, |written|, k - 1);
      assert written[..|written|] == written && slots[..|written|] == slots;
      OneExchange(fields, written, slots, k - 1, f, rest);
    }
  }

  lemma OneExchange(fields: seq<Field>, written: seq<Field>, slots: seq<seq<Value>>, k: nat, f: Field, rest: seq<Byte>)
    requires Exchange(fields, written, slots) && k < |written| && f == written[k] && SlotTyped(f, slots[k]) && SlotFits(f, slots[k])
    requires FieldWire(f, slots[k]).Wire? && |FieldWire(f, slots[k]).bytes| < TWO32
    ensures GetFields(fields, FieldWire(f, slots[k]).bytes + rest, ReadAfter(fields, written, slots, k)) ==
            GetFields(fields, rest, ReadAfter(fields, written, slots, k + 1))
    decreases f, 3, 0
  {
    hide GetFields, FieldWire, SlotTyped, Defaults, SlotFits, MessageFits, Ready;
    var n := FindField(fields, f.tag);
    if n == |fields| {
      TagInRange(written, k);
      UnknownFieldPasses(fields, f, slots[k], rest, ReadAfter(fields, written, slots, k));
    } else {
      ReadyForNext(fields, written, slots, k);
      FieldRoundTrip(fields, ReadAfter(fields, written, slots, k), n, f, slots[k], rest);
    }
  }

  lemma TagInRange(written: seq<Field>, k: nat)
    requires TagsOk(written) && k < |written|
    ensures 0 < written[k].tag && written[k].tag * 8 + 7 < TWO32
  {
  }

  /** Every required field the decoder keeps track of, the first 64, is one the writer knew. */
  predicate RequiredThere(fields: seq<Field>, written: seq<Field>) {
    forall i :: 0 <= i < |fields| && fields[i].rule.Required? && RequiredBefore(fields, i) < MAX_REQUIRED ==>
      FindField(written, fields[i].tag) < |written|
  }

  ghost function Restored(fields: seq<Field>, written: seq<Field>, slots: seq<seq<Value>>): seq<seq<Value>>
    requires |written| == |slots|
  {
    seq(|fields|, i requires 0 <= i < |fields| => Found(fields, written, slots, |written|, i))
  }

  lemma MessageExchange(fields: seq<Field>, written: seq<Field>, slots: seq<seq<Value>>)
    requires Exchange(fields, written, slots)
    ensures MessageWire(written, slots).Wire? && |MessageWire(written, slots).bytes| < TWO32
    ensures
      var st := ReadAfter(fields, written, slots, |written|);
      && st.slots == Restored(fields, written, slots)
      && GetFields(fields, MessageWire(written, slots).bytes, State(Defaults(fields), None, {})) ==
         if RequiredThere(fields, written) then Some(st) else None
    decreases written, 1, 0
  {
    hide FieldWire, SlotTyped, Defaults, SlotFits, TagsOk, MessageWire, Compatible, FixedDone, ReadAfter, FindField, Found;
    var n := |written|;
    FieldsExchange(fields, written, slots, n, []);
    assert written[..n] == written && slots[..n] == slots;
    var b := MessageWire(written, slots).bytes;
    assert b + [] == b;
    var st := ReadAfter(fields, written, slots, n);
    forall i | 0 <= i < |fields| ensures st.slots[i] == Found(fields, written, slots, n, i)
      ensures fields[i].rule.Required? ==> (i in st.seen <==> FindField(written, fields[i].tag) < n)
    {
      SlotsAfter(fields, written, slots, n, i);
      if fields[i].rule.Required? { SeenAfter(fields, written, slots, n, i); }
    }
    FixedAfter(fields, written, slots, n);
    CompleteIsDone(fields, st);
  }

  /**
  A message written with one descriptor and read with another that agrees on the fields they
  share, in any order: decoding succeeds exactly when no required field it keeps track of is
  missing, gives each shared field its value and every other its default, and passes over
  what the reader does not know.
  */
  lemma ExchangeIff(fields: seq<Field>, written: seq<Field>, slots: seq<seq<Value>>)
    requires Exchange(fields, written, slots)
    ensures MessageWire(written, slots).Wire?
    ensures Decode(fields, MessageWire(written, slots).bytes) ==
            if RequiredThere(fields, written) then Some(Restored(fields, written, slots)) else None
  {
    hide GetFields, MessageWire, Defaults;
    MessageExchange(fields, written, slots);
  }

  lemma SelfExchange(fields: seq<Field>, slots: seq<seq<Value>>)
    requires MessageTyped(fields, slots) && MessageFits(fields, slots)
    ensures Exchange(fields, fields, slots) && RequiredThere(fields, fields) && Restored(fields, fields, slots) == slots
  {
    hide MessageTyped, SlotFits;
    forall i | 0 <= i < |fields| ensures FindField(fields, fields[i].tag) == i {
      FindPlace(fields, fields[i].tag, i);
    }
    assert |fields| == |slots| by { SameLength(fields, slots); }
  }

  lemma SameLength(fields: seq<Field>, slots: seq<seq<Value>>)
    requires MessageTyped(fields, slots)
    ensures |fields| == |slots|
  {
  }

  lemma MessageRoundTrip(fields: seq<Field>, slots: seq<seq<Value>>)
    requires MessageTyped(fields, slots) && MessageFits(fields, slots)
    ensures MessageWire(fields, slots).Wire? && |MessageWire(fields, slots).bytes| < TWO32
    ensures
      var r := GetFields(fields, MessageWire(fields, slots).bytes, State(Defaults(fields), None, {}));
      r.Some? && r.value.slots == slots
    decreases fields, 2, 0
  {
    hide GetFields, MessageWire, Defaults, MessageTyped, MessageFits, Exchange, Restored, ReadAfter;
    SelfExchange(fields, slots);
    MessageExchange(fields, fields, slots);
  }

  /**
  For every descriptor with usable tags and every message its struct can hold, decoding the
  encoding succeeds and restores the message: present fields with their values, absent ones
  at their defaults.
  */
  lemma RoundTrip(fields: seq<Field>, slots: seq<seq<Value>>)
    requires MessageTyped(fields, slots) && MessageFits(fields, slots)
    ensures MessageWire(fields, slots).Wire? && Decode(fields, MessageWire(fields, slots).bytes) == Some(slots)
  {
    hide GetFields, MessageWire, Defaults;
    MessageRoundTrip(fields, slots);
  }

  // ----- older and newer programs -----

  /** The elements marked to be kept, in order. */
  function Kept<T>(s: seq<T>, keep: seq<bool>): seq<T>
    requires |s| == |keep|
  {
    if s == [] then []
    else Kept(s[..|s| - 1], keep[..|s| - 1]) + if keep[|s| - 1] then [s[|s| - 1]] else []
  }

  /** Where a kept element came from. */
  lemma {:induction false} KeptFrom<T, U>(s: seq<T>, u: seq<U>, keep: seq<bool>, i: nat) returns (j: nat)
    requires |s| == |u| == |keep| && i < |Kept(s, keep)|
    ensures |Kept(u, keep)| == |Kept(s, keep)|
    ensures j < |s| && keep[j] && Kept(s, keep)[i] == s[j] && Kept(u, keep)[i] == u[j]
  {
    var n := |s| - 1;
    KeptLength(s, u, keep);
    KeptLength(s[..n], u[..n], keep[..n]);
    if i < |Kept(s[..n], keep[..n])| {
      j := KeptFrom(s[..n], u[..n], keep[..n], i);
    } else {
      j := n;
    }
  }

  lemma {:induction false} KeptLength<T, U>(s: seq<T>, u: seq<U>, keep: seq<bool>)
    requires |s| == |u| == |keep|
    ensures |Kept(s, keep)| == |Kept(u, keep)|
  {
    if s != [] {
      KeptLength(s[..|s| - 1], u[..|s| - 1], keep[..|s| - 1]);
    }
  }

  lemma {:induction false} KeptTags(fields: seq<Field>, keep: seq<bool>)
    requires TagsOk(fields) && |fields| == |keep|
    ensures TagsOk(Kept(fields, keep))
  {
    if fields != [] {
      var n := |fields| - 1;
      KeptTags(fields[..n], keep[..n]);
      forall i | 0 <= i < |Kept(fields[..n], keep[..n])| ensures Kept(fields[..n], keep[..n])[i].tag != fields[n].tag {
        var j := KeptFrom(fields[..n], fields[..n], keep[..n], i);
      }
    }
  }

  /**
  An older program reads a newer message: with any fields left out of its descriptor, it
  succeeds and restores exactly the remaining ones.
  */
  lemma OlderReadsNewer(written: seq<Field>, slots: seq<seq<Value>>, keep: seq<bool>)
    requires MessageTyped(written, slots) && MessageFits(written, slots) && |keep| == |written|
    ensures MessageWire(written, slots).Wire?
    ensures Decode(Kept(written, keep), MessageWire(written, slots).bytes) == Some(Kept(slots, keep))
  {
    hide MessageTyped, MessageWire, SlotFits, Decode, FindField;
    SameLength(written, slots);
    var fields := Kept(written, keep);
    KeptTags(written, keep);
    KeptLength(written, slots, keep);
    forall i | 0 <= i < |fields| ensures Found(fields, written, slots, |written|, i) == Kept(slots, keep)[i]
      ensures FindField(written, fields[i].tag) < |written| && fields[i] == written[FindField(written, fields[i].tag)]
    {
      var j := KeptFrom(written, slots, keep, i);
      FindPlace(written, fields[i].tag, j);
    }
    forall k | 0 <= k < |written| && FindField(fields, written[k].tag) < |fields|
      ensures fields[FindField(fields, written[k].tag)] == written[k]
    {
      FindPlace(written, written[k].tag, k);
    }
    assert Restored(fields, written, slots) == Kept(slots, keep);
    ExchangeIff(fields, written, slots);
  }

  /** A message that lacks a required field the decoder keeps track of is rejected. */
  lemma MissingRequiredFails(fields: seq<Field>, written: seq<Field>, slots: seq<seq<Value>>, i: nat)
    requires Exchange(fields, written, slots) && i < |fields| && fields[i].rule.Required? && RequiredBefore(fields, i) < MAX_REQUIRED
    requires forall k :: 0 <= k < |written| ==> written[k].tag != fields[i].tag
    ensures MessageWire(written, slots).Wire? && Decode(fields, MessageWire(written, slots).bytes) == None
  {
    hide MessageTyped, MessageWire, MessageFits, Decode;
    var k := FindField(written, fields[i].tag);
    assert k == |written|;
    assert !RequiredThere(fields, written);
    ExchangeIff(fields, written, slots);
  }

  // ----- what else the decoder promises -----

  /** A field that is not an array or a message may be sent again: the last value counts. */
  lemma LaterValueWins(fields: seq<Field>, st: State, n: nat, f: Field, v: Value, w: Value, rest: seq<Byte>)
    requires Ready(fields, st, n, [v]) && f == fields[n] && !IsArray(f) && !f.t.Sub?
    requires ValueTyped(f.t, v) && ValueFits(f.t, v) && ValueTyped(f.t, w) && ValueFits(f.t, w)
    requires f.rule.Implicit? || f.rule.Required? || st.slots[n] == []
    ensures SingleWire(f, v).Wire? && SingleWire(f, w).Wire?
    ensures GetFields(fields, SingleWire(f, v).bytes + (SingleWire(f, w).bytes + rest), st) ==
            GetFields(fields, rest, Put(fields, st, n, [w]))
  {
    hide GetFields, ValueWire, ValueFits, ValueTyped, ClearUnion, TagsOk, UnionFree, FixedDone, GetScalar;
    ValueIsWire(f.t, w);
    SingleRoundTrip(fields, st, n, f, v, SingleWire(f, w).bytes + rest);
    var st', st'' := Put(fields, st, n, [v]), Put(fields, st, n, [w]);
    ScalarRoundTrip(f.t, w, rest);
    assert UnionFree(fields, st', n) by { StillFree(fields, st, n, v); }
    NothingToClear(fields, st', n);
    assert st'.slots[n := [w]] == st''.slots;
    assert st'.seen + {n} == st'.seen || !f.rule.Required?;
    assert GetField(fields, n, WireType(f.t), ValueWire(f.t, w).bytes + rest, st') == Some((st'', rest));
    RecordStep(fields, n, WireType(f.t), ValueWire(f.t, w).bytes, rest, st', st'');
  }

  lemma StillFree(fields: seq<Field>, st: State, n: nat, v: Value)
    requires n < |fields| == |st.slots| && UnionFree(fields, st, n)
    ensures UnionFree(fields, Put(fields, st, n, [v]), n)
  {
  }

  /** The first c entries of an array that is not packed. */
  lemma {:induction false} FirstEntries(fields: seq<Field>, st: State, n: nat, f: Field, vals: seq<Value>, c: nat, rest: seq<Byte>)
    requires ArrayAt(fields, st, n, f, vals) && !Packable(f.t) && c <= |vals|
    ensures
      var w := ValuesWire(f.t, Key(f.tag, WireType(f.t)), vals[..c]);
      w.Wire? && GetFields(fields, w.bytes + rest, st) == GetFields(fields, rest, EntryState(st, n, f, vals, c))
    decreases c
  {
    hide GetFields, ValueWire, ValueFits, ValueTyped, TagsOk, EntryState, FixedDone, UnionFree;
    var key := Key(f.tag, WireType(f.t));
    if c == 0 {
      EntryEnds(fields, st, n, f, vals);
      assert [] + rest == rest;
    } else {
      ValueIsWire(f.t, vals[c - 1]);
      var v := ValueWire(f.t, vals[c - 1]).bytes;
      FirstEntries(fields, st, n, f, vals, c - 1, key + v + rest);
      assert vals[..c][..c - 1] == vals[..c - 1];
      var a := ValuesWire(f.t, key, vals[..c - 1]).bytes;
      assert a + (key + v) + rest == a + (key + v + rest);
      EntryRoundTrip(fields, st, n, f, vals, c - 1, rest);
    }
  }

  /** A message that ends inside an array of fixed count is rejected. */
  lemma IncompleteArrayFails(fields: seq<Field>, st: State, n: nat, f: Field, vals: seq<Value>, c: nat)
    requires ArrayAt(fields, st, n, f, vals) && f.rule.FixedCount? && !Packable(f.t) && 0 < c < |vals|
    ensures var w := ValuesWire(f.t, Key(f.tag, WireType(f.t)), vals[..c]); w.Wire? && GetFields(fields, w.bytes, st) == None
  {
    hide ValueWire, ValueFits, ValueTyped, TagsOk, UnionFree, ValuesWire;
    FirstEntries(fields, st, n, f, vals, c, []);
    var w := ValuesWire(f.t, Key(f.tag, WireType(f.t)), vals[..c]).bytes;
    assert w + [] == w;
    assert GetFields(fields, [], EntryState(st, n, f, vals, c)) == None;
  }

  /** The count that decides which required fields are kept track of. */
  lemma {:induction false} RequiredBeforeCounts(fields: seq<Field>, i: nat)
    requires i <= |fields|
    ensures RequiredBefore(fields, i) == |RequiredAt(fields, i)|
  {
    if i > 0 {
      RequiredBeforeCounts(fields, i - 1);
      OneMoreRequired(fields, i);
    }
  }

  function RequiredAt(fields: seq<Field>, i: nat): set<nat>
    requires i <= |fields|
  {
    set j: nat | 0 <= j < i && fields[j].rule.Required?
  }

  lemma OneMoreRequired(fields: seq<Field>, i: nat)
    requires 0 < i <= |fields|
    ensures |RequiredAt(fields, i)| == |RequiredAt(fields, i - 1)| + if fields[i - 1].rule.Required? then 1 else 0
  {
    var before, last := RequiredAt(fields, i - 1), i - 1;
    if fields[last].rule.Required? {
      assert RequiredAt(fields, i) == before + {last} && last !in before;
    } else {
      assert RequiredAt(fields, i) == before;
    }
  }

  /** A record with an unknown tag and a wire type no field uses is rejected. */
  lemma UnknownWireTypeFails(fields: seq<Field>, tag: nat, wire: nat, rest: seq<Byte>, st: State)
    requires |st.slots| == |fields| && 0 < tag && tag * 8 + 7 < TWO32 && wire in {3, 4, 6, 7} && FindField(fields, tag) == |fields|
    ensures GetFields(fields, Key(tag, wire) + rest, st) == None
  {
    hide GetField, Varint, Dec32, FindField, Finish;
    KeySplits(tag, wire);
    Dec32RoundTrip(tag * 8 + wire, rest);
    VarintNotEmpty(tag * 8 + wire);
  }
}
