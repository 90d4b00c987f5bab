/**
pb_encode.c: the encoder writes to a stream, or to a sizing stream that only counts. A nested
message is encoded twice, once for its size and once for its bytes.
*/
module ProtoEncode {
  import opened Common
  import opened Crc
  import opened Coding
  import opened Proto

  datatype Error = StreamFull | IoError | SizeChanged | Bad(fault: Fault)

  /** What a stream has done: bytes counted, bytes the sink took and will still take, whether it ever refused. */
  datatype Snap = Snap(sizing: bool, max: nat, out: seq<Byte>, room: nat, written: nat, refused: bool)

  /** The whole of `b` can be written from here. */
  ghost predicate Fits(s: Snap, b: seq<Byte>) {
    s.written + |b| <= s.max && |b| <= s.room
  }

  /**
  An attempt to put `w` on the stream ended in `r`: on a sizing stream it counts the bytes or
  reports what is wrong with the message; on a writing stream it succeeds exactly when there
  is room, and then the bytes are out.
  */
  ghost predicate Put(s: Snap, w: Wire, r: Option<Error>, s': Snap) {
    && s'.sizing == s.sizing && s'.max == s.max
    && (s.sizing ==>
          && s'.out == s.out && s'.room == s.room && s'.refused == s.refused
          && r == (if w.Fails? then Some(Bad(w.fault)) else None)
          && (w.Wire? ==> s'.written == s.written + |w.bytes|))
    && (!s.sizing ==>
          && (r.None? <==> w.Wire? && Fits(s, w.bytes))
          && (r.None? ==>
                && s'.out == s.out + w.bytes && s'.room == s.room - |w.bytes| && s'.written == s.written + |w.bytes|
                && s'.refused == s.refused)
          && s'.room + s'.written == s.room + s.written
          && (s.room + s.written >= s.max && !s.refused ==> !s'.refused)
          && (s.refused ==> s'.refused)
          && (r.Some? && w.Wire? && s.written + |w.bytes| <= s.max ==> s'.refused)
          && (r == Some(SizeChanged) || r == Some(IoError) ==> s'.refused)
          && (s'.refused && !s.refused && w.Wire? ==> |w.bytes| > s.room))
  }

  lemma PutThen(s: Snap, a: Wire, s1: Snap, b: Wire, r: Option<Error>, s2: Snap)
    requires Put(s, a, None, s1) && Put(s1, b, r, s2)
    ensures Put(s, Join(a, b), r, s2)
  {
    if !s.sizing && b.Wire? {
      assert s.out + a.bytes + b.bytes == s.out + (a.bytes + b.bytes);
    }
  }

  lemma PutFails(s: Snap, a: Wire, r: Option<Error>, s1: Snap, b: Wire)
    requires Put(s, a, r, s1) && r.Some?
    ensures Put(s, Join(a, b), r, s1)
  {
  }

  lemma PutNothing(s: Snap)
    ensures Put(s, Wire([]), None, s) <==> s.sizing || s.written <= s.max
  {
    assert s.out + [] == s.out;
  }

  class OStream {
    const sizing: bool
    const max: nat
    var out: seq<Byte>
    var room: nat
    var written: nat
    ghost var refused: bool

    ghost function S(): Snap
      reads this
    {
      Snap(sizing, max, out, room, written, refused)
    }

    /** A stream never holds more than it may. */
    ghost predicate Valid()
      reads this
    {
      !sizing ==> written <= max
    }

    constructor (sizing: bool, max: nat, out: seq<Byte>, room: nat)
      ensures Valid() && S() == Snap(sizing, max, out, room, 0, false)
    {
      this.sizing, this.max, this.out, this.room, written, refused := sizing, max, out, room, 0, false;
    }

    /** pb_write */
    method Write(bytes: seq<Byte>) returns (r: Option<Error>)
      requires Valid()
      modifies this
      ensures Valid() && Put(old(S()), Wire(bytes), r, S())
    {
      if |bytes| > 0 && !sizing {
        if written + |bytes| > max {
          return Some(StreamFull);
        }
        if |bytes| > room {
          refused := true;
          return Some(IoError);
        }
        out := out + bytes;
        room := room - |bytes|;
      }
      written := written + |bytes|;
      r := None;
      assert bytes == [] ==> old(out) + bytes == old(out);
    }

    /** pb_write on a sizing stream, where only the count matters. */
    method Skip(count: nat)
      requires sizing
      modifies this`written
      ensures written == old(written) + count
    {
      written := written + count;
    }
  }

  /** The bytes pb_encode_varint collects before it writes them. */
  method VarintBytes(v0: nat) returns (b: seq<Byte>)
    ensures b == Varint(v0)
  {
    hide Varint;
    Digit(v0);
    if v0 <= 0x7F {
      return [v0];
    }
    var v: nat := v0;
    b := [];
    while v > 0
      invariant v > 0 ==> b + Varint(v) == Varint(v0)
      invariant v == 0 ==> b != [] && b[|b| - 1] >= 128 && b[..|b| - 1] + [b[|b| - 1] - 128] == Varint(v0)
    {
      ghost var before := b;
      Digit(v);
      b := b + [v % 128 + 128];
      assert b[..|b| - 1] == before;
      v := v / 128;
    }
    b := b[..|b| - 1] + [b[|b| - 1] - 128];
  }

  lemma Digit(v: nat)
    ensures v < 128 ==> Varint(v) == [v]
    ensures v >= 128 ==> Varint(v) == [v % 128 + 128] + Varint(v / 128)
  {
  }

  method EncodeVarint(s: OStream, v: nat) returns (r: Option<Error>)
    requires s.Valid()
    modifies s
    ensures s.Valid() && Put(old(s.S()), Wire(Varint(v)), r, s.S())
  {
    hide Varint;
    var b := VarintBytes(v);
    r := s.Write(b);
  }

  /** pb_encode_string */
  method EncodeString(s: OStream, bytes: seq<Byte>) returns (r: Option<Error>)
    requires s.Valid()
    modifies s
    ensures s.Valid() && Put(old(s.S()), Wire(Delimited(bytes)), r, s.S())
  {
    hide Varint, Put;
    ghost var s0 := s.S();
    r := EncodeVarint(s, |bytes|);
    if r.Some? {
      PutFails(s0, Wire(Varint(|bytes|)), r, s.S(), Wire(bytes));
      return;
    }
    ghost var s1 := s.S();
    r := s.Write(bytes);
    PutThen(s0, Wire(Varint(|bytes|)), s1, Wire(bytes), r, s.S());
  }

  // ----- values, fields, messages -----

  method EncodeTag(s: OStream, tag: nat, wireType: nat) returns (r: Option<Error>)
    requires s.Valid()
    modifies s
    ensures s.Valid() && Put(old(s.S()), Wire(Key(tag, wireType)), r, s.S())
  {
    r := EncodeVarint(s, tag * 8 + wireType);
  }

  /** strnlen by a loop. */
  method StringLength(b: seq<Byte>, max: nat) returns (n: nat)
    ensures n <= |b| && b[..n] == CString(b, max)
  {
    n := 0;
    assert b[0..] == b;
    while n < max && n < |b| && b[n] != 0
      invariant n <= |b| && n <= max && b[..n] + CString(b[n..], max - n) == CString(b, max)
    {
      assert b[n..][1..] == b[n + 1..];
      assert b[..n] + ([b[n]] + CString(b[n + 1..], max - n - 1)) == b[..n + 1] + CString(b[n + 1..], max - n - 1);
      n := n + 1;
    }
    assert b[n..] != [] && n < max ==> b[n..][0] == 0;
    assert b[..n] + [] == b[..n];
  }

  /** The field encoders. */
  method EncodeValue(s: OStream, t: Type, v: Value) returns (r: Option<Error>)
    requires s.Valid() && ValueTyped(t, v)
    modifies s
    ensures s.Valid() && Put(old(s.S()), ValueWire(t, v), r, s.S())
    decreases t, 0, 0
  {
    match t
    case Bool => r := EncodeVarint(s, if v.b then 1 else 0);
    case Int(_) => r := EncodeVarint(s, Unsigned(v.i));
    case UInt(_) => r := EncodeVarint(s, v.i);
    case SInt(_) => r := EncodeVarint(s, Zigzag(v.i));
    case Fixed32 => r := s.Write(FixedBytes(v.i));
    case Fixed64 => r := s.Write(Coding.Fixed64(v.i));
    case Bytes(max) =>
      if |v.bytes| > max {
        return Some(Bad(BytesSize));
      }
      r := EncodeString(s, v.bytes);
    case String(size) =>
      var n := StringLength(v.bytes, size);
      r := EncodeString(s, v.bytes[..n]);
    case FixedLength(_) => r := EncodeString(s, v.bytes);
    case Sub(fields) => r := EncodeSubmessage(s, fields, v.slots);
  }

  /** First the size on a sizing stream, then the bytes on a substream that may hold exactly that many. */
  method EncodeSubmessage(s: OStream, fields: seq<Field>, slots: seq<seq<Value>>) returns (r: Option<Error>)
    requires s.Valid() && MessageTyped(fields, slots)
    modifies s
    ensures s.Valid()
    ensures var inner := MessageWire(fields, slots);
            Put(old(s.S()), if inner.Fails? then inner else Wire(Delimited(inner.bytes)), r, s.S())
    decreases fields, 1, 0
  {
    hide Varint, MessageWire;
    ghost var inner := MessageWire(fields, slots);
    var sizer := new OStream(true, 0, [], 0);
    r := Encode(sizer, fields, slots);
    if r.Some? {
      return;
    }
    var size := sizer.written;
    ghost var s0 := s.S();
    r := EncodeVarint(s, size);
    if r.Some? {
      PutFails(s0, Wire(Varint(size)), r, s.S(), inner);
      return;
    }
    if s.sizing {
      s.Skip(size);
      return;
    }
    if s.written + size > s.max {
      return Some(StreamFull);
    }
    ghost var s1 := s.S();
    var sub := new OStream(false, size, s.out, s.room);
    r := Encode(sub, fields, slots);
    s.written := s.written + sub.written;
    s.out, s.room := sub.out, sub.room;
    s.refused := s.refused || sub.refused;
    if sub.written != size {
      return Some(SizeChanged);
    }
  }

  /** Puts values one after another, each behind `key`. */
  method EncodeValues(s: OStream, f: Field, key: Option<nat>, vals: seq<Value>) returns (r: Option<Error>)
    requires s.Valid() && forall i :: 0 <= i < |vals| ==> ValueTyped(f.t, vals[i])
    modifies s
    ensures s.Valid()
    ensures Put(old(s.S()), ValuesWire(f.t, if key.Some? then Key(f.tag, key.value) else [], vals), r, s.S())
    decreases f.t, 1, 0
  {
    hide Put, ValueWire, Varint;
    ghost var s0, k := s.S(), if key.Some? then Key(f.tag, key.value) else [];
    PutNothing(s0);
    for i := 0 to |vals|
      invariant s.Valid() && Put(s0, ValuesWire(f.t, k, vals[..i]), None, s.S())
    {
      ghost var w, s1 := ValuesWire(f.t, k, vals[..i]), s.S();
      ghost var one := Join(Wire(k), ValueWire(f.t, vals[i]));
      assert vals[..i + 1][..i] == vals[..i];
      PutNothing(s1);
      if key.Some? {
        r := EncodeTag(s, f.tag, key.value);
        if r.Some? {
          PutFails(s1, Wire(k), r, s.S(), ValueWire(f.t, vals[i]));
          PutThen(s0, w, s1, one, r, s.S());
          RestFails(s0, f.t, k, vals, i + 1, r, s.S());
          return;
        }
      }
      ghost var s2 := s.S();
      r := EncodeValue(s, f.t, vals[i]);
      PutThen(s1, Wire(k), s2, ValueWire(f.t, vals[i]), r, s.S());
      PutThen(s0, w, s1, one, r, s.S());
      if r.Some? {
        RestFails(s0, f.t, k, vals, i + 1, r, s.S());
        return;
      }
    }
    assert vals[..|vals|] == vals;
    r := None;
  }

  /** A failure part of the way is a failure of the whole. */
  lemma {:induction false} RestFails(s: Snap, t: Type, key: seq<Byte>, vals: seq<Value>, n: nat, r: Option<Error>, s1: Snap)
    requires n <= |vals| && (forall i :: 0 <= i < |vals| ==> ValueTyped(t, vals[i]))
    requires Put(s, ValuesWire(t, key, vals[..n]), r, s1) && r.Some?
    ensures Put(s, ValuesWire(t, key, vals), r, s1)
    decreases |vals| - n
  {
    hide Put, ValueWire;
    if n == |vals| {
      assert vals[..n] == vals;
    } else {
      assert vals[..n + 1][..n] == vals[..n];
      PutFails(s, ValuesWire(t, key, vals[..n]), r, s1, Join(Wire(key), ValueWire(t, vals[n])));
      RestFails(s, t, key, vals, n + 1, r, s1);
    }
  }

  /** encode_array: packed behind one key and one length where the type allows it. */
  method EncodeArray(s: OStream, f: Field, max: nat, vals: seq<Value>) returns (r: Option<Error>)
    requires s.Valid() && forall i :: 0 <= i < |vals| ==> ValueTyped(f.t, vals[i])
    modifies s
    ensures s.Valid() && Put(old(s.S()), ArrayWire(f, max, vals), r, s.S())
    decreases f, 0, 0
  {
    hide ValuesWire, Varint;
    PutNothing(s.S());
    if vals == [] {
      return None;
    }
    if |vals| > max {
      return Some(Bad(ArraySize));
    }
    if !Packable(f.t) {
      r := EncodeValues(s, f, Some(WireType(f.t)), vals);
      return;
    }
    ghost var s0, data := s.S(), ValuesWire(f.t, [], vals);
    PackedIsWire(f.t, vals);
    r := EncodeTag(s, f.tag, 2);
    if r.Some? {
      PutFails(s0, Wire(Key(f.tag, 2)), r, s.S(), Wire(Delimited(data.bytes)));
      return;
    }
    ghost var s1 := s.S();
    var size: nat;
    if f.t.Fixed32? {
      size := 4 * |vals|;
    } else if f.t.Fixed64? {
      size := 8 * |vals|;
    } else {
      var sizer := new OStream(true, 0, [], 0);
      r := EncodeValues(sizer, f, None, vals);
      size := sizer.written;
    }
    r := PutPacked(s, f, vals, size);
    PutThen(s0, Wire(Key(f.tag, 2)), s1, Wire(Delimited(data.bytes)), r, s.S());
  }

  /** The length and the data of a packed array. */
  method PutPacked(s: OStream, f: Field, vals: seq<Value>, size: nat) returns (r: Option<Error>)
    requires s.Valid() && (forall i :: 0 <= i < |vals| ==> ValueTyped(f.t, vals[i]))
    requires ValuesWire(f.t, [], vals).Wire? && size == |ValuesWire(f.t, [], vals).bytes|
    modifies s
    ensures s.Valid() && Put(old(s.S()), Wire(Delimited(ValuesWire(f.t, [], vals).bytes)), r, s.S())
    decreases f.t, 2, 0
  {
    hide ValuesWire, Varint;
    ghost var s0, data := s.S(), ValuesWire(f.t, [], vals);
    r := EncodeVarint(s, size);
    if r.Some? {
      PutFails(s0, Wire(Varint(size)), r, s.S(), data);
      return;
    }
    if s.sizing {
      s.Skip(size);
      return;
    }
    ghost var s1 := s.S();
    r := EncodeValues(s, f, None, vals);
    PutThen(s0, Wire(Varint(size)), s1, data, r, s.S());
  }

  /** Values of packable types always have a wire form; the fixed ones have a fixed size. */
  lemma {:induction false} PackedIsWire(t: Type, vals: seq<Value>)
    requires Packable(t) && forall i :: 0 <= i < |vals| ==> ValueTyped(t, vals[i])
    ensures ValuesWire(t, [], vals).Wire?
    ensures t.Fixed32? ==> |ValuesWire(t, [], vals).bytes| == 4 * |vals|
    ensures t.Fixed64? ==> |ValuesWire(t, [], vals).bytes| == 8 * |vals|
  {
    if vals != [] {
      PackedIsWire(t, vals[..|vals| - 1]);
    }
  }

  method EncodeSingle(s: OStream, f: Field, v: Value) returns (r: Option<Error>)
    requires s.Valid() && ValueTyped(f.t, v)
    modifies s
    ensures s.Valid() && Put(old(s.S()), SingleWire(f, v), r, s.S())
    decreases f, 0, 0
  {
    hide Put, ValueWire, Varint;
    ghost var s0, k := s.S(), Wire(Key(f.tag, WireType(f.t)));
    r := EncodeTag(s, f.tag, WireType(f.t));
    if r.Some? {
      PutFails(s0, k, r, s.S(), ValueWire(f.t, v));
      return;
    }
    ghost var s1 := s.S();
    r := EncodeValue(s, f.t, v);
    PutThen(s0, k, s1, ValueWire(f.t, v), r, s.S());
  }

  /** encode_basic_field */
  method EncodeField(s: OStream, f: Field, vals: seq<Value>) returns (r: Option<Error>)
    requires s.Valid() && SlotTyped(f, vals)
    modifies s
    ensures s.Valid() && Put(old(s.S()), FieldWire(f, vals), r, s.S())
    decreases f, 1, 0
  {
    hide Put, SingleWire, ArrayWire;
    PutNothing(s.S());
    match f.rule
    case Repeated(max) => r := EncodeArray(s, f, max, vals);
    case FixedCount(n) => r := EncodeArray(s, f, n, vals);
    case Required => r := EncodeSingle(s, f, vals[0]);
    case Implicit =>
      var zero := CheckDefault(f.t, vals[0]);
      if zero {
        return None;
      }
      r := EncodeSingle(s, f, vals[0]);
    case Optional =>
      if vals == [] {
        return None;
      }
      r := EncodeSingle(s, f, vals[0]);
    case Oneof(_) =>
      if vals == [] {
        return None;
      }
      r := EncodeSingle(s, f, vals[0]);
  }

  /** pb_check_proto3_default_value on a field without a has_ flag. */
  method CheckDefault(t: Type, v: Value) returns (zero: bool)
    requires ValueTyped(t, v)
    ensures zero <==> IsZero(t, v)
    decreases t
  {
    match t
    case Bool => zero := !v.b;
    case Int(_) => zero := v.i == 0;
    case UInt(_) => zero := v.i == 0;
    case SInt(_) => zero := v.i == 0;
    case Fixed32 => zero := v.i == 0;
    case Fixed64 => zero := v.i == 0;
    case Bytes(_) => zero := v.bytes == [];
    case String(_) => zero := v.bytes == [] || v.bytes[0] == 0;
    case FixedLength(n) => zero := n == 0;
    case Sub(fields) =>
      assert MessageTyped(fields, v.slots);
      for i := 0 to |fields|
        invariant forall j :: 0 <= j < i ==> SlotIsZero(fields[j], v.slots[j])
      {
        var z := CheckSlot(fields[i], v.slots[i]);
        if !z {
          return false;
        }
      }
      zero := true;
  }

  method CheckSlot(f: Field, vals: seq<Value>) returns (zero: bool)
    requires SlotTyped(f, vals)
    ensures zero <==> SlotIsZero(f, vals)
    decreases f
  {
    match f.rule
    case Required => zero := false;
    case FixedCount(_) => zero := false;
    case Repeated(_) => zero := vals == [];
    case Oneof(_) => zero := vals == [];
    case Optional => zero := vals == [];
    case Implicit => zero := CheckDefault(f.t, vals[0]);
  }

  /** pb_encode: the fields in order. */
  method Encode(s: OStream, fields: seq<Field>, slots: seq<seq<Value>>) returns (r: Option<Error>)
    requires s.Valid() && MessageTyped(fields, slots)
    modifies s
    ensures s.Valid() && Put(old(s.S()), MessageWire(fields, slots), r, s.S())
    decreases fields, 0, 0
  {
    hide Put, FieldWire, SlotTyped;
    ghost var s0 := s.S();
    PutNothing(s0);
    for i := 0 to |fields|
      invariant s.Valid() && Put(s0, MessageWire(fields[..i], slots[..i]), None, s.S())
    {
      ghost var w, s1 := MessageWire(fields[..i], slots[..i]), s.S();
      assert fields[..i + 1][..i] == fields[..i] && slots[..i + 1][..i] == slots[..i];
      r := EncodeField(s, fields[i], slots[i]);
      PutThen(s0, w, s1, FieldWire(fields[i], slots[i]), r, s.S());
      if r.Some? {
        FieldsFail(s0, fields, slots, i + 1, r, s.S());
        return;
      }
    }
    assert fields[..|fields|] == fields && slots[..|fields|] == slots;
    r := None;
  }

  lemma {:induction false} FieldsFail(s: Snap, fields: seq<Field>, slots: seq<seq<Value>>, n: nat, r: Option<Error>, s1: Snap)
    requires n <= |fields| && MessageTyped(fields, slots) && r.Some?
    requires Put(s, MessageWire(fields[..n], slots[..n]), r, s1)
    ensures Put(s, MessageWire(fields, slots), r, s1)
    decreases |fields| - n
  {
    hide Put, FieldWire, SlotTyped;
    if n == |fields| {
      assert fields[..n] == fields && slots[..n] == slots;
    } else {
      assert fields[..n + 1][..n] == fields[..n] && slots[..n + 1][..n] == slots[..n];
      PutFails(s, MessageWire(fields[..n], slots[..n]), r, s1, FieldWire(fields[n], slots[n]));
      FieldsFail(s, fields, slots, n + 1, r, s1);
    }
  }

  // ----- sizing and writing agree -----

  /** pb_get_encoded_size */
  method GetEncodedSize(fields: seq<Field>, slots: seq<seq<Value>>) returns (r: Option<Error>, size: nat)
    requires MessageTyped(fields, slots)
    ensures r.None? ==> MessageWire(fields, slots).Wire? && size == |MessageWire(fields, slots).bytes|
    ensures r.Some? ==> MessageWire(fields, slots).Fails? && r == Some(Bad(MessageWire(fields, slots).fault))
  {
    hide MessageWire;
    var s := new OStream(true, 0, [], 0);
    r := Encode(s, fields, slots);
    size := s.written;
  }

  /**
  Encoding into a buffer. It succeeds exactly when the message is well formed and its computed
  size fits, it writes exactly that many bytes, and the size of a nested message never changes
  between its two passes.
  */
  method EncodeToBuffer(fields: seq<Field>, slots: seq<seq<Value>>, bufferSize: nat) returns (r: Option<Error>, out: seq<Byte>)
    requires MessageTyped(fields, slots)
    ensures r.None? <==> MessageWire(fields, slots).Wire? && |MessageWire(fields, slots).bytes| <= bufferSize
    ensures r.None? ==> out == MessageWire(fields, slots).bytes
    ensures r != Some(SizeChanged) && r != Some(IoError)
  {
    hide MessageWire;
    var s := new OStream(false, bufferSize, [], bufferSize);
    r := Encode(s, fields, slots);
    out := s.out;
    assert r.None? ==> [] + MessageWire(fields, slots).bytes == MessageWire(fields, slots).bytes;
  }
}
