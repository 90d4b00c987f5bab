/**
The second library, Pods/nanopb: message descriptors, messages, and the wire format of the
Protocol Buffers "Encoding" specification as a function of both.
*/
module Proto {
  import opened Crc
  import opened Coding

  /** Bits of an integer field. */
  datatype Width = W8 | W16 | W32 | W64

  datatype Type =
    | Bool | Int(width: Width) | UInt(width: Width) | SInt(width: Width) | Fixed32 | Fixed64
    | Bytes(max: nat) | String(size: nat) | FixedLength(length: nat) | Sub(fields: seq<Field>)

  /** How often a field occurs: `Optional` has a has_ flag, `Implicit` is a proto3 field without one. */
  datatype Rule = Required | Optional | Implicit | Repeated(max: nat) | FixedCount(n: nat) | Oneof(group: nat)

  datatype Field = Field(tag: nat, t: Type, rule: Rule)

  /** What the generated struct holds for one field, present entries only. */
  datatype Value = VBool(b: bool) | VInt(i: int) | VBytes(bytes: seq<Byte>) | VMsg(slots: seq<seq<Value>>)

  // ----- messages of a type -----

  function Bits(w: Width): nat {
    match w
    case W8 => 0x100 case W16 => 0x1_0000 case W32 => TWO32 case W64 => TWO64
  }

  /** The value has the C type of the field. */
  ghost predicate ValueTyped(t: Type, v: Value)
    decreases t
  {
    match t
    case Bool => v.VBool?
    case Int(w) => v.VInt? && -(Bits(w) / 2) <= v.i < Bits(w) / 2
    case SInt(w) => v.VInt? && -(Bits(w) / 2) <= v.i < Bits(w) / 2
    case UInt(w) => v.VInt? && 0 <= v.i < Bits(w)
    case Fixed32 => v.VInt? && 0 <= v.i < TWO32
    case Fixed64 => v.VInt? && 0 <= v.i < TWO64
    case Bytes(_) => v.VBytes?
    case String(_) => v.VBytes?
    case FixedLength(n) => v.VBytes? && |v.bytes| == n
    case Sub(fields) => v.VMsg? && MessageTyped(fields, v.slots)
  }

  ghost predicate SlotTyped(f: Field, vals: seq<Value>)
    decreases f
  {
    && (forall i :: 0 <= i < |vals| ==> ValueTyped(f.t, vals[i]))
    && match f.rule
       case Required => |vals| == 1
       case Implicit => |vals| == 1
       case Optional => |vals| <= 1
       case Oneof(_) => |vals| <= 1
       case FixedCount(n) => |vals| == n
       case Repeated(_) => true
  }

  /** Members of one union. */
  predicate SameUnion(a: Rule, b: Rule) {
    a.Oneof? && b.Oneof? && a.group == b.group
  }

  ghost predicate MessageTyped(fields: seq<Field>, slots: seq<seq<Value>>)
    decreases fields
  {
    && |fields| == |slots|
    && (forall i :: 0 <= i < |fields| ==> SlotTyped(fields[i], slots[i]))
    && (forall i, j :: 0 <= i < j < |fields| && SameUnion(fields[i].rule, fields[j].rule) ==> slots[i] == [] || slots[j] == [])
  }

  // ----- the wire format -----

  /** What can be wrong with a message: an array or a bytes field longer than its struct allows. */
  datatype Fault = ArraySize | BytesSize

  datatype Wire = Wire(bytes: seq<Byte>) | Fails(fault: Fault)

  function Join(a: Wire, b: Wire): Wire {
    if a.Fails? then a else if b.Fails? then b else Wire(a.bytes + b.bytes)
  }

  function Zigzag(i: int): nat {
    if i < 0 then -2 * i - 1 else 2 * i
  }

  /** (uint64_t)value */
  function Unsigned(i: int): nat {
    i % TWO64
  }

  /** strnlen: the bytes before the first zero, at most `max`. */
  function CString(b: seq<Byte>, max: nat): seq<Byte> {
    if b == [] || max == 0 || b[0] == 0 then [] else [b[0]] + CString(b[1..], max - 1)
  }

  function Delimited(b: seq<Byte>): seq<Byte> {
    Varint(|b|) + b
  }

  function Packable(t: Type): bool {
    t.Bool? || t.Int? || t.UInt? || t.SInt? || t.Fixed32? || t.Fixed64?
  }

  function WireType(t: Type): nat {
    match t
    case Fixed32 => 5
    case Fixed64 => 1
    case Bytes(_) => 2
    case String(_) => 2
    case FixedLength(_) => 2
    case Sub(_) => 2
    case _ => 0
  }

  function Key(tag: nat, wireType: nat): seq<Byte> {
    Varint(tag * 8 + wireType)
  }

  /** Whether a field without a has_ flag holds its zero value. */
  ghost predicate IsZero(t: Type, v: Value)
    requires ValueTyped(t, v)
    decreases t
  {
    match t
    case Bool => !v.b
    case Int(_) => v.i == 0
    case UInt(_) => v.i == 0
    case SInt(_) => v.i == 0
    case Fixed32 => v.i == 0
    case Fixed64 => v.i == 0
    case Bytes(_) => v.bytes == []
    case String(_) => v.bytes == [] || v.bytes[0] == 0
    case FixedLength(n) => n == 0
    case Sub(fields) =>
      assert MessageTyped(fields, v.slots);
      forall i :: 0 <= i < |fields| ==> SlotIsZero(fields[i], v.slots[i])
  }

  ghost predicate SlotIsZero(f: Field, vals: seq<Value>)
    requires SlotTyped(f, vals)
    decreases f
  {
    match f.rule
    case Required => false
    case FixedCount(_) => false
    case Repeated(_) => vals == []
    case Oneof(_) => vals == []
    case Optional => vals == []
    case Implicit => IsZero(f.t, vals[0])
  }

  /** One value, without its key. */
  ghost function ValueWire(t: Type, v: Value): Wire
    requires ValueTyped(t, v)
    decreases t, 0, 0
  {
    match t
    case Bool => Wire(Varint(if v.b then 1 else 0))
    case Int(_) => Wire(Varint(Unsigned(v.i)))
    case UInt(_) => Wire(Varint(v.i))
    case SInt(_) => Wire(Varint(Zigzag(v.i)))
    case Fixed32 => Wire(FixedBytes(v.i))
    case Fixed64 => Wire(Coding.Fixed64(v.i))
    case Bytes(max) => if |v.bytes| > max then Fails(BytesSize) else Wire(Delimited(v.bytes))
    case String(size) => Wire(Delimited(CString(v.bytes, size)))
    case FixedLength(_) => Wire(Delimited(v.bytes))
    case Sub(fields) =>
      var inner := MessageWire(fields, v.slots);
      if inner.Fails? then inner else Wire(Delimited(inner.bytes))
  }

  /** Values end to end, each behind `key`. */
  ghost function ValuesWire(t: Type, key: seq<Byte>, vals: seq<Value>): Wire
    requires forall i :: 0 <= i < |vals| ==> ValueTyped(t, vals[i])
    decreases t, 1, |vals|
  {
    if vals == [] then Wire([])
    else Join(ValuesWire(t, key, vals[..|vals| - 1]), Join(Wire(key), ValueWire(t, vals[|vals| - 1])))
  }

  ghost function ArrayWire(f: Field, max: nat, vals: seq<Value>): Wire
    requires forall i :: 0 <= i < |vals| ==> ValueTyped(f.t, vals[i])
    decreases f, 0, 0
  {
    if vals == [] then Wire([])
    else if |vals| > max then Fails(ArraySize)
    else if Packable(f.t) then
      var data := ValuesWire(f.t, [], vals);
      if data.Fails? then data else Wire(Key(f.tag, 2) + Delimited(data.bytes))
    else ValuesWire(f.t, Key(f.tag, WireType(f.t)), vals)
  }

  ghost function SingleWire(f: Field, v: Value): Wire
    requires ValueTyped(f.t, v)
    decreases f, 0, 0
  {
    Join(Wire(Key(f.tag, WireType(f.t))), ValueWire(f.t, v))
  }

  /** One field: nothing when it is absent. */
  ghost function FieldWire(f: Field, vals: seq<Value>): Wire
    requires SlotTyped(f, vals)
    decreases f, 1, 0
  {
    match f.rule
    case Repeated(max) => ArrayWire(f, max, vals)
    case FixedCount(n) => ArrayWire(f, n, vals)
    case Implicit => if IsZero(f.t, vals[0]) then Wire([]) else SingleWire(f, vals[0])
    case Required => SingleWire(f, vals[0])
    case _ => if vals == [] then Wire([]) else SingleWire(f, vals[0])
  }

  ghost function MessageWire(fields: seq<Field>, slots: seq<seq<Value>>): Wire
    requires MessageTyped(fields, slots)
    decreases fields, 0, 0
  {
    if fields == [] then Wire([])
    else
      var n := |fields| - 1;
      Join(MessageWire(fields[..n], slots[..n]), FieldWire(fields[n], slots[n]))
  }
}
