/** pb_decode.c for static fields: streams as the bytes left, destinations as values. */
module ProtoDecode {
  import opened Common
  import opened Crc
  import opened Coding
  import opened Proto

  // ----- 32-bit varints -----

  /**
  pb_decode_varint32 after its first n digits, which make up `result`. Past 32 bits only a
  zero digit, or the sign extension of a negative number, is accepted.
  */
  function More32(input: seq<Byte>, n: nat, result: nat): (r: Option<(nat, seq<Byte>)>)
    ensures r.Some? ==> |r.value.1| < |input|
    decreases input
  {
    if input == [] then None
    else
      var b, rest := input[0], input[1..];
      if n >= 5 then
        if b % 128 != 0 && (result < TWO32 / 2 || b != (if n < 9 then 255 else 1)) then None
        else if b >= 128 then More32(rest, n + 1, result)
        else Some((result % TWO32, rest))
      else
        var next := (result + b % 128 * Pow128(n)) % TWO32;
        if b >= 128 then More32(rest, n + 1, next)
        else if n == 4 && b / 16 % 8 != 0 then None
        else Some((next, rest))
  }

  function Dec32(input: seq<Byte>): (r: Option<(nat, seq<Byte>)>)
    ensures r.Some? ==> |r.value.1| < |input|
  {
    if input == [] then None
    else if input[0] < 128 then Some((input[0], input[1..]))
    else More32(input[1..], 1, input[0] - 128)
  }

  lemma PowerOf(n: nat)
    requires n <= 4
    ensures Pow128(n) == [1, 0x80, 0x4000, 0x20_0000, 0x1000_0000][n]
  {
    assert Pow128(1) == 128;
    assert Pow128(2) == 0x4000;
    assert Pow128(3) == 0x20_0000;
  }

  lemma SplitDigit(v: nat, w: nat)
    ensures v * w == v % 128 * w + v / 128 * (128 * w)
  {
    assert v == v % 128 + 128 * (v / 128);
    Distribute(v % 128, v / 128, w);
  }

  lemma Distribute(a: nat, b: nat, w: nat)
    ensures (a + 128 * b) * w == a * w + b * (128 * w)
  {
  }

  lemma Grows(a: nat, b: nat, w: nat)
    requires a <= b
    ensures a * w <= b * w
  {
  }

  /** Reading one more digit. */
  lemma ReadDigit(s: seq<Byte>, n: nat, result: nat)
    requires 1 <= n <= 4 && s != [] && result + s[0] % 128 * Pow128(n) < TWO32
    ensures s[0] >= 128 ==> More32(s, n, result) == More32(s[1..], n + 1, result + s[0] % 128 * Pow128(n))
    ensures s[0] < 128 && (n == 4 ==> s[0] < 16) ==> More32(s, n, result) == Some((result + s[0] * Pow128(n), s[1..]))
  {
    hide Pow128;
    var d: nat := s[0] % 128 * Pow128(n);
    NoWrap(result + d);
    assert s[0] < 128 ==> d == s[0] * Pow128(n);
  }

  lemma NoWrap(x: nat)
    requires x < TWO32
    ensures x % TWO32 == x
  {
  }

  lemma {:induction false} More32RoundTrip(v: nat, n: nat, result: nat, rest: seq<Byte>)
    requires 1 <= n <= 4 && result + v * Pow128(n) < TWO32
    ensures More32(Varint(v) + rest, n, result) == Some((result + v * Pow128(n), rest))
    decreases v
  {
    hide More32, Pow128;
    PowerOf(n);
    var s, w := Varint(v) + rest, Pow128(n);
    SplitDigit(v, w);
    if v < 128 {
      assert s[1..] == rest;
      ReadDigit(s, n, result);
    } else {
      Grows(128, v, w);
      assert n < 4;
      PowerOf(n + 1);
      assert s[1..] == Varint(v / 128) + rest && s[0] == v % 128 + 128;
      ReadDigit(s, n, result);
      More32RoundTrip(v / 128, n + 1, result + v % 128 * w, rest);
    }
  }

  lemma Dec32RoundTrip(v: nat, rest: seq<Byte>)
    requires v < TWO32
    ensures Dec32(Varint(v) + rest) == Some((v, rest))
  {
    var s := Varint(v) + rest;
    if v < 128 {
      assert s[1..] == rest;
    } else {
      PowerOf(1);
      assert s[1..] == Varint(v / 128) + rest;
      More32RoundTrip(v / 128, 1, v % 128, rest);
    }
  }

  // ----- values -----

  /** (int32_t) and (int64_t) of an unsigned value. */
  function Signed(v: nat, bits: nat): int
    requires bits > 0
  {
    if v % bits < bits / 2 then v % bits else v % bits - bits
  }

  function InWidth(i: int, w: Width): Option<Value> {
    if -(Bits(w) / 2) <= i < Bits(w) / 2 then Some(VInt(i)) else None
  }

  function Zeros(n: nat): (z: seq<Byte>)
    ensures |z| == n
  {
    seq(n, _ => 0)
  }

  /** pb_message_set_to_defaults, with zero for every default. */
  function Default(t: Type): Value
    decreases t
  {
    match t
    case Bool => VBool(false)
    case Int(_) => VInt(0)
    case UInt(_) => VInt(0)
    case SInt(_) => VInt(0)
    case Fixed32 => VInt(0)
    case Fixed64 => VInt(0)
    case Bytes(_) => VBytes([])
    case String(_) => VBytes([])
    case FixedLength(n) => VBytes(Zeros(n))
    case Sub(fields) => VMsg(Defaults(fields))
  }

  function DefaultSlot(f: Field): seq<Value>
    decreases f
  {
    match f.rule
    case Required => [Default(f.t)]
    case Implicit => [Default(f.t)]
    case FixedCount(n) => var d := Default(f.t); seq(n, _ => d)
    case _ => []
  }

  function Defaults(fields: seq<Field>): (r: seq<seq<Value>>)
    ensures |r| == |fields|
    decreases fields
  {
    if fields == [] then [] else Defaults(fields[..|fields| - 1]) + [DefaultSlot(fields[|fields| - 1])]
  }

  /** A length and that many bytes. */
  function GetDelimited(input: seq<Byte>): (r: Option<(seq<Byte>, seq<Byte>)>)
    ensures r.Some? ==> |r.value.0| < |input| && |r.value.1| < |input|
  {
    match Dec32(input)
    case None => None
    case Some((n, rest)) => if n > |rest| then None else Some((rest[..n], rest[n..]))
  }

  /** One value that is not a message. */
  function GetScalar(t: Type, input: seq<Byte>): (r: Option<(Value, seq<Byte>)>)
    ensures r.Some? ==> |r.value.1| < |input|
  {
    match t
    case Bool => (match Dec32(input) case None => None case Some((v, rest)) => Some((VBool(v != 0), rest)))
    case Int(w) =>
      (match Varint64(input)
       case None => None
       case Some((v, rest)) =>
         match InWidth(Signed(v, if w.W64? then TWO64 else TWO32), w)
         case None => None
         case Some(x) => Some((x, rest)))
    case UInt(w) => (match Varint64(input) case None => None case Some((v, rest)) => if v < Bits(w) then Some((VInt(v), rest)) else None)
    case SInt(w) =>
      (match Varint64(input)
       case None => None
       case Some((v, rest)) =>
         match InWidth(if v % 2 == 1 then -(v / 2) - 1 else v / 2, w)
         case None => None
         case Some(x) => Some((x, rest)))
    case Fixed32 => if |input| < 4 then None else Some((VInt(FixedValue(input[..4])), input[4..]))
    case Fixed64 => if |input| < 8 then None else Some((VInt(Fixed64Value(input[..8])), input[8..]))
    case Bytes(max) => (match GetDelimited(input) case None => None case Some((b, rest)) => if |b| > max then None else Some((VBytes(b), rest)))
    case String(size) => (match GetDelimited(input) case None => None case Some((b, rest)) => if |b| + 1 > size then None else Some((VBytes(b), rest)))
    case FixedLength(n) =>
      (match GetDelimited(input)
       case None => None
       case Some((b, rest)) => if b == [] then Some((VBytes(Zeros(n)), rest)) else if |b| != n then None else Some((VBytes(b), rest)))
    case Sub(_) => None
  }

  lemma UnsignedIs(i: int)
    requires -(TWO64 / 2) <= i < TWO64 / 2
    ensures Unsigned(i) == if i >= 0 then i else i + TWO64
  {
  }

  lemma LowBits(i: int)
    requires -(TWO32 / 2) <= i < TWO32 / 2
    ensures i % TWO32 == (if i >= 0 then i else i + TWO32) && (i + TWO32 * TWO32) % TWO32 == i % TWO32
  {
    Wraps(i, TWO32);
  }

  lemma Wraps(i: int, k: int)
    ensures (i + TWO32 * k) % TWO32 == i % TWO32
  {
  }

  lemma SignedUnsigned(i: int, w: Width)
    requires -(Bits(w) / 2) <= i < Bits(w) / 2
    ensures Unsigned(i) < TWO64 && Signed(Unsigned(i), if w.W64? then TWO64 else TWO32) == i
  {
    hide Unsigned;
    UnsignedIs(i);
    if !w.W64? {
      LowBits(i);
    } else {
      var u := Unsigned(i);
      assert u % TWO64 == u;
    }
  }

  // ----- what the struct can hold and the format can carry -----

  /** Strings are terminated inside their array, lengths are below 2^32. */
  ghost predicate ValueFits(t: Type, v: Value)
    requires ValueTyped(t, v)
    decreases t
  {
    match t
    case Bytes(max) => |v.bytes| <= max && |v.bytes| < TWO32
    case String(size) => |v.bytes| < size && |v.bytes| < TWO32 && CString(v.bytes, size) == v.bytes
    case FixedLength(n) => n < TWO32
    case Sub(fields) =>
      assert MessageTyped(fields, v.slots);
      MessageFits(fields, v.slots)
    case _ => true
  }

  ghost predicate SlotFits(f: Field, vals: seq<Value>)
    requires SlotTyped(f, vals)
    decreases f
  {
    && (f.rule.Repeated? ==> |vals| <= f.rule.max)
    && forall i :: 0 <= i < |vals| ==> ValueFits(f.t, vals[i])
  }

  /** Tags are distinct, not zero, and fit a 32-bit key; the encoding is shorter than 2^32. */
  ghost predicate MessageFits(fields: seq<Field>, slots: seq<seq<Value>>)
    requires MessageTyped(fields, slots)
    decreases fields
  {
    && (forall i :: 0 <= i < |fields| ==> SlotFits(fields[i], slots[i]))
    && TagsOk(fields)
    && (MessageWire(fields, slots).Wire? ==> |MessageWire(fields, slots).bytes| < TWO32)
  }

  predicate TagsOk(fields: seq<Field>) {
    && (forall i :: 0 <= i < |fields| ==> 0 < fields[i].tag && fields[i].tag * 8 + 7 < TWO32)
    && (forall i, j :: 0 <= i < j < |fields| ==> fields[i].tag != fields[j].tag)
  }

  lemma DelimitedRoundTrip(b: seq<Byte>, rest: seq<Byte>)
    requires |b| < TWO32
    ensures GetDelimited(Delimited(b) + rest) == Some((b, rest))
  {
    hide Varint, Dec32;
    assert Delimited(b) + rest == Varint(|b|) + (b + rest);
    Dec32RoundTrip(|b|, b + rest);
    assert (b + rest)[..|b|] == b && (b + rest)[|b|..] == rest;
  }

  lemma ZigzagRoundTrip(i: int, w: Width)
    requires -(Bits(w) / 2) <= i < Bits(w) / 2
    ensures Zigzag(i) < TWO64 && (if Zigzag(i) % 2 == 1 then -(Zigzag(i) / 2) - 1 else Zigzag(i) / 2) == i
  {
  }

  lemma ScalarRoundTrip(t: Type, v: Value, rest: seq<Byte>)
    requires !t.Sub? && ValueTyped(t, v) && ValueFits(t, v)
    ensures ValueWire(t, v).Wire? && GetScalar(t, ValueWire(t, v).bytes + rest) == Some((v, rest))
  {
    hide Varint, Dec32, Varint64, GetDelimited, Delimited, FixedBytes, Coding.Fixed64, FixedValue, Fixed64Value, Signed, Zigzag, Unsigned;
    match t
    case Bool => Dec32RoundTrip(if v.b then 1 else 0, rest);
    case Int(w) =>
      SignedUnsigned(v.i, w);
      Varint64RoundTrip(Unsigned(v.i), rest);
    case UInt(w) => Varint64RoundTrip(v.i, rest);
    case SInt(w) =>
      ZigzagRoundTrip(v.i, w);
      Varint64RoundTrip(Zigzag(v.i), rest);
    case Fixed32 =>
      FixedBytesRoundTrip(v.i);
      var b := FixedBytes(v.i);
      assert (b + rest)[..4] == b && (b + rest)[4..] == rest;
    case Fixed64 =>
      Fixed64RoundTrip(v.i);
      var b := Coding.Fixed64(v.i);
      assert (b + rest)[..8] == b && (b + rest)[8..] == rest;
    case Bytes(_) => DelimitedRoundTrip(v.bytes, rest);
    case String(_) => DelimitedRoundTrip(v.bytes, rest);
    case FixedLength(n) =>
      DelimitedRoundTrip(v.bytes, rest);
      assert n == 0 ==> v.bytes == Zeros(n);
  }

  // ----- messages -----

  /** Decoding in progress: the struct, the fixed-count array being filled, and the required fields seen. */
  datatype State = State(slots: seq<seq<Value>>, fixed: Option<(nat, nat)>, seen: set<nat>)

  const MAX_REQUIRED: nat := 64

  /** pb_field_iter_find: the field with this tag, or the number of fields. */
  function FindField(fields: seq<Field>, tag: nat): (i: nat)
    ensures i <= |fields| && (i < |fields| ==> fields[i].tag == tag)
    ensures forall j :: 0 <= j < i ==> fields[j].tag != tag
  {
    if fields == [] || fields[0].tag == tag then 0 else 1 + FindField(fields[1..], tag)
  }

  /** pb_skip_field */
  function SkipField(wire: nat, input: seq<Byte>): (r: Option<seq<Byte>>)
    ensures r.Some? ==> |r.value| <= |input|
  {
    if wire == 0 then (match SkipVarint(input) case None => None case Some(rest) => Some(rest))
    else if wire == 1 then if |input| < 8 then None else Some(input[8..])
    else if wire == 2 then (match GetDelimited(input) case None => None case Some((_, rest)) => Some(rest))
    else if wire == 5 then if |input| < 4 then None else Some(input[4..])
    else None
  }

  function SkipVarint(input: seq<Byte>): (r: Option<seq<Byte>>)
    ensures r.Some? ==> |r.value| <= |input|
  {
    if input == [] then None else if input[0] < 128 then Some(input[1..]) else SkipVarint(input[1..])
  }

  /** The values of a packed array, at most `room` of them. */
  function GetPacked(t: Type, input: seq<Byte>, room: nat): Option<seq<Value>>
    decreases |input|
  {
    if input == [] then Some([])
    else if room == 0 then None
    else
      match GetScalar(t, input)
      case None => None
      case Some((v, rest)) =>
        match GetPacked(t, rest, room - 1)
        case None => None
        case Some(vs) => Some([v] + vs)
  }

  /** Entries written into an array from index `count` on. */
  function Store(rule: Rule, slot: seq<Value>, count: nat, vs: seq<Value>): seq<Value> {
    if rule.FixedCount? && count + |vs| <= |slot| then slot[..count] + vs + slot[count + |vs|..] else slot + vs
  }

  /** Entries already in the array of field i. */
  function CountOf(f: Field, i: nat, slot: seq<Value>, st: State): nat {
    if f.rule.FixedCount? then (if st.fixed.Some? && st.fixed.value.0 == i then st.fixed.value.1 else 0) else |slot|
  }

  /** The fixed-count array being left must be complete. */
  predicate FixedDone(fields: seq<Field>, st: State) {
    st.fixed.Some? && st.fixed.value.0 < |fields| && fields[st.fixed.value.0].rule.FixedCount? ==>
      st.fixed.value.1 == fields[st.fixed.value.0].rule.n
  }

  function RequiredBefore(fields: seq<Field>, i: nat): nat
    requires i <= |fields|
  {
    if i == 0 then 0 else RequiredBefore(fields, i - 1) + if fields[i - 1].rule.Required? then 1 else 0
  }

  /** At the end: the last fixed-count array is complete and the first 64 required fields were there. */
  function Finish(fields: seq<Field>, st: State): Option<State> {
    if FixedDone(fields, st) &&
       forall i :: 0 <= i < |fields| && fields[i].rule.Required? && RequiredBefore(fields, i) < MAX_REQUIRED ==> i in st.seen
    then Some(st) else None
  }

  /** Setting one member of a union clears the others. */
  function ClearUnion(fields: seq<Field>, i: nat, slots: seq<seq<Value>>): (r: seq<seq<Value>>)
    requires i < |fields| == |slots|
    ensures |r| == |slots|
  {
    seq(|slots|, j requires 0 <= j < |slots| => if j != i && SameUnion(fields[i].rule, fields[j].rule) then [] else slots[j])
  }

  function GetValue(t: Type, input: seq<Byte>, into: Value): (r: Option<(Value, seq<Byte>)>)
    ensures r.Some? ==> |r.value.1| < |input|
    decreases |input|, 0
  {
    if !t.Sub? then GetScalar(t, input)
    else
      match GetDelimited(input)
      case None => None
      case Some((inner, rest)) =>
        var slots := if into.VMsg? && |into.slots| == |t.fields| then into.slots else Defaults(t.fields);
        match GetFields(t.fields, inner, State(slots, None, {}))
        case None => None
        case Some(st) => Some((VMsg(st.slots), rest))
  }

  /** decode_static_field */
  function GetField(fields: seq<Field>, i: nat, wire: nat, input: seq<Byte>, st: State): (r: Option<(State, seq<Byte>)>)
    requires i < |fields| == |st.slots|
    ensures r.Some? ==> |r.value.1| < |input| && |r.value.0.slots| == |fields|
    decreases |input|, 1
  {
    var f, slot := fields[i], st.slots[i];
    if f.rule.Repeated? || f.rule.FixedCount? then
      var max := if f.rule.Repeated? then f.rule.max else f.rule.n;
      var count := CountOf(f, i, slot, st);
      if f.rule.FixedCount? && !(st.fixed.Some? && st.fixed.value.0 == i) && !FixedDone(fields, st) then None
      else if wire == 2 && Packable(f.t) then
        match GetDelimited(input)
        case None => None
        case Some((inner, rest)) =>
          match GetPacked(f.t, inner, if count < max then max - count else 0)
          case None => None
          case Some(vs) => Some((Stored(f, i, count, vs, st), rest))
      else if count >= max then None
      else
        match GetValue(f.t, input, Default(f.t))
        case None => None
        case Some((v, rest)) => Some((Stored(f, i, count, [v], st), rest))
    else
      match GetValue(f.t, input, if slot == [] then Default(f.t) else slot[0])
      case None => None
      case Some((v, rest)) =>
        Some((st.(slots := ClearUnion(fields, i, st.slots)[i := [v]], seen := if f.rule.Required? then st.seen + {i} else st.seen), rest))
  }

  function Stored(f: Field, i: nat, count: nat, vs: seq<Value>, st: State): (r: State)
    requires i < |st.slots|
    ensures |r.slots| == |st.slots|
  {
    st.(slots := st.slots[i := Store(f.rule, st.slots[i], count, vs)],
        fixed := if f.rule.FixedCount? then Some((i, count + |vs|)) else st.fixed)
  }

  /** pb_decode_noinit: records until the bytes or a zero key end. */
  function GetFields(fields: seq<Field>, input: seq<Byte>, st: State): Option<State>
    requires |st.slots| == |fields|
    decreases |input|, 2
  {
    if input == [] then Finish(fields, st)
    else
      match Dec32(input)
      case None => None
      case Some((key, body)) =>
        if key == 0 then Finish(fields, st)
        else
          var i := FindField(fields, key / 8);
          if i == |fields| then
            match SkipField(key % 8, body)
            case None => None
            case Some(rest) => GetFields(fields, rest, st)
          else
            match GetField(fields, i, key % 8, body, st)
            case None => None
            case Some((st', rest)) => GetFields(fields, rest, st')
  }

  /** pb_decode */
  function Decode(fields: seq<Field>, input: seq<Byte>): Option<seq<seq<Value>>> {
    match GetFields(fields, input, State(Defaults(fields), None, {}))
    case None => None
    case Some(st) => Some(st.slots)
  }

  /** pb_decode_varint32 with its loop. */
  method DecodeVarint32(input: seq<Byte>) returns (r: Option<(nat, seq<Byte>)>)
    ensures r == Dec32(input)
  {
    hide Pow128;
    if input == [] {
      return None;
    }
    var b, rest := input[0], input[1..];
    if b < 128 {
      return Some((b, rest));
    }
    var result: nat, n: nat := b - 128, 1;
    while true
      invariant n >= 1 && Dec32(input) == More32(rest, n, result)
      decreases rest
    {
      if rest == [] {
        return None;
      }
      b := rest[0];
      if n >= 5 {
        if b % 128 != 0 && (result < TWO32 / 2 || b != (if n < 9 then 255 else 1)) {
          return None;
        }
      } else {
        result := (result + b % 128 * Pow128(n)) % TWO32;
      }
      if b < 128 {
        if n == 4 && b / 16 % 8 != 0 {
          return None;
        }
        return Some((if n >= 5 then result % TWO32 else result, rest[1..]));
      }
      n, rest := n + 1, rest[1..];
    }
  }

  /** The loop of pb_decode_noinit. */
  method DecodeNoInit(fields: seq<Field>, input: seq<Byte>, start: State) returns (r: Option<State>)
    requires |start.slots| == |fields|
    ensures r == GetFields(fields, input, start)
  {
    hide Dec32, GetField, SkipField, FindField;
    var rest, st := input, start;
    while rest != []
      invariant |st.slots| == |fields| && GetFields(fields, rest, st) == GetFields(fields, input, start)
      decreases |rest|
    {
      var key := Dec32(rest);
      if key.None? {
        return None;
      }
      if key.value.0 == 0 {
        break;
      }
      var i := FindField(fields, key.value.0 / 8);
      if i == |fields| {
        var skipped := SkipField(key.value.0 % 8, key.value.1);
        if skipped.None? {
          return None;
        }
        rest := skipped.value;
      } else {
        var next := GetField(fields, i, key.value.0 % 8, key.value.1, st);
        if next.None? {
          return None;
        }
        st, rest := next.value.0, next.value.1;
      }
    }
    r := Finish(fields, st);
  }
}
