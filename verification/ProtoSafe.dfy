/**
Whatever bytes arrive, the decoder never writes past the struct: integers stay in their C
types, strings and arrays within their bounds, and at most one member of a union is set.
*/
module ProtoSafe {
  import opened Common
  import opened Crc
  import opened Coding
  import opened Proto
  import opened ProtoDecode
  import R = ProtoRoundTrip

  /** The value has its C type and fits the space the struct has for it. */
  ghost predicate Within(t: Type, v: Value)
    decreases t
  {
    match t
    case Bool => v.VBool?
    case Int(w) => v.VInt? && -(Bits(w) / 2) <= v.i < Bits(w) / 2
    case SInt(w) => v.VInt? && -(Bits(w) / 2) <= v.i < Bits(w) / 2
    case UInt(w) => v.VInt? && 0 <= v.i < Bits(w)
    case Fixed32 => v.VInt? && 0 <= v.i < TWO32
    case Fixed64 => v.VInt? && 0 <= v.i < TWO64
    case Bytes(max) => v.VBytes? && |v.bytes| <= max
    case String(size) => v.VBytes? && (v.bytes == [] || |v.bytes| < size)
    case FixedLength(n) => v.VBytes? && |v.bytes| == n
    case Sub(fields) => v.VMsg? && SlotsWithin(fields, v.slots)
  }

  ghost predicate SlotWithin(f: Field, vals: seq<Value>)
    decreases f
  {
    && (forall i :: 0 <= i < |vals| ==> Within(f.t, vals[i]))
    && match f.rule
       case Required => |vals| == 1
       case Implicit => |vals| == 1
       case Optional => |vals| <= 1
       case Oneof(_) => |vals| <= 1
       case FixedCount(n) => |vals| == n
       case Repeated(max) => |vals| <= max
  }

  ghost predicate SlotsWithin(fields: seq<Field>, slots: seq<seq<Value>>)
    decreases fields
  {
    && |fields| == |slots|
    && (forall i :: 0 <= i < |fields| ==> SlotWithin(fields[i], slots[i]))
    && OneOfEach(fields, slots)
  }

  /** At most one member of each union is set. */
  predicate OneOfEach(fields: seq<Field>, slots: seq<seq<Value>>)
    requires |fields| == |slots|
  {
    forall i, j :: 0 <= i < |fields| && 0 <= j < |fields| && i != j && SameUnion(fields[i].rule, fields[j].rule) ==>
      slots[i] == [] || slots[j] == []
  }

  // ----- values -----

  lemma Fixed64Within(s: seq<Byte>)
    requires |s| == 8
    ensures Fixed64Value(s) < TWO64
  {
    hide FixedValue;
    var lo, hi := FixedValue(s[..4]), FixedValue(s[4..]);
    assert lo < TWO32 && hi < TWO32;
    assert TWO32 * hi <= TWO32 * (TWO32 - 1);
  }

  lemma ScalarWithin(t: Type, input: seq<Byte>)
    ensures GetScalar(t, input).Some? ==> Within(t, GetScalar(t, input).value.0)
  {
    hide Dec32, Varint64, GetDelimited, FixedValue, Fixed64Value, Signed;
    if t.Fixed64? && |input| >= 8 {
      Fixed64Within(input[..8]);
    }
  }

  lemma {:induction false} DefaultWithin(t: Type)
    ensures Within(t, Default(t))
    decreases t, 0
  {
    if t.Sub? {
      DefaultsWithin(t.fields);
    }
  }

  lemma DefaultSlotWithin(f: Field)
    ensures SlotWithin(f, DefaultSlot(f))
    decreases f, 1
  {
    DefaultWithin(f.t);
  }

  lemma DefaultsWithin(fields: seq<Field>)
    ensures SlotsWithin(fields, Defaults(fields))
    decreases fields, 2
  {
    hide Defaults, DefaultSlot, SlotWithin;
    forall i | 0 <= i < |fields| ensures Defaults(fields)[i] == DefaultSlot(fields[i]) && SlotWithin(fields[i], DefaultSlot(fields[i])) {
      R.DefaultsAt(fields, i);
      DefaultSlotWithin(fields[i]);
    }
    forall i | 0 <= i < |fields| && fields[i].rule.Oneof? ensures Defaults(fields)[i] == [] {
      OneofDefault(fields[i]);
    }
  }

  lemma OneofDefault(f: Field)
    requires f.rule.Oneof?
    ensures DefaultSlot(f) == []
  {
  }

  lemma {:induction false} PackedWithin(t: Type, input: seq<Byte>, room: nat)
    ensures GetPacked(t, input, room).Some? ==>
              |GetPacked(t, input, room).value| <= room && forall i :: 0 <= i < |GetPacked(t, input, room).value| ==> Within(t, GetPacked(t, input, room).value[i])
    decreases |input|
  {
    hide GetScalar, Within;
    if input != [] && room > 0 {
      ScalarWithin(t, input);
      var r := GetScalar(t, input);
      if r.Some? {
        PackedWithin(t, r.value.1, room - 1);
      }
    }
  }

  // ----- the state of a decoder -----

  ghost predicate StateWithin(fields: seq<Field>, st: State) {
    && SlotsWithin(fields, st.slots)
    && (st.fixed.Some? && st.fixed.value.0 < |fields| && fields[st.fixed.value.0].rule.FixedCount? ==>
          st.fixed.value.1 <= fields[st.fixed.value.0].rule.n)
  }

  /** One slot replaced by another that fits; a union member only when its rivals are clear. */
  lemma SlotReplaced(fields: seq<Field>, slots: seq<seq<Value>>, i: nat, vals: seq<Value>)
    requires SlotsWithin(fields, slots) && i < |fields| && SlotWithin(fields[i], vals)
    requires !fields[i].rule.Oneof?
    ensures SlotsWithin(fields, slots[i := vals])
  {
    hide SlotWithin;
  }

  lemma MemberReplaced(fields: seq<Field>, slots: seq<seq<Value>>, i: nat, vals: seq<Value>)
    requires SlotsWithin(fields, slots) && i < |fields| && SlotWithin(fields[i], vals)
    ensures SlotsWithin(fields, ClearUnion(fields, i, slots)[i := vals])
  {
    hide SlotWithin;
    forall j | 0 <= j < |fields| && fields[j].rule.Oneof? ensures SlotWithin(fields[j], []) {
      EmptyMember(fields[j]);
    }
  }

  lemma EmptyMember(f: Field)
    requires f.rule.Oneof?
    ensures SlotWithin(f, [])
  {
  }

  /** Entries stored into an array stay within it. */
  lemma StoredWithin(fields: seq<Field>, i: nat, vs: seq<Value>, st: State)
    requires StateWithin(fields, st) && i < |fields| && R.IsArray(fields[i])
    requires forall k :: 0 <= k < |vs| ==> Within(fields[i].t, vs[k])
    requires CountOf(fields[i], i, st.slots[i], st) + |vs| <= R.MaxOf(fields[i])
    ensures StateWithin(fields, Stored(fields[i], i, CountOf(fields[i], i, st.slots[i], st), vs, st))
  {
    hide Within;
    var f, slot := fields[i], st.slots[i];
    var count := CountOf(f, i, slot, st);
    assert SlotWithin(f, slot);
    assert SlotWithin(f, Store(f.rule, slot, count, vs));
    SlotReplaced(fields, st.slots, i, Store(f.rule, slot, count, vs));
  }

  lemma {:induction false} ValueWithin(t: Type, input: seq<Byte>, into: Value)
    requires Within(t, into)
    ensures GetValue(t, input, into).Some? ==> Within(t, GetValue(t, input, into).value.0)
    decreases |input|, 0
  {
    if !t.Sub? {
      ScalarWithin(t, input);
    } else {
      hide GetFields, GetDelimited, SlotWithin, OneOfEach;
      var d := GetDelimited(input);
      if d.Some? {
        var st := State(into.slots, None, {});
        FieldsWithin(t.fields, d.value.0, st);
      }
    }
  }

  lemma FieldWithin(fields: seq<Field>, i: nat, wire: nat, input: seq<Byte>, st: State)
    requires StateWithin(fields, st) && i < |fields|
    ensures GetField(fields, i, wire, input, st).Some? ==> StateWithin(fields, GetField(fields, i, wire, input, st).value.0)
    decreases |input|, 2
  {
    var f, slot := fields[i], st.slots[i];
    if R.IsArray(f) {
      ArrayWithin(fields, i, wire, input, st);
    } else {
      hide GetValue, Within, OneOfEach, ClearUnion;
      assert SlotWithin(f, slot);
      DefaultWithin(f.t);
      var into := if slot == [] then Default(f.t) else slot[0];
      ValueWithin(f.t, input, into);
      var r := GetValue(f.t, input, into);
      if r.Some? {
        MemberReplaced(fields, st.slots, i, [r.value.0]);
      }
    }
  }

  lemma ArrayWithin(fields: seq<Field>, i: nat, wire: nat, input: seq<Byte>, st: State)
    requires StateWithin(fields, st) && i < |fields| && R.IsArray(fields[i])
    ensures GetField(fields, i, wire, input, st).Some? ==> StateWithin(fields, GetField(fields, i, wire, input, st).value.0)
    decreases |input|, 1
  {
    hide GetValue, Within, GetDelimited, GetPacked, StateWithin, Stored, FixedDone, Packable;
    var f := fields[i];
    assert |st.slots| == |fields| by { StateLength(fields, st); }
    var count, max := CountOf(f, i, st.slots[i], st), R.MaxOf(f);
    CountWithin(fields, i, st);
    if wire == 2 && Packable(f.t) {
      var d := GetDelimited(input);
      if d.Some? {
        PackedWithin(f.t, d.value.0, if count < max then max - count else 0);
        var vs := GetPacked(f.t, d.value.0, if count < max then max - count else 0);
        if vs.Some? {
          StoredWithin(fields, i, vs.value, st);
        }
      }
    } else if count < max {
      DefaultWithin(f.t);
      ValueWithin(f.t, input, Default(f.t));
      var r := GetValue(f.t, input, Default(f.t));
      if r.Some? {
        StoredWithin(fields, i, [r.value.0], st);
      }
    }
  }

  lemma StateLength(fields: seq<Field>, st: State)
    requires StateWithin(fields, st)
    ensures |st.slots| == |fields|
  {
  }

  lemma CountWithin(fields: seq<Field>, i: nat, st: State)
    requires StateWithin(fields, st) && i < |fields| && R.IsArray(fields[i])
    ensures CountOf(fields[i], i, st.slots[i], st) <= R.MaxOf(fields[i])
  {
    hide Within;
    assert SlotWithin(fields[i], st.slots[i]);
  }

  lemma {:induction false} FieldsWithin(fields: seq<Field>, input: seq<Byte>, st: State)
    requires StateWithin(fields, st)
    ensures GetFields(fields, input, st).Some? ==> SlotsWithin(fields, GetFields(fields, input, st).value.slots)
    decreases |input|, 3
  {
    hide Dec32, GetField, SkipField, SlotsWithin;
    StateLength(fields, st);
    var k := Dec32(input);
    if input != [] && k.Some? && k.value.0 != 0 {
      var i := FindField(fields, k.value.0 / 8);
      if i == |fields| {
        var s := SkipField(k.value.0 % 8, k.value.1);
        if s.Some? {
          FieldsWithin(fields, s.value, st);
        }
      } else {
        FieldWithin(fields, i, k.value.0 % 8, k.value.1, st);
        var r := GetField(fields, i, k.value.0 % 8, k.value.1, st);
        if r.Some? {
          FieldsWithin(fields, r.value.1, r.value.0);
        }
      }
    }
  }

  /** For every descriptor and every input, malicious or not: what is decoded fits the struct, at every depth. */
  lemma DecodeIsSafe(fields: seq<Field>, input: seq<Byte>)
    ensures Decode(fields, input).Some? ==> SlotsWithin(fields, Decode(fields, input).value)
  {
    hide GetFields, SlotsWithin, Defaults;
    DefaultsWithin(fields);
    FieldsWithin(fields, input, State(Defaults(fields), None, {}));
  }
}
