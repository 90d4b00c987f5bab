/** db/write_batch.cc: a batch of updates as one byte string, built in place and replayed. */
module WriteBatch {
  import opened Common
  import opened Crc
  import opened Coding

  const HEADER: nat := 12
  const DELETION: Byte := 0
  const VALUE: Byte := 1

  datatype Op = Put(key: seq<Byte>, value: seq<Byte>) | Delete(key: seq<Byte>)

  function RecordBytes(op: Op): (r: seq<Byte>)
    ensures |r| >= 1
  {
    match op
    case Put(k, v) => [VALUE] + Prefixed(k) + Prefixed(v)
    case Delete(k) => [DELETION] + Prefixed(k)
  }

  function Records(ops: seq<Op>): seq<Byte> {
    if ops == [] then [] else Records(ops[..|ops| - 1]) + RecordBytes(ops[|ops| - 1])
  }

  /** The count field is 32 bits wide. */
  function Rep(sequence: nat, ops: seq<Op>): (r: seq<Byte>)
    requires sequence < TWO32 * TWO32
    ensures |r| == HEADER + |Records(ops)|
  {
    Fixed64(sequence) + FixedBytes(|ops| % TWO32) + Records(ops)
  }

  lemma {:induction false} RecordsConcat(a: seq<Op>, b: seq<Op>)
    ensures Records(a + b) == Records(a) + Records(b)
    decreases b
  {
    hide RecordBytes;
    if b == [] {
      assert a + b == a;
    } else {
      var n := |b| - 1;
      RecordsConcat(a, b[..n]);
      assert (a + b)[..|a + b| - 1] == a + b[..n] && (a + b)[|a + b| - 1] == b[n];
      ConcatAssoc(Records(a), Records(b[..n]), RecordBytes(b[n]));
    }
  }

  // ----- reading -----

  /** One record off the front. */
  function NextRecord(input: seq<Byte>): (r: Option<(Op, seq<Byte>)>)
    requires input != []
    ensures r.Some? ==> |r.value.1| < |input|
  {
    if input[0] == VALUE then
      match GetPrefixed(input[1..])
      case None => None
      case Some((k, rest)) =>
        (match GetPrefixed(rest)
         case None => None
         case Some((v, rest')) => Some((Put(k, v), rest')))
    else if input[0] == DELETION then
      match GetPrefixed(input[1..])
      case None => None
      case Some((k, rest)) => Some((Delete(k), rest))
    else None
  }

  /** Whether the bytes parse to their end, and the updates met on the way. */
  function Parse(input: seq<Byte>): (bool, seq<Op>)
    decreases |input|
  {
    if input == [] then (true, [])
    else
      match NextRecord(input)
      case None => (false, [])
      case Some((op, rest)) => (Parse(rest).0, [op] + Parse(rest).1)
  }

  /** The bytes of one update, whatever number of digits its lengths are written with, and then `rest`. */
  ghost predicate RecordForm(s: seq<Byte>, op: Op, rest: seq<Byte>) {
    match op
    case Put(k, v) => exists d, e :: LengthForm(d, |k|) && LengthForm(e, |v|) && s == [1] + (d + k + (e + v + rest))
    case Delete(k) => exists d :: LengthForm(d, |k|) && s == [0] + (d + k + rest)
  }

  ghost predicate Written(s: seq<Byte>, ops: seq<Op>)
    decreases ops
  {
    if ops == [] then s == [] else exists rest :: RecordForm(s, ops[0], rest) && Written(rest, ops[1..])
  }

  lemma NextIsThere(input: seq<Byte>)
    requires input != [] && NextRecord(input).Some?
    ensures RecordForm(input, NextRecord(input).value.0, NextRecord(input).value.1)
  {
    hide GetPrefixed, LengthForm;
    assert input == [input[0]] + input[1..];
    var d := PrefixedIsThere(input[1..]);
    if input[0] == VALUE {
      var e := PrefixedIsThere(GetPrefixed(input[1..]).value.1);
    }
  }

  /** Whatever parses to its end is a sequence of well-formed updates, those returned, and nothing else. */
  lemma {:induction false} ParseIsSound(input: seq<Byte>)
    ensures Parse(input).0 ==> Written(input, Parse(input).1)
    decreases |input|
  {
    hide NextRecord, RecordForm;
    if input != [] && NextRecord(input).Some? {
      var (op, rest) := NextRecord(input).value;
      NextIsThere(input);
      ParseIsSound(rest);
      assert ([op] + Parse(rest).1)[1..] == Parse(rest).1;
    }
  }

  predicate Fits(op: Op) {
    |op.key| < TWO32 && (op.Put? ==> |op.value| < TWO32)
  }

  lemma NextOfRecord(op: Op, rest: seq<Byte>)
    requires Fits(op)
    ensures NextRecord(RecordBytes(op) + rest) == Some((op, rest))
  {
    hide Prefixed, GetPrefixed;
    var s := RecordBytes(op) + rest;
    match op
    case Put(k, v) =>
      assert s[1..] == Prefixed(k) + (Prefixed(v) + rest);
      PrefixedRoundTrip(k, Prefixed(v) + rest);
      PrefixedRoundTrip(v, rest);
    case Delete(k) =>
      assert s[1..] == Prefixed(k) + rest;
      PrefixedRoundTrip(k, rest);
  }

  lemma RecordsOne(ops: seq<Op>)
    requires |ops| == 1
    ensures Records(ops) == RecordBytes(ops[0])
  {
    hide RecordBytes;
    assert ops[..0] == [] && Records([]) == [];
  }

  lemma {:induction false} ParseRecords(ops: seq<Op>)
    requires forall op :: op in ops ==> Fits(op)
    ensures Parse(Records(ops)) == (true, ops)
    decreases ops
  {
    hide RecordBytes, NextRecord;
    if ops != [] {
      RecordsConcat(ops[..1], ops[1..]);
      assert ops[..1] + ops[1..] == ops && [ops[0]] + ops[1..] == ops;
      RecordsOne(ops[..1]);
      NextOfRecord(ops[0], Records(ops[1..]));
      ParseRecords(ops[1..]);
      assert Records(ops) != [];
    }
  }

  function SequenceOf(rep: seq<Byte>): nat
    requires |rep| >= HEADER
  {
    Fixed64Value(rep[..8])
  }

  function CountOf(rep: seq<Byte>): nat
    requires |rep| >= HEADER
  {
    FixedValue(rep[8..HEADER])
  }

  lemma RepFields(sequence: nat, ops: seq<Op>)
    requires sequence < TWO32 * TWO32
    ensures SequenceOf(Rep(sequence, ops)) == sequence && CountOf(Rep(sequence, ops)) == |ops| % TWO32
    ensures Rep(sequence, ops)[HEADER..] == Records(ops)
  {
    hide Fixed64, FixedBytes, Fixed64Value, FixedValue, Records;
    var r := Rep(sequence, ops);
    assert r[..8] == Fixed64(sequence) && r[8..HEADER] == FixedBytes(|ops| % TWO32);
    Fixed64RoundTrip(sequence);
    FixedBytesRoundTrip(|ops| % TWO32);
  }

  lemma AddModulo32(a: nat, b: nat)
    ensures (a % TWO32 + b % TWO32) % TWO32 == (a + b) % TWO32
  {
  }

  lemma AppendedRep(s: nat, a: seq<Op>, t: nat, b: seq<Op>)
    requires s < TWO32 * TWO32 && t < TWO32 * TWO32
    ensures Rep(s, a)[..8] + FixedBytes((CountOf(Rep(s, a)) + CountOf(Rep(t, b))) % TWO32) + Rep(s, a)[HEADER..] + Rep(t, b)[HEADER..] ==
            Rep(s, a + b)
  {
    hide Fixed64, FixedBytes, Fixed64Value, FixedValue, RecordBytes, CountOf, Records;
    RepFields(s, a);
    RepFields(t, b);
    RecordsConcat(a, b);
    AddModulo32(|a|, |b|);
    assert Rep(s, a)[..8] == Fixed64(s);
  }

  /** An update and the sequence number it takes effect at. */
  datatype Placed = Placed(sequence: nat, op: Op)

  function PlacedAt(first: nat, ops: seq<Op>): (r: seq<Placed>)
    ensures |r| == |ops|
  {
    seq(|ops|, i requires 0 <= i < |ops| => Placed(first + i, ops[i]))
  }

  /**
  WriteBatchInternal::InsertInto: Iterate drives a memtable inserter that numbers the updates
  from the batch's sequence number. On a malformed batch the updates before the fault are in.
  */
  method InsertInto(rep: seq<Byte>) returns (ok: bool, inserted: seq<Placed>)
    ensures |rep| < HEADER ==> !ok && inserted == []
    ensures |rep| >= HEADER ==>
              && inserted == PlacedAt(SequenceOf(rep), Parse(rep[HEADER..]).1)
              && (ok <==> Parse(rep[HEADER..]).0 && |inserted| == CountOf(rep))
  {
    hide NextRecord;
    inserted := [];
    if |rep| < HEADER {
      return false, [];
    }
    var sequence, input, found := SequenceOf(rep), rep[HEADER..], 0;
    ghost var ops: seq<Op> := [];
    assert [] + Parse(input).1 == Parse(input).1;
    while input != []
      invariant found == |ops| && sequence == SequenceOf(rep) + found
      invariant inserted == PlacedAt(SequenceOf(rep), ops)
      invariant Parse(rep[HEADER..]) == (Parse(input).0, ops + Parse(input).1)
      decreases |input|
    {
      found := found + 1;
      match NextRecord(input) {
        case None =>
          assert ops + [] == ops;
          return false, inserted;
        case Some((op, rest)) =>
          assert ops + ([op] + Parse(rest).1) == ops + [op] + Parse(rest).1;
          assert PlacedAt(SequenceOf(rep), ops + [op]) == inserted + [Placed(sequence, op)];
          inserted, sequence, input := inserted + [Placed(sequence, op)], sequence + 1, rest;
          ops := ops + [op];
      }
    }
    assert ops + [] == ops;
    ok := found == CountOf(rep);
  }

  /** Replaying an encoded batch applies its updates, in order, from its sequence number. */
  lemma ReplayRoundTrip(sequence: nat, ops: seq<Op>)
    requires sequence < TWO32 * TWO32 && |ops| < TWO32 && forall op :: op in ops ==> Fits(op)
    ensures |Rep(sequence, ops)| >= HEADER && SequenceOf(Rep(sequence, ops)) == sequence
    ensures CountOf(Rep(sequence, ops)) == |ops| && Parse(Rep(sequence, ops)[HEADER..]) == (true, ops)
  {
    hide Rep, Parse, Records, SequenceOf, CountOf;
    RepFields(sequence, ops);
    ParseRecords(ops);
  }

  // ----- the batch object -----

  class Batch {
    var rep: seq<Byte>
    ghost var sequence: nat
    ghost var ops: seq<Op>

    ghost predicate Valid()
      reads this
    {
      sequence < TWO32 * TWO32 && rep == Rep(sequence, ops)
    }

    constructor ()
      ensures Valid() && ops == [] && sequence == 0
    {
      new;
      Clear();
    }

    method Clear()
      modifies this
      ensures Valid() && ops == [] && sequence == 0
    {
      rep := seq(HEADER, _ => 0);
      sequence, ops := 0, [];
      assert Fixed64(0) == [0, 0, 0, 0, 0, 0, 0, 0] && FixedBytes(0) == [0, 0, 0, 0];
    }

    method SetSequence(s: nat)
      requires Valid() && s < TWO32 * TWO32
      modifies this
      ensures Valid() && sequence == s && ops == old(ops)
    {
      hide Fixed64, FixedBytes, Fixed64Value, FixedValue, Records;
      RepFields(sequence, ops);
      assert rep[8..] == FixedBytes(|ops| % TWO32) + Records(ops);
      rep := Fixed64(s) + rep[8..];
      sequence := s;
    }

    method Put(key: seq<Byte>, value: seq<Byte>)
      requires Valid()
      modifies this
      ensures Valid() && sequence == old(sequence) && ops == old(ops) + [Op.Put(key, value)]
    {
      Add(Op.Put(key, value));
    }

    method Delete(key: seq<Byte>)
      requires Valid()
      modifies this
      ensures Valid() && sequence == old(sequence) && ops == old(ops) + [Op.Delete(key)]
    {
      Add(Op.Delete(key));
    }

    /** Counts the record and appends it. */
    method Add(op: Op)
      requires Valid()
      modifies this
      ensures Valid() && sequence == old(sequence) && ops == old(ops) + [op]
    {
      hide Fixed64, FixedBytes, Fixed64Value, FixedValue, RecordBytes, CountOf;
      RepFields(sequence, ops);
      assert rep[..8] == Fixed64(sequence);
      rep := rep[..8] + FixedBytes((CountOf(rep) + 1) % TWO32) + rep[HEADER..] + RecordBytes(op);
      ops := ops + [op];
      assert ops[..|ops| - 1] == old(ops);
    }

    /** WriteBatchInternal::Append: adds the counts and appends the records. */
    method Append(src: Batch)
      requires Valid() && src.Valid() && src != this
      modifies this
      ensures Valid() && sequence == old(sequence) && ops == old(ops) + src.ops
    {
      hide Rep, CountOf, FixedBytes, Records;
      AppendedRep(sequence, ops, src.sequence, src.ops);
      rep := rep[..8] + FixedBytes((CountOf(rep) + CountOf(src.rep)) % TWO32) + rep[HEADER..] + src.rep[HEADER..];
      ops := ops + src.ops;
    }
  }
}
