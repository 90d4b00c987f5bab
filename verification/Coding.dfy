/** util/coding.cc: fixed-width, variable-length and length-prefixed encodings. */
module Coding {
  import opened Common
  import opened Crc

  const TWO32: nat := 0x1_0000_0000
  const TWO64: nat := TWO32 * TWO32

  /** Base-128 digits, least significant first, the high bit set on all but the last. */
  function Varint(v: nat): seq<Byte>
    decreases v
  {
    if v < 128 then [v] else [v % 128 + 128] + Varint(v / 128)
  }

  /** The unrolled 32-bit encoder. */
  method EncodeVarint32(v: nat) returns (r: seq<Byte>)
    requires v < TWO32
    ensures r == Varint(v) && 1 <= |r| <= 5
  {
    var a, b, c, d := v / 128, v / 128 / 128, v / 128 / 128 / 128, v / 128 / 128 / 128 / 128;
    if v < 0x80 {
      r := [v];
    } else if v < 0x4000 {
      r := [v % 128 + 128, a];
    } else if v < 0x20_0000 {
      r := [v % 128 + 128, a % 128 + 128, b];
    } else if v < 0x1000_0000 {
      r := [v % 128 + 128, a % 128 + 128, b % 128 + 128, c];
    } else {
      r := [v % 128 + 128, a % 128 + 128, b % 128 + 128, c % 128 + 128, d];
    }
    assert a >= 128 ==> Varint(a) == [a % 128 + 128] + Varint(b);
    assert b >= 128 ==> Varint(b) == [b % 128 + 128] + Varint(c);
    assert c >= 128 ==> Varint(c) == [c % 128 + 128] + Varint(d);
  }

  /** The 64-bit encoder's loop. */
  method EncodeVarint64(v0: nat) returns (r: seq<Byte>)
    ensures r == Varint(v0)
  {
    var v := v0;
    r := [];
    while v >= 128
      invariant r + Varint(v) == Varint(v0)
    {
      r := r + [v % 128 + 128];
      v := v / 128;
    }
    r := r + [v];
  }

  /** Reads at most `digits` base-128 digits; None when the bytes or the digits run out. */
  function Digits(input: seq<Byte>, digits: nat): (r: Option<(nat, seq<Byte>)>)
    ensures r.Some? ==> |r.value.1| < |input|
    decreases digits
  {
    if digits == 0 || input == [] then None
    else if input[0] < 128 then Some((input[0], input[1..]))
    else
      match Digits(input[1..], digits - 1)
      case None => None
      case Some((high, rest)) => Some((input[0] - 128 + 128 * high, rest))
  }

  /** The number that base-128 digits spell, lowest first. */
  function Spelled(d: seq<Byte>): nat {
    if d == [] then 0 else d[0] % 128 + 128 * Spelled(d[1..])
  }

  /** Digits with the top bit set on all but the last. */
  predicate VarintForm(d: seq<Byte>) {
    d != [] && d[|d| - 1] < 128 && forall i :: 0 <= i < |d| - 1 ==> d[i] >= 128
  }

  /** What is read is what the leading digits spell, and the rest is left. */
  lemma {:induction false} DigitsSpell(input: seq<Byte>, digits: nat)
    requires Digits(input, digits).Some?
    ensures
      var (v, rest) := Digits(input, digits).value;
      var d := input[..|input| - |rest|];
      VarintForm(d) && |d| <= digits && v == Spelled(d) && input == d + rest
    decreases digits
  {
    var (v, rest) := Digits(input, digits).value;
    var d := input[..|input| - |rest|];
    if input[0] < 128 {
      assert d == [input[0]] && d[1..] == [];
    } else {
      DigitsSpell(input[1..], digits - 1);
      var tail := input[1..][..|input| - 1 - |rest|];
      assert d == [input[0]] + tail && d[1..] == tail;
    }
  }

  /** What a 32-bit read of a varint yields: five digits, the value modulo 2^32. */
  function Varint32(input: seq<Byte>): (r: Option<(nat, seq<Byte>)>)
    ensures r.Some? ==> |r.value.1| < |input| && r.value.0 < TWO32
  {
    match Digits(input, 5)
    case None => None
    case Some((v, rest)) => Some((v % TWO32, rest))
  }

  lemma AddModulo(r: nat, d: nat)
    ensures (r % TWO32 + d) % TWO32 == (r + d) % TWO32
  {
  }

  lemma Weigh(r: nat, w: nat, b: int, h: nat)
    requires 128 <= b
    ensures r + w * (b - 128 + 128 * h) == (r + (b - 128) * w) + w * 128 * h
  {
  }

  /** GetVarint32: the digits occupy disjoint bits, so the shifts and ors are weighted sums. */
  method GetVarint32(input: seq<Byte>) returns (r: Option<(nat, seq<Byte>)>)
    ensures r == Varint32(input)
  {
    var result: nat, weight: nat, n: nat, p := 0, 1, 0, input;
    ghost var total: nat := 0;
    while n < 5 && p != []
      invariant n <= 5 && result == total % TWO32
      invariant Digits(input, 5) ==
                match Digits(p, 5 - n)
                case None => None
                case Some((high, rest)) => Some((total + weight * high, rest))
    {
      var b := p[0];
      p, n := p[1..], n + 1;
      if b >= 128 {
        AddModulo(total, (b - 128) * weight);
        match Digits(p, 5 - n) {
          case Some((h, _)) => Weigh(total, weight, b, h);
          case None =>
        }
        total := total + (b - 128) * weight;
        result := (result + (b - 128) * weight) % TWO32;
      } else {
        AddModulo(total, b * weight);
        return Some(((result + b * weight) % TWO32, p));
      }
      weight := weight * 128;
    }
    return None;
  }

  lemma {:induction false} DigitsOfVarint(v: nat, rest: seq<Byte>, digits: nat)
    requires |Varint(v)| <= digits
    ensures Digits(Varint(v) + rest, digits) == Some((v, rest))
    decreases v
  {
    var s := Varint(v) + rest;
    if v < 128 {
      assert s[1..] == rest;
    } else {
      DigitsOfVarint(v / 128, rest, digits - 1);
      assert s[1..] == Varint(v / 128) + rest;
    }
  }

  lemma Varint32Length(v: nat)
    requires v < TWO32
    ensures 1 <= |Varint(v)| <= 5
  {
    var a, b, c := v / 128, v / 128 / 128, v / 128 / 128 / 128;
    assert v >= 128 ==> |Varint(v)| == 1 + |Varint(a)|;
    assert a >= 128 ==> |Varint(a)| == 1 + |Varint(b)|;
    assert b >= 128 ==> |Varint(b)| == 1 + |Varint(c)|;
    assert c >= 128 ==> |Varint(c)| == 1 + |Varint(c / 128)|;
  }

  /** A 32-bit varint followed by anything reads back, leaving the rest. */
  lemma Varint32RoundTrip(v: nat, rest: seq<Byte>)
    requires v < TWO32
    ensures Varint32(Varint(v) + rest) == Some((v, rest))
  {
    hide Varint, Digits;
    Varint32Length(v);
    DigitsOfVarint(v, rest, 5);
  }

  /** Ten digits, the value modulo 2^64. */
  function Varint64(input: seq<Byte>): (r: Option<(nat, seq<Byte>)>)
    ensures r.Some? ==> |r.value.1| < |input|
  {
    match Digits(input, 10)
    case None => None
    case Some((v, rest)) => Some((v % TWO64, rest))
  }

  function Pow128(n: nat): (p: nat)
    ensures p > 0
  {
    if n == 0 then 1 else 128 * Pow128(n - 1)
  }

  lemma {:induction false} VarintLength(v: nat, digits: nat)
    requires v < Pow128(digits)
    ensures 1 <= |Varint(v)| <= if digits == 0 then 1 else digits
    decreases digits
  {
    if v >= 128 {
      VarintLength(v / 128, digits - 1);
    }
  }

  lemma Pow128Of10()
    ensures Pow128(10) >= TWO64
  {
    assert Pow128(3) == 0x20_0000;
    assert Pow128(6) == 0x20_0000 * 0x20_0000 by { assert Pow128(5) == 0x8_0000_0000; }
    assert Pow128(8) == 0x100_0000_0000_0000;
  }

  lemma Varint64RoundTrip(v: nat, rest: seq<Byte>)
    requires v < TWO64
    ensures Varint64(Varint(v) + rest) == Some((v, rest))
  {
    hide Varint, Digits, Pow128;
    Pow128Of10();
    VarintLength(v, 10);
    DigitsOfVarint(v, rest, 10);
  }

  // ----- length-prefixed byte strings -----

  /** PutLengthPrefixedSlice; the length is cast to 32 bits. */
  function Prefixed(s: seq<Byte>): seq<Byte> {
    Varint(|s| % TWO32) + s
  }

  function GetPrefixed(input: seq<Byte>): (r: Option<(seq<Byte>, seq<Byte>)>)
    ensures r.Some? ==> |r.value.1| < |input|
  {
    match Varint32(input)
    case None => None
    case Some((n, rest)) => if n <= |rest| then Some((rest[..n], rest[n..])) else None
  }

  /** A length of at most five digits, taken modulo 2^32. */
  predicate LengthForm(d: seq<Byte>, n: nat) {
    VarintForm(d) && |d| <= 5 && Spelled(d) % TWO32 == n
  }

  /** A string that is read lies in the input behind its length. */
  lemma PrefixedIsThere(input: seq<Byte>) returns (d: seq<Byte>)
    requires GetPrefixed(input).Some?
    ensures var (s, rest) := GetPrefixed(input).value; LengthForm(d, |s|) && input == d + s + rest
  {
    hide Digits, VarintForm, Spelled;
    DigitsSpell(input, 5);
    var (v, tail) := Digits(input, 5).value;
    d := input[..|input| - |tail|];
    var n := v % TWO32;
    assert tail == tail[..n] + tail[n..];
  }

  /** A prefixed string reads back exactly when its length fits in 32 bits. */
  lemma PrefixedRoundTrip(s: seq<Byte>, rest: seq<Byte>)
    ensures GetPrefixed(Prefixed(s) + rest) == Some((s, rest)) <==> |s| < TWO32
  {
    hide Varint, Varint32;
    var n := |s| % TWO32;
    assert Prefixed(s) + rest == Varint(n) + (s + rest);
    Varint32RoundTrip(n, s + rest);
    if |s| < TWO32 {
      assert (s + rest)[..n] == s && (s + rest)[n..] == rest;
    }
  }

  // ----- 64-bit fixed -----

  function Fixed64(n: nat): (s: seq<Byte>)
    requires n < TWO32 * TWO32
    ensures |s| == 8
  {
    FixedBytes(n % TWO32) + FixedBytes(n / TWO32)
  }

  function Fixed64Value(s: seq<Byte>): nat
    requires |s| == 8
  {
    FixedValue(s[..4]) + TWO32 * FixedValue(s[4..])
  }

  lemma Fixed64RoundTrip(n: nat)
    requires n < TWO32 * TWO32
    ensures Fixed64Value(Fixed64(n)) == n
  {
    FixedBytesRoundTrip(n % TWO32);
    FixedBytesRoundTrip(n / TWO32);
    assert Fixed64(n)[..4] == FixedBytes(n % TWO32) && Fixed64(n)[4..] == FixedBytes(n / TWO32);
  }

  // ----- arrays of 32-bit offsets -----

  /** Each offset is cast to 32 bits. */
  function FixedArray(offsets: seq<nat>): (b: seq<Byte>)
    ensures |b| == 4 * |offsets|
  {
    if offsets == [] then [] else FixedArray(offsets[..|offsets| - 1]) + FixedBytes(offsets[|offsets| - 1] % TWO32)
  }

  lemma FixedArraySnoc(offsets: seq<nat>, i: nat)
    requires i < |offsets|
    ensures FixedArray(offsets[..i + 1]) == FixedArray(offsets[..i]) + FixedBytes(offsets[i] % TWO32)
  {
    assert offsets[..i + 1][..i] == offsets[..i];
  }

  lemma {:induction false} FixedArrayAt(offsets: seq<nat>, r: nat)
    requires r < |offsets|
    ensures FixedArray(offsets)[4 * r..][..4] == FixedBytes(offsets[r] % TWO32)
  {
    hide FixedBytes;
    var n := |offsets| - 1;
    if r < n {
      FixedArrayAt(offsets[..n], r);
      var b := FixedArray(offsets[..n]);
      assert (b + FixedBytes(offsets[n] % TWO32))[4 * r..][..4] == b[4 * r..][..4];
    }
  }
}
