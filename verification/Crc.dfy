/**
CRC-32C as section 12.1 of RFC 3720 defines it, bit by bit, and the masking of stored checksums.
*/
module Crc {

  type Byte = x: int | 0 <= x < 256

  const MASK_DELTA: bv32 := 0xa282ead8

  /** Shift the register right by `n` bits, reflecting the polynomial in. */
  function Shifted(c: bv32, n: nat): bv32
    decreases n
  {
    if n == 0 then c
    else Shifted(if c & 1 == 1 then (c >> 1) ^ 0x82f63b78 else c >> 1, n - 1)
  }

  function FoldLeft<A, B>(f: (A, B) -> A, a: A, s: seq<B>): A
    decreases s
  {
    if s == [] then a else f(FoldLeft(f, a, s[..|s| - 1]), s[|s| - 1])
  }

  lemma {:induction false} FoldLeftConcat<A, B>(f: (A, B) -> A, a: A, s: seq<B>, t: seq<B>)
    ensures FoldLeft(f, FoldLeft(f, a, s), t) == FoldLeft(f, a, s + t)
    decreases t
  {
    if t == [] {
      assert s + t == s;
    } else {
      var n := |t| - 1;
      FoldLeftConcat(f, a, s, t[..n]);
      assert (s + t)[..|s + t| - 1] == s + t[..n];
    }
  }

  function Halved(b: nat, i: nat): nat {
    if i == 0 then b else Halved(b, i - 1) / 2
  }

  function BitOf(b: nat, i: nat): bool {
    Halved(b, i) % 2 == 1
  }

  /** A byte as the low bits of a word. */
  function ByteBits(b: Byte): bv32 {
    (if BitOf(b, 0) then 1 else 0) | (if BitOf(b, 1) then 2 else 0) | (if BitOf(b, 2) then 4 else 0) | (if BitOf(b, 3) then 8 else 0) |
    (if BitOf(b, 4) then 16 else 0) | (if BitOf(b, 5) then 32 else 0) | (if BitOf(b, 6) then 64 else 0) | (if BitOf(b, 7) then 128 else 0)
  }

  lemma BitsHave(b: Byte)
    ensures (ByteBits(b) & 1 == 1 <==> BitOf(b, 0)) && (ByteBits(b) & 2 == 2 <==> BitOf(b, 1))
    ensures (ByteBits(b) & 4 == 4 <==> BitOf(b, 2)) && (ByteBits(b) & 8 == 8 <==> BitOf(b, 3))
    ensures (ByteBits(b) & 16 == 16 <==> BitOf(b, 4)) && (ByteBits(b) & 32 == 32 <==> BitOf(b, 5))
    ensures (ByteBits(b) & 64 == 64 <==> BitOf(b, 6)) && (ByteBits(b) & 128 == 128 <==> BitOf(b, 7))
    ensures ByteBits(b) & 0xffffff00 == 0
  {
    hide BitOf;
  }

  lemma Peel(a: nat, b: nat, i: nat)
    requires Halved(a, i + 1) == Halved(b, i + 1) && (BitOf(a, i) <==> BitOf(b, i))
    ensures Halved(a, i) == Halved(b, i)
  {
  }

  lemma Spent(b: Byte)
    ensures Halved(b, 0) == b && Halved(b, 8) == 0
  {
    assert Halved(b, 1) < 128;
    assert Halved(b, 2) < 64;
    assert Halved(b, 3) < 32;
    assert Halved(b, 4) < 16;
    assert Halved(b, 5) < 8;
    assert Halved(b, 6) < 4;
    assert Halved(b, 7) < 2;
  }

  lemma SameBits(a: Byte, b: Byte)
    requires forall i :: 0 <= i < 8 ==> BitOf(a, i) == BitOf(b, i)
    ensures a == b
  {
    hide BitOf, Halved;
    Spent(a);
    Spent(b);
    Peel(a, b, 7);
    Peel(a, b, 6);
    Peel(a, b, 5);
    Peel(a, b, 4);
    Peel(a, b, 3);
    Peel(a, b, 2);
    Peel(a, b, 1);
    Peel(a, b, 0);
  }

  lemma BitsInjective(a: Byte, b: Byte)
    ensures ByteBits(a) == ByteBits(b) ==> a == b
  {
    hide BitOf, ByteBits;
    BitsHave(a);
    BitsHave(b);
    if ByteBits(a) == ByteBits(b) {
      assert BitOf(a, 0) == BitOf(b, 0) && BitOf(a, 1) == BitOf(b, 1) && BitOf(a, 2) == BitOf(b, 2) && BitOf(a, 3) == BitOf(b, 3);
      assert BitOf(a, 4) == BitOf(b, 4) && BitOf(a, 5) == BitOf(b, 5) && BitOf(a, 6) == BitOf(b, 6) && BitOf(a, 7) == BitOf(b, 7);
      SameBits(a, b);
    }
  }

  function ShiftByte(c: bv32): bv32 {
    Shifted(c, 8)
  }

  function AddByte(c: bv32, b: Byte): bv32 {
    ShiftByte(c ^ ByteBits(b))
  }

  function Not(x: bv32): bv32 {
    !x
  }

  lemma NotNot(x: bv32)
    ensures Not(Not(x)) == x
  {
  }

  /** The checksum of A + data, given the checksum of A. */
  function Extend(crc: bv32, data: seq<Byte>): bv32 {
    Not(FoldLeft(AddByte, Not(crc), data))
  }

  function Value(data: seq<Byte>): bv32 {
    Extend(0, data)
  }

  /** Extending a checksum piece by piece gives the checksum of the whole. */
  lemma ExtendConcat(c: bv32, a: seq<Byte>, b: seq<Byte>)
    ensures Extend(Extend(c, a), b) == Extend(c, a + b)
  {
    FoldLeftConcat(AddByte, Not(c), a, b);
    NotNot(FoldLeft(AddByte, Not(c), a));
  }

  function Mask(crc: bv32): bv32 {
    ((crc >> 15) | (crc << 17)) + MASK_DELTA
  }

  function Unmask(masked: bv32): bv32 {
    var rot := masked - MASK_DELTA;
    (rot >> 17) | (rot << 15)
  }

  lemma UnmaskMask(crc: bv32)
    ensures Unmask(Mask(crc)) == crc
  {
  }

  lemma MaskUnmask(masked: bv32)
    ensures Mask(Unmask(masked)) == masked
  {
  }

  // ----- one changed byte changes the checksum -----

  function ShiftOnce(c: bv32): bv32 {
    if c & 1 == 1 then (c >> 1) ^ 0x82f63b78 else c >> 1
  }

  /** The top bit of the polynomial tells which way a step went. */
  lemma ShiftOnceInjective(c: bv32, d: bv32)
    ensures ShiftOnce(c) == ShiftOnce(d) ==> c == d
  {
  }

  lemma {:induction false} ShiftedInjective(c: bv32, d: bv32, n: nat)
    ensures Shifted(c, n) == Shifted(d, n) ==> c == d
    decreases n
  {
    if n > 0 {
      ShiftedInjective(ShiftOnce(c), ShiftOnce(d), n - 1);
      ShiftOnceInjective(c, d);
    }
  }

  lemma ShiftByteInjective(c: bv32, d: bv32)
    ensures ShiftByte(c) == ShiftByte(d) ==> c == d
  {
    ShiftedInjective(c, d, 8);
  }

  lemma ShiftXorInjective(c: bv32, d: bv32, x: bv32)
    requires ShiftByte(c ^ x) == ShiftByte(d ^ x)
    ensures c == d
  {
    hide ShiftByte;
    ShiftByteInjective(c ^ x, d ^ x);
    assert (c ^ x) ^ x == c && (d ^ x) ^ x == d;
  }

  lemma AddByteIs(c: bv32, b: Byte)
    ensures AddByte(c, b) == ShiftByte(c ^ ByteBits(b)) == ShiftByte(ByteBits(b) ^ c)
  {
    hide ShiftByte, ByteBits;
    assert c ^ ByteBits(b) == ByteBits(b) ^ c;
  }

  lemma AddByteKeepsApart(c: bv32, d: bv32, b: Byte)
    requires AddByte(c, b) == AddByte(d, b)
    ensures c == d
  {
    hide AddByte, ShiftByte, ByteBits;
    AddByteIs(c, b);
    AddByteIs(d, b);
    ShiftXorInjective(c, d, ByteBits(b));
  }

  lemma AddByteTellsApart(c: bv32, a: Byte, b: Byte)
    requires AddByte(c, a) == AddByte(c, b)
    ensures a == b
  {
    hide AddByte, ShiftByte, ByteBits;
    AddByteIs(c, a);
    AddByteIs(c, b);
    ShiftXorInjective(ByteBits(a), ByteBits(b), c);
    BitsInjective(a, b);
  }

  lemma {:induction false} FoldInjective(c: bv32, d: bv32, s: seq<Byte>)
    ensures FoldLeft(AddByte, c, s) == FoldLeft(AddByte, d, s) ==> c == d
    decreases s
  {
    hide AddByte;
    if s != [] {
      var n := |s| - 1;
      FoldInjective(c, d, s[..n]);
      if FoldLeft(AddByte, c, s) == FoldLeft(AddByte, d, s) {
        AddByteKeepsApart(FoldLeft(AddByte, c, s[..n]), FoldLeft(AddByte, d, s[..n]), s[n]);
      }
    }
  }

  /** No change of a single byte goes unnoticed. */
  lemma OneByteChanges(s: seq<Byte>, i: nat, b: Byte)
    requires i < |s| && b != s[i]
    ensures Value(s[i := b]) != Value(s)
  {
    hide AddByte;
    var c := Not(0);
    var front, back := s[..i], s[i + 1..];
    var m := FoldLeft(AddByte, c, front);
    assert s == front + ([s[i]] + back) && s[i := b] == front + ([b] + back);
    FoldAround(c, front, s[i], back);
    FoldAround(c, front, b, back);
    FoldInjective(AddByte(m, s[i]), AddByte(m, b), back);
    if AddByte(m, s[i]) == AddByte(m, b) {
      AddByteTellsApart(m, s[i], b);
    }
    NotNot(FoldLeft(AddByte, c, s));
    NotNot(FoldLeft(AddByte, c, s[i := b]));
  }

  lemma FoldAround(c: bv32, front: seq<Byte>, x: Byte, back: seq<Byte>)
    ensures FoldLeft(AddByte, c, front + ([x] + back)) == FoldLeft(AddByte, AddByte(FoldLeft(AddByte, c, front), x), back)
  {
    hide AddByte;
    FoldLeftConcat(AddByte, c, front, [x] + back);
    FoldLeftConcat(AddByte, FoldLeft(AddByte, c, front), [x], back);
    FoldOne(FoldLeft(AddByte, c, front), x);
  }

  lemma FoldOne(c: bv32, x: Byte)
    ensures FoldLeft(AddByte, c, [x]) == AddByte(c, x)
  {
    hide AddByte;
    var one: seq<Byte> := [x];
    assert one[..0] == [];
  }

  /** Little-endian bytes of a 32-bit number. */
  function FixedBytes(n: nat): (s: seq<Byte>)
    requires n < 0x1_0000_0000
    ensures |s| == 4
  {
    var hi := n / 65536;
    [n % 65536 % 256, n % 65536 / 256, hi % 256, hi / 256]
  }

  function FixedValue(s: seq<Byte>): (n: nat)
    requires |s| == 4
    ensures n < 0x1_0000_0000
  {
    var a: int, b: int, c: int, d: int := s[0], s[1], s[2], s[3];
    a + 256 * b + 65536 * (c + 256 * d)
  }

  lemma FixedBytesRoundTrip(n: nat)
    requires n < 0x1_0000_0000
    ensures FixedValue(FixedBytes(n)) == n
  {
  }

  function EncodeFixed32(x: bv32): (s: seq<Byte>)
    ensures |s| == 4
  {
    FixedBytes(x as nat)
  }

  function DecodeFixed32(s: seq<Byte>): bv32
    requires |s| == 4
  {
    FixedValue(s) as bv32
  }

  lemma Fixed32RoundTrip(x: bv32)
    ensures DecodeFixed32(EncodeFixed32(x)) == x
  {
    FixedBytesRoundTrip(x as nat);
  }
}
