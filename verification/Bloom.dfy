/** util/bloom.cc: a filter that says "no" only for keys it was not built from. */
module Bloom {
  import opened Crc
  import opened Coding

  // ----- bits -----

  predicate TestBit(b: nat, i: nat) {
    if i == 0 then b % 2 == 1 else TestBit(b / 2, i - 1)
  }

  /** b | (1 << i) */
  function SetBit(b: nat, i: nat): nat {
    if i == 0 then b / 2 * 2 + 1 else SetBit(b / 2, i - 1) * 2 + b % 2
  }

  lemma {:induction false} SetBitSets(b: nat, i: nat, j: nat)
    ensures TestBit(SetBit(b, i), j) <==> i == j || TestBit(b, j)
  {
    if i > 0 && j > 0 {
      SetBitSets(b / 2, i - 1, j - 1);
    }
  }

  function Pow2(n: nat): (p: nat)
    ensures p > 0
  {
    if n == 0 then 1 else 2 * Pow2(n - 1)
  }

  lemma {:induction false} SetBitFits(b: nat, i: nat, n: nat)
    requires b < Pow2(n) && i < n
    ensures SetBit(b, i) < Pow2(n)
  {
    if i > 0 {
      SetBitFits(b / 2, i - 1, n - 1);
    }
  }

  function SetByteBit(b: Byte, i: nat): (r: Byte)
    requires i < 8
    ensures forall j :: TestBit(r, j) <==> i == j || TestBit(b, j)
  {
    assert Pow2(8) == 256 by {
      assert Pow2(4) == 16;
    }
    SetBitFits(b, i, 8);
    assert forall j: nat :: TestBit(SetBit(b, i), j) <==> i == j || TestBit(b, j) by {
      forall j: nat ensures TestBit(SetBit(b, i), j) <==> i == j || TestBit(b, j) { SetBitSets(b, i, j); }
    }
    SetBit(b, i)
  }

  // ----- probes -----

  /** (h >> 17) | (h << 15) in 32 bits: the two parts do not overlap. */
  function Delta(h: nat): nat {
    h / 0x2_0000 + h * 0x8000 % TWO32
  }

  /** It is a rotation: nothing of the hash is lost. */
  lemma DeltaUndone(h: nat)
    requires h < TWO32
    ensures Delta(h) < TWO32 && Delta(h) % 0x8000 * 0x2_0000 + Delta(h) / 0x8000 == h
  {
    var hi, lo := h / 0x2_0000, h % 0x2_0000;
    assert h == hi * 0x2_0000 + lo && hi < 0x8000;
    assert h * 0x8000 == lo * 0x8000 + TWO32 * hi;
    assert h * 0x8000 % TWO32 == lo * 0x8000;
  }

  /** The j-th probe of a hash; 32-bit addition wraps. */
  function Probe(h: nat, j: nat): nat {
    (h + j * Delta(h)) % TWO32
  }

  predicate BitAt(bytes: seq<Byte>, pos: nat) {
    pos / 8 < |bytes| && TestBit(bytes[pos / 8], pos % 8)
  }

  /** The first n probes of hash h all hit set bits. */
  ghost predicate AllSet(bytes: seq<Byte>, h: nat, n: nat) {
    |bytes| > 0 && forall j :: 0 <= j < n ==> BitAt(bytes, Probe(h, j) % (8 * |bytes|))
  }

  /** `later` has every bit of `bytes`. */
  ghost predicate Covers(bytes: seq<Byte>, later: seq<Byte>) {
    |bytes| == |later| && forall pos: nat :: BitAt(bytes, pos) ==> BitAt(later, pos)
  }

  lemma AllSetStays(bytes: seq<Byte>, later: seq<Byte>, h: nat, n: nat)
    requires AllSet(bytes, h, n) && Covers(bytes, later)
    ensures AllSet(later, h, n)
  {
    forall j | 0 <= j < n ensures BitAt(later, Probe(h, j) % (8 * |later|)) {
      assert BitAt(bytes, Probe(h, j) % (8 * |bytes|));
    }
  }

  lemma NextProbe(h: nat, j: nat)
    ensures (Probe(h, j) + Delta(h)) % TWO32 == Probe(h, j + 1)
  {
    assert h + (j + 1) * Delta(h) == h + j * Delta(h) + Delta(h);
    WrapAdd(h + j * Delta(h), Delta(h));
  }

  lemma WrapAdd(a: nat, b: nat)
    ensures (a % TWO32 + b) % TWO32 == (a + b) % TWO32
  {
  }

  /** What a filter promises about the keys it was built from. */
  ghost predicate Recalls(filter: seq<Byte>, hashes: seq<nat>) {
    && |filter| >= 2
    && (filter[|filter| - 1] <= 30 ==>
          forall i :: 0 <= i < |hashes| ==> AllSet(filter[..|filter| - 1], hashes[i], filter[|filter| - 1]))
  }

  /** Some of the first `k` probes of one of the hashes falls on the bit. */
  ghost predicate Hit(pos: nat, hashes: seq<nat>, k: nat, bits: nat)
    requires bits > 0
  {
    exists i, j :: 0 <= i < |hashes| && 0 <= j < k && pos == Probe(hashes[i], j) % bits
  }

  ghost predicate OnlyHits(bytes: seq<Byte>, hashes: seq<nat>, k: nat) {
    |bytes| > 0 && forall pos: nat :: BitAt(bytes, pos) ==> Hit(pos, hashes, k, 8 * |bytes|)
  }

  lemma HitsMore(before: seq<Byte>, after: seq<Byte>, hashes: seq<nat>, h: nat, k: nat)
    requires OnlyHits(before, hashes, k) && |before| == |after|
    requires forall pos: nat :: BitAt(after, pos) ==> BitAt(before, pos) || ProbeAt(pos, h, k, 8 * |after|)
    ensures OnlyHits(after, hashes + [h], k)
  {
    var all, bits := hashes + [h], 8 * |after|;
    forall pos: nat | BitAt(after, pos) ensures Hit(pos, all, k, bits) {
      if BitAt(before, pos) {
        var i, j :| 0 <= i < |hashes| && 0 <= j < k && pos == Probe(hashes[i], j) % bits;
        assert all[i] == hashes[i];
      } else {
        var j :| 0 <= j < k && pos == Probe(h, j) % bits;
        assert all[|hashes|] == h;
      }
    }
  }

  ghost predicate ProbeAt(pos: nat, h: nat, k: nat, bits: nat)
    requires bits > 0
  {
    exists j :: 0 <= j < k && pos == Probe(h, j) % bits
  }

  lemma NoBits(bytes: seq<Byte>)
    requires |bytes| > 0 && forall i :: 0 <= i < |bytes| ==> bytes[i] == 0
    ensures OnlyHits(bytes, [], 0) && forall k: nat :: OnlyHits(bytes, [], k)
  {
    forall pos: nat ensures !BitAt(bytes, pos) {
      ZeroHasNoBit(pos % 8);
    }
  }

  lemma {:induction false} ZeroHasNoBit(i: nat)
    ensures !TestBit(0, i)
  {
    if i > 0 {
      ZeroHasNoBit(i - 1);
    }
  }

  /** BloomFilterPolicy::CreateFilter on the hashes of the keys; `k` is the number of probes. */
  method CreateFilter(hashes: seq<nat>, bitsPerKey: nat, k: Byte) returns (filter: seq<Byte>)
    ensures Recalls(filter, hashes) && filter[|filter| - 1] == k
    ensures OnlyHits(filter[..|filter| - 1], hashes, k)
    ensures |filter| - 1 == (if |hashes| * bitsPerKey < 64 then 8 else (|hashes| * bitsPerKey + 7) / 8)
  {
    var bits := |hashes| * bitsPerKey;
    if bits < 64 {
      bits := 64;
    }
    var bytes := (bits + 7) / 8;
    bits := bytes * 8;
    var a := new Byte[bytes](_ => 0);
    NoBits(a[..]);
    assert hashes[..0] == [];
    for i := 0 to |hashes|
      invariant forall m :: 0 <= m < i ==> AllSet(a[..], hashes[m], k)
      invariant OnlyHits(a[..], hashes[..i], k)
    {
      ghost var before := a[..];
      SetProbes(a, hashes[i], k, hashes[..i]);
      HitsMore(before, a[..], hashes[..i], hashes[i], k);
      assert hashes[..i + 1] == hashes[..i] + [hashes[i]];
    }
    assert hashes[..|hashes|] == hashes;
    filter := a[..] + [k];
    assert filter[..|filter| - 1] == a[..];
  }

  method SetProbes(a: array<Byte>, h0: nat, k: nat, ghost earlier: seq<nat>)
    requires a.Length > 0
    requires forall m :: 0 <= m < |earlier| ==> AllSet(a[..], earlier[m], k)
    modifies a
    ensures AllSet(a[..], h0, k)
    ensures forall m :: 0 <= m < |earlier| ==> AllSet(a[..], earlier[m], k)
    ensures forall pos: nat :: BitAt(a[..], pos) ==> BitAt(old(a[..]), pos) || ProbeAt(pos, h0, k, 8 * a.Length)
  {
    hide AllSet, Probe, Delta, ProbeAt, BitAt;
    var bits := a.Length * 8;
    var h := h0 % TWO32;
    var delta := Delta(h0);
    FirstProbe(a[..], h0);
    for j := 0 to k
      invariant h == Probe(h0, j) && AllSet(a[..], h0, j)
      invariant forall m :: 0 <= m < |earlier| ==> AllSet(a[..], earlier[m], k)
      invariant forall q: nat :: BitAt(a[..], q) ==> BitAt(old(a[..]), q) || ProbeAt(q, h0, j, bits)
    {
      var pos := h % bits;
      ProbeMore(h0, j, bits);
      ghost var before := a[..];
      a[pos / 8] := SetByteBit(a[pos / 8], pos % 8);
      BitSet(before, a[..], pos);
      forall m | 0 <= m < |earlier| ensures AllSet(a[..], earlier[m], k) { AllSetStays(before, a[..], earlier[m], k); }
      AllSetStays(before, a[..], h0, j);
      OneMore(a[..], h0, j);
      NextProbe(h0, j);
      h := (h + delta) % TWO32;
    }
  }

  lemma FirstProbe(bytes: seq<Byte>, h: nat)
    requires |bytes| > 0
    ensures Probe(h, 0) == h % TWO32 && AllSet(bytes, h, 0)
  {
  }

  lemma BitSet(before: seq<Byte>, after: seq<Byte>, pos: nat)
    requires pos / 8 < |before| && after == before[pos / 8 := SetByteBit(before[pos / 8], pos % 8)]
    ensures Covers(before, after) && BitAt(after, pos)
    ensures forall q: nat :: BitAt(after, q) ==> q == pos || BitAt(before, q)
  {
    hide TestBit;
    forall q: nat | BitAt(after, q) && q != pos ensures BitAt(before, q) {
      assert q / 8 == pos / 8 ==> q % 8 != pos % 8;
    }
  }

  lemma ProbeMore(h: nat, j: nat, bits: nat)
    requires bits > 0
    ensures ProbeAt(Probe(h, j) % bits, h, j + 1, bits)
    ensures forall q: nat :: ProbeAt(q, h, j, bits) ==> ProbeAt(q, h, j + 1, bits)
  {
    hide Probe;
  }

  lemma OneMore(bytes: seq<Byte>, h: nat, j: nat)
    requires AllSet(bytes, h, j) && BitAt(bytes, Probe(h, j) % (8 * |bytes|))
    ensures AllSet(bytes, h, j + 1)
  {
  }

  /** A filter that has fewer than two bytes matches nothing; more than 30 probes are read as a match. */
  ghost predicate Matches(h: nat, filter: seq<Byte>) {
    |filter| >= 2 && (filter[|filter| - 1] > 30 || AllSet(filter[..|filter| - 1], h, filter[|filter| - 1]))
  }

  /** BloomFilterPolicy::KeyMayMatch on the hash of the key. */
  method KeyMayMatch(h0: nat, filter: seq<Byte>) returns (r: bool)
    ensures r <==> Matches(h0, filter)
  {
    hide Probe, Delta;
    if |filter| < 2 {
      return false;
    }
    var bytes := filter[..|filter| - 1];
    var bits := |bytes| * 8;
    var k := filter[|filter| - 1];
    if k > 30 {
      return true;
    }
    var h := h0 % TWO32;
    var delta := Delta(h0);
    FirstProbe(bytes, h0);
    for j := 0 to k
      invariant h == Probe(h0, j) && AllSet(bytes, h0, j)
    {
      var pos := h % bits;
      if !TestBit(bytes[pos / 8], pos % 8) {
        return false;
      }
      NextProbe(h0, j);
      h := (h + delta) % TWO32;
    }
    r := true;
  }

  /** A filter answers "may match" for every key it was built from, whatever the number of probes. */
  lemma FilterRecalls(filter: seq<Byte>, hashes: seq<nat>, i: nat)
    requires Recalls(filter, hashes) && i < |hashes|
    ensures Matches(hashes[i], filter)
  {
  }
}
