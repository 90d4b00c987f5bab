/** util/comparator.cc: the bytewise order on user keys, and shortened keys between two others. */
module Bytewise {
  import opened Crc

  /** Lexicographic order; a proper prefix comes first. */
  predicate Before(a: seq<Byte>, b: seq<Byte>) {
    b != [] && (a == [] || a[0] < b[0] || (a[0] == b[0] && Before(a[1..], b[1..])))
  }

  lemma {:induction false} BeforeTotal(a: seq<Byte>, b: seq<Byte>)
    ensures Before(a, b) || a == b || Before(b, a)
    ensures !(Before(a, b) && Before(b, a)) && !Before(a, a)
  {
    if a != [] { BeforeTotal(a[1..], a[1..]); }
    if a != [] && b != [] && a[0] == b[0] {
      BeforeTotal(a[1..], b[1..]);
      assert a == [a[0]] + a[1..] && b == [b[0]] + b[1..];
    }
  }

  lemma {:induction false} BeforeTransitive(a: seq<Byte>, b: seq<Byte>, c: seq<Byte>)
    requires Before(a, b) && Before(b, c)
    ensures Before(a, c)
  {
    if a != [] && a[0] == b[0] == c[0] {
      BeforeTransitive(a[1..], b[1..], c[1..]);
    }
  }

  /** Keys that agree up to position n are ordered by what follows. */
  lemma {:induction false} BeforeFrom(a: seq<Byte>, b: seq<Byte>, n: nat)
    requires n <= |a| && n <= |b| && a[..n] == b[..n]
    ensures Before(a, b) <==> Before(a[n..], b[n..])
  {
    if n > 0 {
      assert a[0] == a[..n][0] && b[0] == b[..n][0];
      assert a[1..][..n - 1] == a[..n][1..] && b[1..][..n - 1] == b[..n][1..];
      BeforeFrom(a[1..], b[1..], n - 1);
      assert a[1..][n - 1..] == a[n..] && b[1..][n - 1..] == b[n..];
    } else {
      assert a[n..] == a && b[n..] == b;
    }
  }

  /** Raising one byte and cutting after it gives a larger key, still before any key that is larger at that byte. */
  lemma RaisedAt(a: seq<Byte>, n: nat)
    requires n < |a| && a[n] < 255
    ensures Before(a, a[..n] + [a[n] + 1])
    ensures forall b: seq<Byte> :: n < |b| && b[..n] == a[..n] && a[n] + 1 < b[n] ==> Before(a[..n] + [a[n] + 1], b)
  {
    var r := a[..n] + [a[n] + 1];
    assert r[..n] == a[..n] && r[n..] == [a[n] + 1];
    BeforeFrom(a, r, n);
    assert a[n..][0] == a[n];
    forall b: seq<Byte> | n < |b| && b[..n] == a[..n] && a[n] + 1 < b[n] ensures Before(r, b) {
      BeforeFrom(r, b, n);
      assert b[n..][0] == b[n];
    }
  }

  predicate Agree(a: seq<Byte>, b: seq<Byte>, n: nat) {
    n <= |a| && n <= |b| && forall i :: 0 <= i < n ==> a[i] == b[i]
  }

  /** The first place where the keys differ lies in both, and the byte there can be raised and stay below the limit's. */
  predicate RaisableAt(start: seq<Byte>, limit: seq<Byte>, n: nat) {
    Agree(start, limit, n) && n < |start| && n < |limit| && start[n] < 255 && start[n] + 1 < limit[n]
  }

  /**
  The key is left alone, or replaced by a shorter one strictly between it and the limit: the
  common prefix and the next byte raised, exactly when that byte can be raised.
  */
  method FindShortestSeparator(start: seq<Byte>, limit: seq<Byte>) returns (r: seq<Byte>)
    ensures r == start || (|r| <= |start| && Before(start, r) && Before(r, limit))
    ensures forall n: nat :: RaisableAt(start, limit, n) ==> r == start[..n] + [start[n] + 1]
    ensures (forall n: nat :: !RaisableAt(start, limit, n)) ==> r == start
  {
    r := start;
    var minLength := if |start| < |limit| then |start| else |limit|;
    var diff := 0;
    while diff < minLength && start[diff] == limit[diff]
      invariant 0 <= diff <= minLength && start[..diff] == limit[..diff] && Agree(start, limit, diff)
    {
      diff := diff + 1;
    }
    if diff < minLength && start[diff] < 255 && start[diff] + 1 < limit[diff] {
      RaisedAt(start, diff);
      r := start[..diff] + [start[diff] + 1];
      assert RaisableAt(start, limit, diff);
    }
    assert forall n: nat :: RaisableAt(start, limit, n) ==> n == diff;
  }

  predicate AllMax(s: seq<Byte>) {
    forall i :: 0 <= i < |s| ==> s[i] == 255
  }

  predicate FirstBelowMax(key: seq<Byte>, n: nat) {
    n < |key| && key[n] != 255 && forall i :: 0 <= i < n ==> key[i] == 255
  }

  /** The key is left alone exactly when it has no byte to raise, else it becomes a larger one that is no longer. */
  method FindShortSuccessor(key: seq<Byte>) returns (r: seq<Byte>)
    ensures if AllMax(key) then r == key else |r| <= |key| && Before(key, r)
    ensures forall n: nat :: FirstBelowMax(key, n) ==> r == key[..n] + [key[n] + 1]
  {
    for i := 0 to |key|
      invariant AllMax(key[..i]) && forall j :: 0 <= j < i ==> key[j] == 255
    {
      if key[i] != 255 {
        RaisedAt(key, i);
        assert forall n: nat :: FirstBelowMax(key, n) ==> n == i;
        return key[..i] + [key[i] + 1];
      }
    }
    assert key[..|key|] == key;
    r := key;
  }
}
