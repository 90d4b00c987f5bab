/**
Small things several modules share.
*/
module Common {

  datatype Option<+T> = None | Some(value: T)

  /** config::kNumLevels. */
  const NUM_LEVELS: nat := 7

  ghost predicate NoRepeats<T>(s: seq<T>) {
    forall i, j :: 0 <= i < j < |s| ==> s[i] != s[j]
  }

  lemma ConcatAssoc<T>(a: seq<T>, b: seq<T>, c: seq<T>)
    ensures a + (b + c) == a + b + c
  {
  }

  lemma SliceOfSlice<T>(s: seq<T>, a: nat, b: nat, i: nat, j: nat)
    requires i <= j && a + j <= b <= |s|
    ensures s[a..b][i..j] == s[a + i..a + j] == s[a + i..][..j - i]
  {
    var l, r, m := s[a..b][i..j], s[a + i..a + j], s[a + i..][..j - i];
    assert |l| == |r| == |m|;
    forall k | 0 <= k < |l| ensures l[k] == r[k] == m[k] {
      assert l[k] == s[a..b][i + k] && m[k] == s[a + i..][k];
    }
  }
}
