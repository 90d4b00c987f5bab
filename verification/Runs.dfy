/** Sequences of entries cut into consecutive runs, and positions in them. */
module Runs {
  import opened Format

  function Flatten(runs: seq<seq<Entry>>): seq<Entry> {
    if runs == [] then [] else Flatten(runs[..|runs| - 1]) + runs[|runs| - 1]
  }

  /** Position of each run inside the flattened output. */
  function Offset(runs: seq<seq<Entry>>, i: nat): nat
    requires i <= |runs|
  {
    if i == 0 then 0 else Offset(runs, i - 1) + |runs[i - 1]|
  }

  lemma {:induction false} FlattenAt(runs: seq<seq<Entry>>, i: nat, k: nat)
    requires i < |runs| && k < |runs[i]|
    ensures Offset(runs, |runs|) == |Flatten(runs)|
    ensures Offset(runs, i) + k < |Flatten(runs)|
    ensures Flatten(runs)[Offset(runs, i) + k] == runs[i][k]
    decreases |runs|
  {
    var n := |runs| - 1;
    var rest := runs[..n];
    OffsetPrefix(runs, n, n);
    OffsetPrefix(runs, n, i);
    OffsetLength(rest);
    if i < n {
      FlattenAt(rest, i, k);
    }
  }

  lemma {:induction false} OffsetLength(runs: seq<seq<Entry>>)
    ensures Offset(runs, |runs|) == |Flatten(runs)|
  {
    if runs != [] {
      var n := |runs| - 1;
      OffsetLength(runs[..n]);
      OffsetPrefix(runs, n, n);
    }
  }

  lemma {:induction false} OffsetPrefix(runs: seq<seq<Entry>>, n: nat, i: nat)
    requires i <= n <= |runs|
    ensures Offset(runs[..n], i) == Offset(runs, i)
    decreases i
  {
    if i > 0 {
      OffsetPrefix(runs, n, i - 1);
    }
  }

  lemma {:induction false} OffsetGrows(runs: seq<seq<Entry>>, i: nat, j: nat)
    requires i < j <= |runs|
    ensures Offset(runs, i) + |runs[i]| <= Offset(runs, j)
    decreases j
  {
    if i < j - 1 {
      OffsetGrows(runs, i, j - 1);
    }
  }

  lemma RunEntriesOrdered(runs: seq<seq<Entry>>, i: nat, k: nat, j: nat, m: nat)
    requires StrictlySorted(Flatten(runs)) && i < |runs| && k < |runs[i]| && j < |runs| && m < |runs[j]|
    ensures i < j || (i == j && k < m) ==> Less(runs[i][k].key, runs[j][m].key)
  {
    FlattenAt(runs, i, k);
    FlattenAt(runs, j, m);
    if i < j {
      OffsetGrows(runs, i, j);
    }
  }

  lemma {:induction false} FlattenMember(runs: seq<seq<Entry>>, e: Entry)
    ensures e in Flatten(runs) <==> exists i :: 0 <= i < |runs| && e in runs[i]
  {
    if runs != [] {
      var n := |runs| - 1;
      FlattenMember(runs[..n], e);
      assert forall i :: 0 <= i < n ==> runs[..n][i] == runs[i];
    }
  }

  /** The run and the place in it where an index of the flattened sequence falls. */
  lemma {:induction false} FindRun(runs: seq<seq<Entry>>, n: nat, j: nat) returns (i: nat, k: nat)
    requires n <= |runs| && j < Offset(runs, n)
    ensures i < n && k < |runs[i]| && Offset(runs, i) + k == j
    decreases n
  {
    if j < Offset(runs, n - 1) {
      i, k := FindRun(runs, n - 1, j);
    } else {
      i, k := n - 1, j - Offset(runs, n - 1);
    }
  }
}
