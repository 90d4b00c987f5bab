/** table/merger.cc: several sorted sources read as one, in both directions. */
module Merger {
  import opened Common
  import opened Format

  // ----- the merged sequence -----

  predicate Apart(e: Entry, f: Entry) {
    Less(e.key, f.key) || Less(f.key, e.key)
  }

  ghost predicate AllApart(a: seq<Entry>, b: seq<Entry>) {
    forall e, f :: e in a && f in b ==> Apart(e, f)
  }

  /** Sorted sources, no internal key in two of them. */
  ghost predicate SourcesOk(sources: seq<seq<Entry>>) {
    && (forall i :: 0 <= i < |sources| ==> StrictlySorted(sources[i]))
    && forall i, j :: 0 <= i < j < |sources| ==> AllApart(sources[i], sources[j])
  }

  ghost predicate Holds(sources: seq<seq<Entry>>, e: Entry) {
    exists i :: 0 <= i < |sources| && e in sources[i]
  }

  function Merge2(a: seq<Entry>, b: seq<Entry>): seq<Entry> {
    if a == [] then b
    else if b == [] then a
    else if Less(a[0].key, b[0].key) then [a[0]] + Merge2(a[1..], b)
    else [b[0]] + Merge2(a, b[1..])
  }

  /** The sources read as one sorted sequence. */
  function Merged(sources: seq<seq<Entry>>): seq<Entry> {
    if sources == [] then [] else Merge2(sources[0], Merged(sources[1..]))
  }

  lemma ConsSorted(e: Entry, es: seq<Entry>)
    requires StrictlySorted(es) && forall f :: f in es ==> Less(e.key, f.key)
    ensures StrictlySorted([e] + es)
  {}

  lemma HeadLeast(es: seq<Entry>)
    requires StrictlySorted(es) && es != []
    ensures StrictlySorted(es[1..])
    ensures forall f :: f in es[1..] ==> Less(es[0].key, f.key)
  {}

  lemma {:induction false} Merge2Sorted(a: seq<Entry>, b: seq<Entry>)
    requires StrictlySorted(a) && StrictlySorted(b) && AllApart(a, b)
    ensures StrictlySorted(Merge2(a, b))
    ensures forall e :: e in Merge2(a, b) <==> e in a || e in b
  {
    if a != [] && b != [] {
      HeadLeast(a);
      HeadLeast(b);
      assert a == [a[0]] + a[1..] && b == [b[0]] + b[1..];
      if Less(a[0].key, b[0].key) {
        Merge2Sorted(a[1..], b);
        ConsSorted(a[0], Merge2(a[1..], b));
      } else {
        assert Apart(a[0], b[0]);
        Merge2Sorted(a, b[1..]);
        ConsSorted(b[0], Merge2(a, b[1..]));
      }
    }
  }

  lemma {:induction false} MergedSorted(sources: seq<seq<Entry>>)
    requires SourcesOk(sources)
    ensures StrictlySorted(Merged(sources))
    ensures forall e :: e in Merged(sources) <==> Holds(sources, e)
  {
    if sources != [] {
      var rest := sources[1..];
      assert forall i :: 0 <= i < |rest| ==> rest[i] == sources[i + 1];
      MergedSorted(rest);
      assert AllApart(sources[0], Merged(rest)) by {
        forall e, f | e in sources[0] && f in Merged(rest) ensures Apart(e, f) {
          var i :| 0 <= i < |rest| && f in rest[i];
          assert AllApart(sources[0], sources[i + 1]);
        }
      }
      Merge2Sorted(sources[0], Merged(rest));
      forall e ensures Holds(sources, e) <==> e in sources[0] || Holds(rest, e) {
        if Holds(rest, e) {
          var i :| 0 <= i < |rest| && e in rest[i];
          assert e in sources[i + 1];
        }
      }
    }
  }

  // ----- where the children stand when the merge stands at index j -----

  /** How many entries of `es` come before index `j` of the merge. */
  function Cut(es: seq<Entry>, all: seq<Entry>, j: nat): (p: nat)
    ensures p <= |es|
  {
    if j < |all| then FirstAtOrAfter(es, all[j].key) else |es|
  }

  /** Sequence index functions of a child: an index, or the length when it is not valid. */
  function PrevOf(p: nat, n: nat): nat {
    if p == 0 then n else p - 1
  }

  lemma FirstIs(es: seq<Entry>, k: IKey, i: nat)
    requires StrictlySorted(es) && i <= |es|
    requires forall j :: 0 <= j < i ==> Less(es[j].key, k)
    requires i < |es| ==> AtMost(k, es[i].key)
    ensures FirstAtOrAfter(es, k) == i
  {
  }

  ghost predicate SubOf(es: seq<Entry>, all: seq<Entry>) {
    StrictlySorted(es) && StrictlySorted(all) && forall e :: e in es ==> e in all
  }

  /** The child holding the next entry of the merge stands on it and moves past it. */
  lemma CutOwner(es: seq<Entry>, all: seq<Entry>, j: nat)
    requires SubOf(es, all) && j < |all| && all[j] in es
    ensures Cut(es, all, j) < |es| && es[Cut(es, all, j)] == all[j]
    ensures Cut(es, all, j + 1) == Cut(es, all, j) + 1
  {
    var p: nat :| p < |es| && es[p] == all[j];
    FirstIs(es, all[j].key, p);
    if j + 1 < |all| {
      if p + 1 < |es| { NothingBetween(all, j, es[p + 1]); }
      FirstIs(es, all[j + 1].key, p + 1);
    } else if p + 1 < |es| {
      NothingBetween(all, j, es[p + 1]);
    }
  }

  /** Nothing sorts strictly between two neighbours of the merge. */
  lemma NothingBetween(all: seq<Entry>, j: nat, e: Entry)
    requires StrictlySorted(all) && j < |all| && e in all && Less(all[j].key, e.key)
    ensures j + 1 < |all| && AtMost(all[j + 1].key, e.key)
  {
    var i: nat :| i < |all| && all[i] == e;
    assert j + 1 < i ==> Less(all[j + 1].key, all[i].key);
  }

  /** A child that does not hold it stays where it is. */
  lemma CutOther(es: seq<Entry>, all: seq<Entry>, j: nat)
    requires SubOf(es, all) && j < |all| && all[j] !in es
    ensures Cut(es, all, j + 1) == Cut(es, all, j)
  {
    var p := Cut(es, all, j);
    if p < |es| {
      SameKeySameEntry(all, all[j], es[p]);
      NothingBetween(all, j, es[p]);
    }
    if j + 1 < |all| { FirstIs(es, all[j + 1].key, p); }
  }

  lemma SameKeySameEntry(all: seq<Entry>, e: Entry, f: Entry)
    requires StrictlySorted(all) && e in all && f in all
    ensures e == f || Apart(e, f)
  {
    var i: nat :| i < |all| && all[i] == e;
    var j: nat :| j < |all| && all[j] == f;
    assert i < j || i == j || j < i;
  }

  // ----- choosing the child to read from -----

  /** The child in `c` has the least key among the valid ones; none is valid when there is no such child. */
  ghost predicate Smallest(sources: seq<seq<Entry>>, pos: seq<nat>, n: nat, c: Option<nat>)
    requires |pos| == |sources| && n <= |pos|
  {
    match c
    case None => forall i :: 0 <= i < n ==> pos[i] >= |sources[i]|
    case Some(c) =>
      && c < n && pos[c] < |sources[c]|
      && forall i :: 0 <= i < n && pos[i] < |sources[i]| ==> AtMost(sources[c][pos[c]].key, sources[i][pos[i]].key)
  }

  ghost predicate Largest(sources: seq<seq<Entry>>, pos: seq<nat>, from: nat, c: Option<nat>)
    requires |pos| == |sources| && from <= |pos|
  {
    match c
    case None => forall i :: from <= i < |pos| ==> pos[i] >= |sources[i]|
    case Some(c) =>
      && from <= c < |pos| && pos[c] < |sources[c]|
      && forall i :: from <= i < |pos| && pos[i] < |sources[i]| ==> AtMost(sources[i][pos[i]].key, sources[c][pos[c]].key)
  }

  ghost predicate AtCut(sources: seq<seq<Entry>>, pos: seq<nat>, j: nat) {
    |pos| == |sources| && forall i :: 0 <= i < |pos| ==> pos[i] == Cut(sources[i], Merged(sources), j)
  }

  ghost predicate BeforeCut(sources: seq<seq<Entry>>, pos: seq<nat>, j: nat) {
    |pos| == |sources| && forall i :: 0 <= i < |pos| ==> pos[i] == PrevOf(Cut(sources[i], Merged(sources), j), |sources[i]|)
  }

  lemma SourceOfMerge(sources: seq<seq<Entry>>, i: nat)
    requires SourcesOk(sources) && i < |sources|
    ensures SubOf(sources[i], Merged(sources))
  {
    MergedSorted(sources);
    forall e | e in sources[i] ensures e in Merged(sources) { assert Holds(sources, e); }
  }

  lemma OwnerOf(sources: seq<seq<Entry>>, j: nat) returns (o: nat)
    requires SourcesOk(sources) && j < |Merged(sources)|
    ensures o < |sources| && Merged(sources)[j] in sources[o] && SubOf(sources[o], Merged(sources))
    ensures forall i :: 0 <= i < |sources| && i != o ==> Merged(sources)[j] !in sources[i]
  {
    MergedSorted(sources);
    assert Holds(sources, Merged(sources)[j]);
    o :| o < |sources| && Merged(sources)[j] in sources[o];
    SourceOfMerge(sources, o);
    forall i | 0 <= i < |sources| && i != o ensures Merged(sources)[j] !in sources[i] {
      assert i < o ==> AllApart(sources[i], sources[o]);
      assert o < i ==> AllApart(sources[o], sources[i]);
      assert !Apart(Merged(sources)[j], Merged(sources)[j]);
    }
  }

  /** With every child at the cut, the smallest child stands on the merge's own next entry. */
  lemma SmallestAtCut(sources: seq<seq<Entry>>, pos: seq<nat>, j: nat, c: Option<nat>)
    requires SourcesOk(sources) && AtCut(sources, pos, j) && Smallest(sources, pos, |pos|, c)
    ensures c.None? <==> j >= |Merged(sources)|
    ensures c.Some? ==> sources[c.value][pos[c.value]] == Merged(sources)[j]
  {
    var all := Merged(sources);
    if j < |all| {
      var o := OwnerOf(sources, j);
      CutOwner(sources[o], all, j);
      SourceOfMerge(sources, c.value);
      SameKeySameEntry(all, all[j], sources[c.value][pos[c.value]]);
    }
  }

  /** With every child just before the cut, the largest child stands on the merge's previous entry. */
  lemma LargestBeforeCut(sources: seq<seq<Entry>>, pos: seq<nat>, j: nat, c: Option<nat>)
    requires SourcesOk(sources) && j <= |Merged(sources)| && BeforeCut(sources, pos, j) && Largest(sources, pos, 0, c)
    ensures c.None? <==> j == 0
    ensures c.Some? ==> sources[c.value][pos[c.value]] == Merged(sources)[j - 1]
  {
    hide Merged, FirstAtOrAfter, StrictlySorted, SourcesOk, Less;
    var all := Merged(sources);
    forall i | 0 <= i < |sources| && pos[i] < |sources[i]| ensures j > 0 && AtMost(sources[i][pos[i]].key, all[j - 1].key) {
      SourceOfMerge(sources, i);
      EntryBeforeCut(sources[i], all, j);
    }
    if j > 0 {
      var o := OwnerOf(sources, j - 1);
      CutOwner(sources[o], all, j - 1);
      assert pos[o] < |sources[o]|;
      SourceOfMerge(sources, c.value);
      SameKeySameEntry(all, all[j - 1], sources[c.value][pos[c.value]]);
    }
  }

  lemma EntryBeforeCut(es: seq<Entry>, all: seq<Entry>, j: nat)
    requires SubOf(es, all) && j <= |all| && PrevOf(Cut(es, all, j), |es|) < |es|
    ensures j > 0 && AtMost(es[PrevOf(Cut(es, all, j), |es|)].key, all[j - 1].key)
  {
    var p := Cut(es, all, j);
    assert p > 0 && es[p - 1] in es;
    var i: nat :| i < |all| && all[i] == es[p - 1];
    assert j < |all| ==> Less(all[i].key, all[j].key);
    assert i < j;
    assert i < j - 1 ==> Less(all[i].key, all[j - 1].key);
  }

  datatype Direction = Forward | Reverse

  class MergingIterator {
    const sources: seq<seq<Entry>>
    var pos: seq<nat>
    var current: Option<nat>
    var direction: Direction
    /** Where the iterator stands in the merged sequence; its length when it is not valid. */
    ghost var at: nat

    ghost function All(): seq<Entry> {
      Merged(sources)
    }

    ghost predicate Valid()
      reads this
    {
      && SourcesOk(sources) && |pos| == |sources| && at <= |All()|
      && (current.None? <==> at == |All()|)
      && (current.Some? ==>
            && current.value < |pos| && pos[current.value] < |sources[current.value]|
            && sources[current.value][pos[current.value]] == All()[at]
            && (direction.Forward? ==> AtCut(sources, pos, at))
            && (direction.Reverse? ==> OthersBefore(at, current.value, |pos|)))
    }

    /** Children below `n` other than `c` stand just before index `j` of the merge. */
    ghost predicate OthersBefore(j: nat, c: nat, n: nat)
      reads this`pos
    {
      |pos| == |sources| && n <= |pos| &&
      forall i :: 0 <= i < n && i != c ==> pos[i] == PrevOf(Cut(sources[i], All(), j), |sources[i]|)
    }

    constructor (sources: seq<seq<Entry>>)
      requires SourcesOk(sources)
      ensures Valid() && this.sources == sources && at == |All()|
    {
      this.sources := sources;
      pos, current, direction, at := seq(|sources|, i requires 0 <= i < |sources| => |sources[i]|), None, Forward, |Merged(sources)|;
    }

    method FindSmallest()
      requires |pos| == |sources|
      modifies this`current
      ensures Smallest(sources, pos, |pos|, current)
    {
      var smallest: Option<nat> := None;
      for i := 0 to |pos|
        invariant Smallest(sources, pos, i, smallest)
      {
        if pos[i] < |sources[i]| {
          if smallest.None? || Less(sources[i][pos[i]].key, sources[smallest.value][pos[smallest.value]].key) {
            smallest := Some(i);
          }
        }
      }
      current := smallest;
    }

    method FindLargest()
      requires |pos| == |sources|
      modifies this`current
      ensures Largest(sources, pos, 0, current)
    {
      var largest: Option<nat> := None;
      for i := |pos| downto 0
        invariant Largest(sources, pos, i, largest)
      {
        if pos[i] < |sources[i]| {
          if largest.None? || Less(sources[largest.value][pos[largest.value]].key, sources[i][pos[i]].key) {
            largest := Some(i);
          }
        }
      }
      current := largest;
    }

    method SeekToFirst()
      requires Valid()
      modifies this
      ensures Valid() && at == 0
    {
      for i := 0 to |pos|
        invariant |pos| == |sources| && forall k :: 0 <= k < i ==> pos[k] == 0
      {
        pos := pos[i := 0];
      }
      CutAtStart(sources);
      FindSmallest();
      direction := Forward;
      at := 0;
      SmallestAtCut(sources, pos, 0, current);
    }

    method SeekToLast()
      requires Valid()
      modifies this
      ensures Valid() && at == if All() == [] then 0 else |All()| - 1
    {
      for i := 0 to |pos|
        invariant |pos| == |sources| && forall k :: 0 <= k < i ==> pos[k] == PrevOf(|sources[k]|, |sources[k]|)
      {
        pos := pos[i := PrevOf(|sources[i]|, |sources[i]|)];
      }
      FindLargest();
      direction := Reverse;
      Retreat(|All()|);
    }

    method Seek(target: IKey)
      requires Valid()
      modifies this
      ensures Valid() && at == FirstAtOrAfter(All(), target)
    {
      for i := 0 to |pos|
        invariant |pos| == |sources| && forall k :: 0 <= k < i ==> pos[k] == FirstAtOrAfter(sources[k], target)
      {
        pos := pos[i := FirstAtOrAfter(sources[i], target)];
      }
      at := FirstAtOrAfter(All(), target);
      CutAtTarget(sources, target);
      FindSmallest();
      direction := Forward;
      SmallestAtCut(sources, pos, at, current);
    }

    method Next()
      requires Valid() && IsValid()
      modifies this
      ensures Valid() && at == old(at) + 1
    {
      hide Merged, FirstAtOrAfter;
      var c := current.value;
      if direction.Reverse? {
        TurnForward(c);
        direction := Forward;
      }
      StepOver(sources, pos, at, c);
      pos := pos[c := pos[c] + 1];
      at := at + 1;
      FindSmallest();
      SmallestAtCut(sources, pos, at, current);
    }

    /** Repositions every other child after the current key. */
    method TurnForward(c: nat)
      requires Valid() && current == Some(c) && direction.Reverse?
      modifies this`pos
      ensures AtCut(sources, pos, at) && pos[c] == old(pos[c])
    {
      hide Merged;
      var key := Key();
      SourceOfMerge(sources, c);
      CutOwner(sources[c], All(), at);
      assert pos[c] == Cut(sources[c], All(), at) by {
        FirstIs(sources[c], key, pos[c]);
      }
      for i := 0 to |pos|
        invariant |pos| == |sources| && pos[c] == old(pos)[c]
        invariant forall k :: 0 <= k < i && k != c ==> pos[k] == Cut(sources[k], All(), at)
      {
        if i != c {
          NotHeldTwice(sources, c, i);
          var p := FirstAtOrAfter(sources[i], key);
          pos := pos[i := if p < |sources[i]| && sources[i][p].key == key then p + 1 else p];
        }
      }
    }

    method Prev()
      requires Valid() && IsValid()
      modifies this
      ensures Valid() && at == if old(at) == 0 then |All()| else old(at) - 1
    {
      hide Merged, FirstAtOrAfter;
      var c := current.value;
      SourceOfMerge(sources, c);
      CutOwner(sources[c], All(), at);
      FirstIs(sources[c], Key(), pos[c]);
      if direction.Forward? {
        TurnBackward(c);
        direction := Reverse;
      }
      pos := pos[c := PrevOf(pos[c], |sources[c]|)];
      FindLargest();
      Retreat(at);
    }

    /** Repositions every other child before the current key. */
    method TurnBackward(c: nat)
      requires Valid() && current == Some(c)
      modifies this`pos
      ensures OthersBefore(at, c, |pos|) && pos[c] == old(pos[c])
    {
      hide Merged;
      var key := Key();
      for i := 0 to |pos|
        invariant OthersBefore(at, c, i) && pos[c] == old(pos)[c]
      {
        if i != c {
          var p := FirstAtOrAfter(sources[i], key);
          pos := pos[i := if p < |sources[i]| then PrevOf(p, |sources[i]|) else PrevOf(|sources[i]|, |sources[i]|)];
        }
      }
    }

    function IsValid(): (b: bool)
      requires Valid()
      reads this
      ensures b <==> at < |All()|
      ensures at <= |All()|
    {
      current.Some?
    }

    function Key(): IKey
      requires Valid() && current.Some?
      reads this
    {
      sources[current.value][pos[current.value]].key
    }

    function CurrentEntry(): (e: Entry)
      requires Valid() && IsValid()
      reads this
      ensures e == All()[at]
    {
      sources[current.value][pos[current.value]]
    }

    /** Every child stands before index `j`, and the largest was chosen: the iterator stands at j - 1. */
    ghost method Retreat(j: nat)
      requires SourcesOk(sources) && j <= |All()| && BeforeCut(sources, pos, j) && Largest(sources, pos, 0, current)
      requires direction.Reverse?
      modifies this`at
      ensures Valid() && at == if j == 0 then |All()| else j - 1
    {
      LargestBeforeCut(sources, pos, j, current);
      at := if j == 0 then |All()| else j - 1;
      if j > 0 {
        var o := OwnerOf(sources, j - 1);
        forall i | 0 <= i < |pos| && i != current.value
          ensures pos[i] == PrevOf(Cut(sources[i], All(), j - 1), |sources[i]|)
        {
          SourceOfMerge(sources, i);
          CutOther(sources[i], All(), j - 1);
        }
      }
    }
  }

  lemma CutAtStart(sources: seq<seq<Entry>>)
    requires SourcesOk(sources)
    ensures forall i :: 0 <= i < |sources| ==> Cut(sources[i], Merged(sources), 0) == 0
  {
    forall i | 0 <= i < |sources| ensures Cut(sources[i], Merged(sources), 0) == 0 {
      SourceOfMerge(sources, i);
      if sources[i] != [] {
        assert sources[i][0] in sources[i];
      }
    }
  }

  lemma CutAtTarget(sources: seq<seq<Entry>>, target: IKey)
    requires SourcesOk(sources)
    ensures forall i :: 0 <= i < |sources| ==>
              FirstAtOrAfter(sources[i], target) == Cut(sources[i], Merged(sources), FirstAtOrAfter(Merged(sources), target))
  {
    var all := Merged(sources);
    var j := FirstAtOrAfter(all, target);
    forall i | 0 <= i < |sources| ensures FirstAtOrAfter(sources[i], target) == Cut(sources[i], all, j) {
      SourceOfMerge(sources, i);
      var es := sources[i];
      var p := FirstAtOrAfter(es, target);
      if p < |es| {
        assert es[p] in es;
        var q: nat :| q < |all| && all[q] == es[p];
        assert j <= q;
        assert j < q ==> Less(all[j].key, all[q].key);
      }
      if j < |all| { FirstIs(es, all[j].key, p); }
    }
  }

  lemma NotHeldTwice(sources: seq<seq<Entry>>, c: nat, i: nat)
    requires SourcesOk(sources) && c < |sources| && i < |sources| && i != c
    ensures forall e, f :: e in sources[c] && f in sources[i] ==> e.key != f.key
  {
    assert c < i ==> AllApart(sources[c], sources[i]);
    assert i < c ==> AllApart(sources[i], sources[c]);
  }

  /** Moving the child that holds entry j moves the whole cut from j to j + 1. */
  lemma StepOver(sources: seq<seq<Entry>>, pos: seq<nat>, j: nat, c: nat)
    requires SourcesOk(sources) && AtCut(sources, pos, j) && j < |Merged(sources)|
    requires c < |sources| && Merged(sources)[j] in sources[c]
    ensures AtCut(sources, pos[c := pos[c] + 1], j + 1)
  {
    var o := OwnerOf(sources, j);
    forall i | 0 <= i < |sources| ensures pos[c := pos[c] + 1][i] == Cut(sources[i], Merged(sources), j + 1) {
      SourceOfMerge(sources, i);
      if i == c { CutOwner(sources[i], Merged(sources), j); } else { CutOther(sources[i], Merged(sources), j); }
    }
  }
}
