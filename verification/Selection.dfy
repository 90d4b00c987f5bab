/**
Choosing the inputs of a compaction from `level` into `level + 1`.
*/
module Selection {
  import opened Common
  import opened Format
  import opened VersionModel
  import opened Lookup
  import opened Builder

  // ----- extreme keys of a set of files -----

  ghost predicate IsMaxLargest(files: Level, m: IKey) {
    (exists f :: f in files && f.largest == m) && forall f :: f in files ==> AtMost(f.largest, m)
  }

  ghost predicate IsMinSmallest(files: Level, m: IKey) {
    (exists f :: f in files && f.smallest == m) && forall f :: f in files ==> AtMost(m, f.smallest)
  }

  method FindLargestKey(files: Level) returns (largest: Option<IKey>)
    ensures largest.Some? <==> files != []
    ensures largest.Some? ==> IsMaxLargest(files, largest.value)
  {
    if files == [] {
      return None;
    }
    var m := files[0].largest;
    for i := 1 to |files|
      invariant IsMaxLargest(files[..i], m)
    {
      assert files[..i + 1] == files[..i] + [files[i]];
      if Less(m, files[i].largest) {
        m := files[i].largest;
      }
    }
    assert files[..|files|] == files;
    largest := Some(m);
  }

  /** VersionSet::GetRange: the least internal-key range around all the files. */
  method GetRange(inputs: Level) returns (smallest: IKey, largest: IKey)
    requires inputs != []
    ensures IsMinSmallest(inputs, smallest) && IsMaxLargest(inputs, largest)
  {
    smallest, largest := inputs[0].smallest, inputs[0].largest;
    for i := 1 to |inputs|
      invariant IsMinSmallest(inputs[..i], smallest) && IsMaxLargest(inputs[..i], largest)
    {
      assert inputs[..i + 1] == inputs[..i] + [inputs[i]];
      if Less(inputs[i].smallest, smallest) {
        smallest := inputs[i].smallest;
      }
      if Less(largest, inputs[i].largest) {
        largest := inputs[i].largest;
      }
    }
    assert inputs[..|inputs|] == inputs;
  }

  // ----- inputs without gaps -----

  ghost predicate Covered(files: Level, x: UserKey) {
    exists h :: h in files && Covers(h, x)
  }

  ghost predicate InSpan(files: Level, x: UserKey) {
    (exists f :: f in files && f.smallest.user <= x) && (exists g :: g in files && x <= g.largest.user)
  }

  /** Every user key between the least and the greatest lies inside some file's range. */
  ghost predicate Gapless(files: Level) {
    forall x :: InSpan(files, x) ==> Covered(files, x)
  }

  lemma GaplessSingle(f: File)
    ensures Gapless([f])
  {
    forall x | InSpan([f], x) ensures Covered([f], x) {
      assert f in [f] && Covers(f, x);
    }
  }

  /** Adding a file that touches the span leaves no gap. */
  lemma GaplessAdd(files: Level, b: File, y: UserKey)
    requires Gapless(files) && InSpan(files, y) && Covers(b, y)
    ensures Gapless(files + [b])
  {
    var out := files + [b];
    forall x | InSpan(out, x) ensures Covered(out, x) {
      if InSpan(files, x) {
        var h :| h in files && Covers(h, x);
        assert h in out;
      } else {
        assert b in out && Covers(b, x);
      }
    }
  }

  lemma GaplessMembers(files: Level, other: Level)
    requires Gapless(files) && forall f :: f in files <==> f in other
    ensures Gapless(other)
  {
    forall x | InSpan(other, x) ensures Covered(other, x) {
      assert InSpan(files, x);
    }
  }

  lemma TouchesHull(files: Level, lo: UserKey, hi: UserKey, b: File) returns (y: UserKey)
    requires Hull(files, lo, hi) && lo <= hi && Overlaps(b, Some(lo), Some(hi)) && b.smallest.user <= b.largest.user
    ensures InSpan(files, y) && Covers(b, y)
  {
    y := if b.smallest.user < lo then lo else b.smallest.user;
  }

  lemma {:induction false} GaplessUnion(files: Level, lo: UserKey, hi: UserKey, more: Level)
    requires Gapless(files) && Hull(files, lo, hi) && lo <= hi
    requires forall b :: b in more ==> Overlaps(b, Some(lo), Some(hi)) && b.smallest.user <= b.largest.user
    ensures Gapless(files + more)
  {
    if more == [] {
      assert files + more == files;
    } else {
      var n := |more| - 1;
      var b := more[n];
      assert more == more[..n] + [b];
      GaplessUnion(files, lo, hi, more[..n]);
      var y := TouchesHull(files, lo, hi, b);
      SpanGrows(files, more[..n], y);
      GaplessAdd(files + more[..n], b, y);
      assert files + more[..n] + [b] == files + more;
    }
  }

  lemma SpanGrows(files: Level, more: Level, y: UserKey)
    requires InSpan(files, y)
    ensures InSpan(files + more, y)
  {
    var f :| f in files && f.smallest.user <= y;
    var g :| g in files && y <= g.largest.user;
    assert f in files + more && g in files + more;
  }

  /** The least file start above `x`, or `top` if that is lower. */
  lemma {:induction false} LeastStartAbove(files: Level, x: UserKey, top: UserKey) returns (m: UserKey)
    requires x < top
    ensures x < m <= top && forall f :: f in files && x < f.smallest.user ==> m <= f.smallest.user
  {
    m := top;
    if files != [] {
      assert files == [files[0]] + files[1..];
      m := LeastStartAbove(files[1..], x, top);
      if x < files[0].smallest.user < m {
        m := files[0].smallest.user;
      }
    }
  }

  lemma {:induction false} GreatestEndBelow(files: Level, x: UserKey, bottom: UserKey) returns (m: UserKey)
    requires bottom < x
    ensures bottom <= m < x && forall f :: f in files && f.largest.user < x ==> f.largest.user <= m
  {
    m := bottom;
    if files != [] {
      assert files == [files[0]] + files[1..];
      m := GreatestEndBelow(files[1..], x, bottom);
      if m < files[0].largest.user < x {
        m := files[0].largest.user;
      }
    }
  }

  /** Widening never jumps over an uncovered key: below it a smaller range would already be closed. */
  lemma NothingBelowGap(files: Level, begin: UserKey, end: UserKey, lo: UserKey, hi: UserKey, x: UserKey)
    requires ClosedRange(files, Some(lo), Some(hi)) && NoWiderThanNeeded(files, Some(begin), Some(end), Some(lo), Some(hi))
    requires x < begin && end <= hi && !Covered(Overlapping(files, Some(lo), Some(hi)), x)
    ensures x < lo
  {
    var inputs := Overlapping(files, Some(lo), Some(hi));
    var lo' := LeastStartAbove(files, x, begin);
    if lo' > lo {
      forall f | f in files && Overlaps(f, Some(lo'), Some(hi)) ensures lo' <= f.smallest.user && f.largest.user <= hi {
        assert f in inputs && !Covers(f, x);
      }
      assert ClosedRange(files, Some(lo'), Some(hi)) && RangeContains(Some(lo'), Some(hi), Some(begin), Some(end));
    }
  }

  lemma NothingAboveGap(files: Level, begin: UserKey, end: UserKey, lo: UserKey, hi: UserKey, x: UserKey)
    requires ClosedRange(files, Some(lo), Some(hi)) && NoWiderThanNeeded(files, Some(begin), Some(end), Some(lo), Some(hi))
    requires end < x && lo <= begin && !Covered(Overlapping(files, Some(lo), Some(hi)), x)
    ensures hi < x
  {
    var inputs := Overlapping(files, Some(lo), Some(hi));
    var hi' := GreatestEndBelow(files, x, end);
    if hi' < hi {
      forall f | f in files && Overlaps(f, Some(lo), Some(hi')) ensures lo <= f.smallest.user && f.largest.user <= hi' {
        assert f in inputs && !Covers(f, x);
      }
      assert ClosedRange(files, Some(lo), Some(hi')) && RangeContains(Some(lo), Some(hi'), Some(begin), Some(end));
    }
  }

  /** The closure of a request that a gapless core fills is gapless together with that core. */
  lemma ClosureGapless(files: Level, core: Level, begin: UserKey, end: UserKey, lo: UserKey, hi: UserKey)
    requires ClosedRange(files, Some(lo), Some(hi)) && NoWiderThanNeeded(files, Some(begin), Some(end), Some(lo), Some(hi))
    requires lo <= begin && end <= hi && Hull(core, begin, end) && Gapless(core)
    ensures Gapless(Overlapping(files, Some(lo), Some(hi)) + core)
  {
    var inputs := Overlapping(files, Some(lo), Some(hi));
    var all := inputs + core;
    forall x | InSpan(all, x) ensures Covered(all, x) {
      if begin <= x <= end {
        assert InSpan(core, x);
        var h :| h in core && Covers(h, x);
        assert h in all;
      } else if Covered(inputs, x) {
        var h :| h in inputs && Covers(h, x);
        assert h in all;
      } else if x < begin {
        NothingBelowGap(files, begin, end, lo, hi, x);
      } else {
        NothingAboveGap(files, begin, end, lo, hi, x);
      }
    }
  }

  // ----- boundary files -----

  /** `f` starts after `m` but still inside the entries of m's user key. */
  predicate BoundaryFile(f: File, m: IKey) {
    Less(m, f.smallest) && f.smallest.user == m.user
  }

  method FindSmallestBoundaryFile(levelFiles: Level, largest: IKey) returns (r: Option<File>)
    ensures r.None? ==> forall f :: f in levelFiles ==> !BoundaryFile(f, largest)
    ensures r.Some? ==> r.value in levelFiles && BoundaryFile(r.value, largest)
    ensures r.Some? ==> forall f :: f in levelFiles && BoundaryFile(f, largest) ==> AtMost(r.value.smallest, f.smallest)
  {
    r := None;
    for i := 0 to |levelFiles|
      invariant r.None? ==> forall f :: f in levelFiles[..i] ==> !BoundaryFile(f, largest)
      invariant r.Some? ==> r.value in levelFiles && BoundaryFile(r.value, largest)
      invariant r.Some? ==> forall f :: f in levelFiles[..i] && BoundaryFile(f, largest) ==>
                  AtMost(r.value.smallest, f.smallest)
    {
      assert levelFiles[..i + 1] == levelFiles[..i] + [levelFiles[i]];
      var f := levelFiles[i];
      if Less(largest, f.smallest) && f.smallest.user == largest.user {
        if r.None? || Less(f.smallest, r.value.smallest) {
          r := Some(f);
        }
      }
    }
    assert levelFiles[..|levelFiles|] == levelFiles;
  }

  ghost predicate BoundaryClosed(levelFiles: Level, files: Level) {
    forall m, f :: IsMaxLargest(files, m) && f in levelFiles ==> !BoundaryFile(f, m)
  }

  /** No file of the level is skipped between two chosen ones. */
  ghost predicate Run(levelFiles: Level, files: Level) {
    forall i, j, k :: 0 <= i < j < k < |levelFiles| && levelFiles[i] in files && levelFiles[k] in files ==>
      levelFiles[j] in files
  }

  /** Files starting after `m`: what the boundary search has left to find. */
  function StartingAfter(levelFiles: Level, m: IKey): nat {
    if levelFiles == [] then 0
    else (if Less(m, levelFiles[0].smallest) then 1 else 0) + StartingAfter(levelFiles[1..], m)
  }

  lemma {:induction false} StartingAfterShrinks(levelFiles: Level, m: IKey, b: File)
    requires Less(m, b.smallest) && AtMost(b.smallest, b.largest)
    ensures StartingAfter(levelFiles, b.largest) <= StartingAfter(levelFiles, m)
    ensures b in levelFiles ==> StartingAfter(levelFiles, b.largest) < StartingAfter(levelFiles, m)
  {
    if levelFiles != [] {
      assert levelFiles == [levelFiles[0]] + levelFiles[1..];
      StartingAfterShrinks(levelFiles[1..], m, b);
    }
  }

  ghost predicate NoDuplicates(files: Level) {
    forall i, j :: 0 <= i < j < |files| ==> files[i] != files[j]
  }

  /** In a sorted level the largest key is that of the chosen file furthest along. */
  lemma MaxIsLast(levelFiles: Level, files: Level, m: IKey) returns (z: nat)
    requires FilesOk(levelFiles) && LevelSorted(levelFiles) && (forall f :: f in files ==> f in levelFiles)
    requires IsMaxLargest(files, m)
    ensures z < |levelFiles| && levelFiles[z] in files && levelFiles[z].largest == m
    ensures forall k :: z < k < |levelFiles| ==> levelFiles[k] !in files
  {
    var f :| f in files && f.largest == m;
    z :| 0 <= z < |levelFiles| && levelFiles[z] == f;
    forall k | z < k < |levelFiles| ensures levelFiles[k] !in files {
      RangeOk(levelFiles[k]);
      assert Less(levelFiles[z].largest, levelFiles[k].smallest);
    }
  }

  lemma SortedLargest(levelFiles: Level, k: nat, j: nat)
    requires FilesOk(levelFiles) && LevelSorted(levelFiles) && k < |levelFiles| && j < |levelFiles|
    ensures k <= j ==> AtMost(levelFiles[k].smallest, levelFiles[j].largest)
  {
    RangeOk(levelFiles[k]);
    RangeOk(levelFiles[j]);
  }

  /** In a sorted level the smallest boundary file is the very next one. */
  lemma NextIsBoundary(levelFiles: Level, z: nat, k: nat, m: IKey)
    requires FilesOk(levelFiles) && LevelSorted(levelFiles)
    requires z < |levelFiles| && m == levelFiles[z].largest
    requires k < |levelFiles| && BoundaryFile(levelFiles[k], m)
    requires forall f :: f in levelFiles && BoundaryFile(f, m) ==> AtMost(levelFiles[k].smallest, f.smallest)
    ensures k == z + 1
  {
    SortedLargest(levelFiles, k, z);
    assert k > z;
    if k > z + 1 {
      var next := levelFiles[z + 1];
      RangeOk(next);
      assert Less(next.largest, levelFiles[k].smallest);
      assert Less(m, next.smallest);
      assert next in levelFiles && BoundaryFile(next, m);
    }
  }

  lemma IndicesDiffer(levelFiles: Level, i: nat, j: nat)
    requires FilesOk(levelFiles) && LevelSorted(levelFiles) && i < |levelFiles| && j < |levelFiles|
    ensures i != j ==> levelFiles[i] != levelFiles[j]
  {
    RangeOk(levelFiles[i]);
    RangeOk(levelFiles[j]);
  }

  /** In a sorted level the boundary search extends a run to a run. */
  lemma BoundaryExtendsRun(levelFiles: Level, files: Level, m: IKey, b: File)
    requires FilesOk(levelFiles) && LevelSorted(levelFiles) && (forall f :: f in files ==> f in levelFiles)
    requires Run(levelFiles, files) && IsMaxLargest(files, m)
    requires b in levelFiles && BoundaryFile(b, m)
    requires forall f :: f in levelFiles && BoundaryFile(f, m) ==> AtMost(b.smallest, f.smallest)
    ensures Run(levelFiles, files + [b])
  {
    var z := MaxIsLast(levelFiles, files, m);
    var y :| 0 <= y < |levelFiles| && levelFiles[y] == b;
    NextIsBoundary(levelFiles, z, y, m);
    var out := files + [b];
    forall i, j, k | 0 <= i < j < k < |levelFiles| && levelFiles[i] in out && levelFiles[k] in out
      ensures levelFiles[j] in out
    {
      IndicesDiffer(levelFiles, i, y);
      IndicesDiffer(levelFiles, k, y);
      assert i != y ==> levelFiles[i] in files;
      assert k != y ==> levelFiles[k] in files;
      if k == y && j < z {
        assert levelFiles[z] in files;
      }
    }
  }

  /**
  `out` extends `files` with files of the level, none twice; a run stays a run, and no gap
  opens next to the files `beside`.
  */
  ghost predicate Extends(levelFiles: Level, files: Level, out: Level, beside: Level) {
    && files <= out
    && (forall f :: f in out ==> f in files || f in levelFiles)
    && (NoDuplicates(files) ==> NoDuplicates(out))
    && (BoundaryClosed(levelFiles, files) ==> out == files)
    && (LevelSorted(levelFiles) && Run(levelFiles, files) && (forall f :: f in files ==> f in levelFiles) ==>
         Run(levelFiles, out))
    && (FilesOk(files) && InFileOrder(files) ==> InFileOrder(out))
    && (FilesOk(files) && Gapless(files + beside) ==> Gapless(out + beside))
  }

  /** `b` is the first file of the level that continues the last user key of `files`. */
  ghost predicate NextBoundary(levelFiles: Level, files: Level, b: File) {
    exists m :: IsMaxLargest(files, m) && b in levelFiles && BoundaryFile(b, m) &&
      forall f :: f in levelFiles && BoundaryFile(f, m) ==> AtMost(b.smallest, f.smallest)
  }

  /** Every file added to `files` was the next one needed, and no more is. */
  ghost predicate BoundaryClosure(levelFiles: Level, files: Level, out: Level) {
    Chained(levelFiles, files, out) && BoundaryClosed(levelFiles, out)
  }

  ghost predicate Chained(levelFiles: Level, files: Level, out: Level) {
    files <= out && forall k :: |files| <= k < |out| ==> NextBoundary(levelFiles, out[..k], out[k])
  }

  lemma ChainMore(levelFiles: Level, files: Level, out: Level, b: File)
    requires Chained(levelFiles, files, out) && NextBoundary(levelFiles, out, b)
    ensures Chained(levelFiles, files, out + [b])
  {
    hide NextBoundary;
    var more := out + [b];
    forall k | |files| <= k < |more| ensures NextBoundary(levelFiles, more[..k], more[k]) {
      if k < |out| {
        assert more[..k] == out[..k];
      } else {
        assert more[..k] == out;
      }
    }
  }

  lemma BoundaryTouches(out: Level, m: IKey, b: File, beside: Level)
    requires Gapless(out + beside) && FilesOk(out) && IsMaxLargest(out, m) && BoundaryFile(b, m) && FileOk(b)
    ensures Gapless(out + [b] + beside)
  {
    var f :| f in out && f.largest == m;
    RangeOk(f);
    RangeOk(b);
    assert InSpan(out, m.user);
    SpanGrows(out, beside, m.user);
    GaplessAdd(out + beside, b, m.user);
    GaplessMembers(out + beside + [b], out + [b] + beside);
  }

  lemma ExtendOnce(levelFiles: Level, files: Level, out: Level, m: IKey, b: File, beside: Level)
    requires FilesOk(levelFiles)
    requires Extends(levelFiles, files, out, beside) && IsMaxLargest(out, m)
    requires b in levelFiles && BoundaryFile(b, m)
    requires forall f :: f in levelFiles && BoundaryFile(f, m) ==> AtMost(b.smallest, f.smallest)
    ensures Extends(levelFiles, files, out + [b], beside) && IsMaxLargest(out + [b], b.largest)
  {
    hide FileOk, Gapless, LevelSorted, InFileOrder;
    NewMax(out, m, b);
    assert !BoundaryClosed(levelFiles, out);
    if FilesOk(files) && InFileOrder(files) {
      BoundaryInOrder(out, m, b);
    }
    if FilesOk(files) && Gapless(files + beside) {
      BoundaryTouches(out, m, b, beside);
    }
    if LevelSorted(levelFiles) && Run(levelFiles, files) && forall f :: f in files ==> f in levelFiles {
      BoundaryExtendsRun(levelFiles, out, m, b);
    }
  }

  lemma BoundaryInOrder(out: Level, m: IKey, b: File)
    requires FilesOk(out) && InFileOrder(out) && IsMaxLargest(out, m) && BoundaryFile(b, m)
    ensures InFileOrder(out + [b])
  {
    forall f | f in out ensures FileLess(f, b) {
      RangeOk(f);
    }
  }

  lemma NewMax(out: Level, m: IKey, b: File)
    requires IsMaxLargest(out, m) && FileOk(b) && BoundaryFile(b, m)
    ensures b !in out && IsMaxLargest(out + [b], b.largest)
  {
    RangeOk(b);
    assert b in out + [b];
  }

  /** Extends the chosen files with every later file that continues the last user key. */
  method AddBoundaryInputs(levelFiles: Level, files: Level, ghost beside: Level) returns (out: Level)
    requires FilesOk(levelFiles)
    ensures Extends(levelFiles, files, out, beside)
    ensures BoundaryClosure(levelFiles, files, out)
  {
    out := files;
    var largest := FindLargestKey(files);
    if largest.None? {
      return;
    }
    var key := largest.value;
    var continueSearching := true;
    while continueSearching
      invariant Extends(levelFiles, files, out, beside) && IsMaxLargest(out, key) && Chained(levelFiles, files, out)
      invariant !continueSearching ==> forall f :: f in levelFiles ==> !BoundaryFile(f, key)
      decreases continueSearching, StartingAfter(levelFiles, key)
    {
      var b := FindSmallestBoundaryFile(levelFiles, key);
      if b.Some? {
        RangeOk(b.value);
        StartingAfterShrinks(levelFiles, key, b.value);
        ExtendOnce(levelFiles, files, out, key, b.value, beside);
        assert NextBoundary(levelFiles, out, b.value);
        ChainMore(levelFiles, files, out, b.value);
        out := out + [b.value];
        key := b.value.largest;
      } else {
        continueSearching := false;
      }
    }
    MaxUnique(out, key);
  }

  lemma MaxUnique(files: Level, m: IKey)
    requires IsMaxLargest(files, m)
    ensures forall m' :: IsMaxLargest(files, m') ==> m'.user == m.user && Tag(m') == Tag(m)
  {
  }

  // ----- what a selection must satisfy -----

  /** Of any user key they share, the files left behind hold only newer entries. */
  ghost predicate SelectedAreOldest(levelFiles: Level, files: Level) {
    forall f, g :: f in files && g in levelFiles && g !in files ==>
      Newer(SetOf(g.entries), SetOf(f.entries))
  }

  /** [lo, hi] is the least user-key range around the files. */
  ghost predicate Hull(files: Level, lo: UserKey, hi: UserKey) {
    && (forall f :: f in files ==> lo <= f.smallest.user && f.largest.user <= hi)
    && (exists f :: f in files && f.smallest.user == lo)
    && (exists f :: f in files && f.largest.user == hi)
  }

  /** `hits` are the files of a level that overlap the user-key hull of `around`. */
  ghost predicate OverlapHull(levelFiles: Level, around: Level, hits: Level) {
    exists lo, hi :: Hull(around, lo, hi) && hits == Overlapping(levelFiles, Some(lo), Some(hi))
  }

  ghost predicate GoodSelection(v: Version, level: nat, in0: Level, in1: Level)
    requires |v.levels| == NUM_LEVELS && level + 1 < NUM_LEVELS
  {
    && in0 != []
    && (forall f :: f in in0 ==> f in v.levels[level])
    && SelectedAreOldest(v.levels[level], in0)
    && (InFileOrder(v.levels[level]) ==> InFileOrder(in0))
    && OverlapHull(v.levels[level + 1], in0, in1)
  }

  lemma RangeIsHull(files: Level, smallest: IKey, largest: IKey)
    requires IsMinSmallest(files, smallest) && IsMaxLargest(files, largest)
    ensures Hull(files, smallest.user, largest.user)
  {
  }

  /** Past the end of a boundary-closed run no entry shares a user key with the run. */
  lemma NoOlderPastRun(levelFiles: Level, files: Level, m: IKey, x: nat, y: nat, b: Entry, a: Entry)
    requires FilesOk(levelFiles) && LevelSorted(levelFiles) && (forall f :: f in files ==> f in levelFiles)
    requires Run(levelFiles, files) && BoundaryClosed(levelFiles, files) && IsMaxLargest(files, m)
    requires x < y < |levelFiles| && levelFiles[x] in files && levelFiles[y] !in files
    requires b in levelFiles[x].entries && a in levelFiles[y].entries
    ensures a.key.user != b.key.user
  {
    var z := MaxIsLast(levelFiles, files, m);
    assert x <= z < y;
    var next := levelFiles[z + 1];
    EntryInRange(levelFiles[x], b);
    EntryInRange(levelFiles[y], a);
    RangeOk(levelFiles[z]);
    RangeOk(next);
    assert z + 1 < y ==> Less(next.largest, levelFiles[y].smallest);
    assert Less(levelFiles[z].largest, next.smallest);
    assert x < z ==> Less(levelFiles[x].largest, levelFiles[z].smallest);
    assert next in levelFiles && !BoundaryFile(next, m);
  }

  /** Within a sorted level, of one user key the earlier file holds the newer entries. */
  lemma EarlierIsNewer(levelFiles: Level, x: nat, y: nat, b: Entry, a: Entry)
    requires FilesOk(levelFiles) && LevelSorted(levelFiles)
    requires x < |levelFiles| && y < |levelFiles| && b in levelFiles[x].entries && a in levelFiles[y].entries
    requires a.key.user == b.key.user && (a.key.seqno == b.key.seqno ==> a == b)
    ensures y < x ==> a.key.seqno > b.key.seqno
  {
    var f, g := levelFiles[x], levelFiles[y];
    EntryInRange(f, b);
    EntryInRange(g, a);
    if y < x {
      assert Less(g.largest, f.smallest);
      assert Tag(a.key) > Tag(b.key);
    }
  }

  lemma DistinctInLevel(levelFiles: Level, f: File, g: File, b: Entry, a: Entry)
    requires Distinct(LevelSet(levelFiles)) && f in levelFiles && g in levelFiles
    requires b in f.entries && a in g.entries
    ensures a.key.user == b.key.user && a.key.seqno == b.key.seqno ==> a == b
  {
    assert a in LevelSet(levelFiles) && b in LevelSet(levelFiles);
  }

  lemma RunPairNewer(levelFiles: Level, files: Level, m: IKey, f: File, g: File, b: Entry, a: Entry)
    requires FilesOk(levelFiles) && LevelSorted(levelFiles) && (forall h :: h in files ==> h in levelFiles)
    requires Run(levelFiles, files) && BoundaryClosed(levelFiles, files) && IsMaxLargest(files, m)
    requires f in files && g in levelFiles && g !in files && b in f.entries && a in g.entries
    requires a.key.user == b.key.user && (a.key.seqno == b.key.seqno ==> a == b)
    ensures a.key.seqno > b.key.seqno
  {
    var x :| 0 <= x < |levelFiles| && levelFiles[x] == f;
    var y :| 0 <= y < |levelFiles| && levelFiles[y] == g;
    EarlierIsNewer(levelFiles, x, y, b, a);
    if x < y {
      NoOlderPastRun(levelFiles, files, m, x, y, b, a);
    }
  }

  /** A boundary-closed run of a sorted level is oldest: older entries would sit in the next file. */
  lemma RunIsOldest(levelFiles: Level, files: Level, m: IKey)
    requires FilesOk(levelFiles) && LevelSorted(levelFiles) && (forall f :: f in files ==> f in levelFiles)
    requires Run(levelFiles, files) && BoundaryClosed(levelFiles, files) && IsMaxLargest(files, m)
    requires Distinct(LevelSet(levelFiles))
    ensures SelectedAreOldest(levelFiles, files)
  {
    forall f, g | f in files && g in levelFiles && g !in files
      ensures Newer(SetOf(g.entries), SetOf(f.entries))
    {
      forall a, b | a in SetOf(g.entries) && b in SetOf(f.entries) && a.key.user == b.key.user
        ensures a.key.seqno > b.key.seqno
      {
        DistinctInLevel(levelFiles, f, g, b, a);
        RunPairNewer(levelFiles, files, m, f, g, b, a);
      }
    }
  }

  lemma ClosedRangeSeparates(f: File, g: File, lo: Option<UserKey>, hi: Option<UserKey>, a: Entry, b: Entry)
    requires FileOk(f) && FileOk(g) && b in f.entries && a in g.entries
    requires (lo.Some? ==> lo.value <= f.smallest.user) && (hi.Some? ==> f.largest.user <= hi.value)
    requires !Overlaps(g, lo, hi)
    ensures a.key.user != b.key.user
  {
    EntryInRange(f, b);
    EntryInRange(g, a);
  }

  /** Files overlapping a closed range share no user key with the files left behind. */
  lemma ClosedRangeIsOldest(levelFiles: Level, lo: Option<UserKey>, hi: Option<UserKey>)
    requires FilesOk(levelFiles) && ClosedRange(levelFiles, lo, hi)
    ensures SelectedAreOldest(levelFiles, Overlapping(levelFiles, lo, hi))
  {
    var files := Overlapping(levelFiles, lo, hi);
    forall f, g | f in files && g in levelFiles && g !in files
      ensures Newer(SetOf(g.entries), SetOf(f.entries))
    {
      forall a, b | a in SetOf(g.entries) && b in SetOf(f.entries) ensures a.key.user != b.key.user {
        ClosedRangeSeparates(f, g, lo, hi, a, b);
      }
    }
  }

  lemma ClosedRangeIsBoundaryClosed(levelFiles: Level, lo: Option<UserKey>, hi: Option<UserKey>)
    requires FilesOk(levelFiles) && ClosedRange(levelFiles, lo, hi)
    ensures BoundaryClosed(levelFiles, Overlapping(levelFiles, lo, hi))
  {
    var files := Overlapping(levelFiles, lo, hi);
    forall m, f | IsMaxLargest(files, m) && f in levelFiles ensures !BoundaryFile(f, m) {
      var h :| h in files && h.largest == m;
      RangeOk(f);
      RangeOk(h);
      assert BoundaryFile(f, m) ==> Overlaps(f, lo, hi);
    }
  }

  /** In a sorted level the files of a prefix that overlap a range are consecutive. */
  lemma OverlappingIsRun(files: Level, n: nat, lo: Option<UserKey>, hi: Option<UserKey>)
    requires FilesOk(files) && LevelSorted(files) && n <= |files|
    ensures Run(files, Overlapping(files[..n], lo, hi))
  {
    var r := Overlapping(files[..n], lo, hi);
    forall i, j, k | 0 <= i < j < k < |files| && files[i] in r && files[k] in r
      ensures files[j] in r
    {
      var k' :| 0 <= k' < n && files[k'] == files[k];
      IndicesDiffer(files, k, k');
      assert files[..n][j] == files[j];
      RangeOk(files[j]);
      assert Less(files[i].largest, files[j].smallest);
      assert Less(files[j].largest, files[k].smallest);
    }
  }

  // ----- SetupOtherInputs -----

  /** What PickCompaction and CompactRange hand over: a closed set at level 0, a run elsewhere. */
  ghost predicate SeedOk(levelFiles: Level, levelZero: bool, seed: Level) {
    && seed != []
    && (forall f :: f in seed ==> f in levelFiles)
    && if levelZero then exists lo, hi :: ClosedRange(levelFiles, lo, hi) && seed == Overlapping(levelFiles, lo, hi)
       else Run(levelFiles, seed)
  }

  method CloseSeed(levelFiles: Level, ghost levelZero: bool, seed: Level, ghost beside: Level) returns (in0: Level)
    requires FilesOk(levelFiles) && (!levelZero ==> LevelSorted(levelFiles)) && Distinct(LevelSet(levelFiles))
    requires SeedOk(levelFiles, levelZero, seed)
    ensures seed <= in0 && (forall f :: f in in0 ==> f in levelFiles)
    ensures SelectedAreOldest(levelFiles, in0) && BoundaryClosure(levelFiles, seed, in0)
    ensures NoDuplicates(seed) ==> NoDuplicates(in0)
    ensures InFileOrder(seed) ==> InFileOrder(in0)
    ensures Gapless(seed + beside) ==> Gapless(in0 + beside)
  {
    if levelZero {
      var lo, hi :| ClosedRange(levelFiles, lo, hi) && seed == Overlapping(levelFiles, lo, hi);
      ClosedRangeIsOldest(levelFiles, lo, hi);
      ClosedRangeIsBoundaryClosed(levelFiles, lo, hi);
    }
    in0 := AddBoundaryInputs(levelFiles, seed, beside);
    if !levelZero {
      ghost var m := MaxExists(in0);
      RunIsOldest(levelFiles, in0, m);
    }
  }

  lemma {:induction false} MaxExists(files: Level) returns (m: IKey)
    requires files != []
    ensures IsMaxLargest(files, m)
  {
    var n := |files| - 1;
    assert files == files[..n] + [files[n]];
    if n == 0 {
      m := files[0].largest;
    } else {
      m := MaxExists(files[..n]);
      if Less(m, files[n].largest) {
        m := files[n].largest;
      }
    }
  }

  /** Widening the range only adds files; if the count stays, nothing changed. */
  lemma {:induction false} OverlappingMonotone(files: Level, lo: Option<UserKey>, hi: Option<UserKey>,
                                               lo': Option<UserKey>, hi': Option<UserKey>)
    requires RangeContains(lo', hi', lo, hi)
    ensures |Overlapping(files, lo, hi)| <= |Overlapping(files, lo', hi')|
    ensures |Overlapping(files, lo, hi)| == |Overlapping(files, lo', hi')| ==>
              Overlapping(files, lo, hi) == Overlapping(files, lo', hi')
  {
    if files != [] {
      OverlappingMonotone(files[..|files| - 1], lo, hi, lo', hi');
    }
  }

  lemma HullGrows(small: Level, large: Level, lo: UserKey, hi: UserKey, lo': UserKey, hi': UserKey)
    requires Hull(small, lo, hi) && Hull(large, lo', hi') && forall f :: f in small ==> f in large
    ensures lo' <= lo && hi <= hi'
  {
  }

  /** Every chosen file overlaps a range that covers the chosen files. */
  lemma HullOverlaps(files: Level, all: Level, lo: UserKey, hi: UserKey)
    requires FilesOk(files) && Hull(all, lo, hi) && forall f :: f in files ==> f in all
    ensures forall f :: f in files ==> Overlaps(f, Some(lo), Some(hi))
  {
    forall f | f in files ensures Overlaps(f, Some(lo), Some(hi)) {
      RangeOk(f);
    }
  }

  /** What GetOverlappingInputs finds for a range, boundary-closed. */
  ghost predicate Widened(files: Level, levelZero: bool, start: UserKey, limit: UserKey, out: Level) {
    exists lo, hi ::
      && NoWiderThanNeeded(files, Some(start), Some(limit), lo, hi)
      && (if levelZero then ClosedRange(files, lo, hi) && WithinRequest(Some(start), Some(limit), lo, hi)
          else lo == Some(start) && hi == Some(limit))
      && BoundaryClosure(files, Overlapping(files, lo, hi), out)
  }

  /** Every file of the level around the whole compaction range, closed again. */
  method WidenInputs(files: Level, levelZero: bool, in0: Level, ghost in1: Level, start: UserKey, limit: UserKey)
      returns (expanded: Level)
    requires FilesOk(files) && (!levelZero ==> LevelSorted(files)) && Distinct(LevelSet(files)) && FilesOk(in1)
    requires in0 != [] && (forall f :: f in in0 ==> f in files) && Hull(in0 + in1, start, limit)
    ensures (forall f :: f in in0 ==> f in expanded) && (forall f :: f in expanded ==> f in files)
    ensures SelectedAreOldest(files, expanded) && Widened(files, levelZero, start, limit, expanded)
    ensures InFileOrder(files) ==> InFileOrder(expanded)
    ensures Gapless(in0 + in1) ==> Gapless(expanded + in1)
  {
    var seed, lo, hi := GetOverlappingInputs(levelZero, files, Some(start), Some(limit));
    HullOverlaps(in0, in0 + in1, start, limit);
    forall f | f in in0 ensures f in seed {
      assert Overlaps(f, Some(start), Some(limit));
    }
    assert in0[0] in seed;
    if Gapless(in0 + in1) {
      WidenedGapless(files, levelZero, in0, in1, start, limit, lo, hi);
    }
    if !levelZero {
      assert files[..|files|] == files;
      OverlappingIsRun(files, |files|, lo, hi);
    }
    OverlappingInOrder(files, lo, hi);
    expanded := CloseSeed(files, levelZero, seed, in1);
    assert BoundaryClosure(files, Overlapping(files, lo, hi), expanded);
  }

  lemma {:induction false} OverlappingInOrder(files: Level, lo: Option<UserKey>, hi: Option<UserKey>)
    ensures InFileOrder(files) ==> InFileOrder(Overlapping(files, lo, hi))
  {
    if files != [] && InFileOrder(files) {
      var rest, f := files[..|files| - 1], files[|files| - 1];
      OverlappingInOrder(rest, lo, hi);
      forall g | g in Overlapping(rest, lo, hi) ensures FileLess(g, f) {
        var i :| 0 <= i < |rest| && rest[i] == g;
      }
    }
  }

  lemma HullOrder(files: Level, lo: UserKey, hi: UserKey)
    requires FilesOk(files) && Hull(files, lo, hi)
    ensures lo <= hi
  {
    var f :| f in files && f.smallest.user == lo;
    RangeOk(f);
  }

  lemma WidenedGapless(files: Level, levelZero: bool, in0: Level, in1: Level, start: UserKey, limit: UserKey,
                       lo: Option<UserKey>, hi: Option<UserKey>)
    requires FilesOk(files) && FilesOk(in1) && (forall f :: f in in0 ==> f in files)
    requires Hull(in0 + in1, start, limit) && Gapless(in0 + in1)
    requires WithinRequest(Some(start), Some(limit), lo, hi) && NoWiderThanNeeded(files, Some(start), Some(limit), lo, hi)
    requires if levelZero then ClosedRange(files, lo, hi) else lo == Some(start) && hi == Some(limit)
    requires forall f :: f in in0 ==> f in Overlapping(files, lo, hi)
    ensures Gapless(Overlapping(files, lo, hi) + in1)
  {
    var all, seed := in0 + in1, Overlapping(files, lo, hi);
    if levelZero {
      ClosureGapless(files, all, start, limit, lo.value, hi.value);
      GaplessMembers(seed + all, seed + in1);
    } else {
      HullOrder(all, start, limit);
      forall b | b in seed ensures b.smallest.user <= b.largest.user {
        RangeOk(b);
      }
      GaplessUnion(all, start, limit, seed);
      GaplessMembers(all + seed, seed + in1);
    }
  }

  /**
  The level's inputs are grown to all files around the compaction range exactly when there are
  more of them, the compaction stays small enough, and no further file of the next level joins.
  */
  ghost predicate Expanded(v: Version, level: nat, in0: Level, in1: Level, maxFileSize: nat, out0: Level)
    requires |v.levels| == NUM_LEVELS && level + 1 < NUM_LEVELS
  {
    exists start, limit, wide, lo, hi ::
      && Hull(in0 + in1, start, limit) && Widened(v.levels[level], level == 0, start, limit, wide) && Hull(wide, lo, hi)
      && out0 == if |wide| > |in0| && TotalSize(in1) + TotalSize(wide) < 25 * maxFileSize
                    && |Overlapping(v.levels[level + 1], Some(lo), Some(hi))| == |in1| then wide else in0
  }

  /** The outcome of SetupOtherInputs: the closed seed, what it overlaps below, and the expansion if that is anything. */
  ghost predicate SetUp(v: Version, level: nat, seed: Level, maxFileSize: nat, in0: Level, in1: Level)
    requires |v.levels| == NUM_LEVELS && level + 1 < NUM_LEVELS
  {
    exists closed, lo, hi ::
      && BoundaryClosure(v.levels[level], seed, closed) && Hull(closed, lo, hi)
      && in1 == Overlapping(v.levels[level + 1], Some(lo), Some(hi))
      && if in1 == [] then in0 == closed else Expanded(v, level, closed, in1, maxFileSize, in0)
  }

  /** Growing the level's own inputs, when that costs no further file of the next level. */
  method TryExpand(v: Version, level: nat, in0: Level, in1: Level, ghost lo: UserKey, ghost hi: UserKey, maxFileSize: nat)
      returns (out0: Level)
    requires LevelsOk(v) && level + 1 < NUM_LEVELS && Distinct(LevelSet(v.levels[level]))
    requires in0 != [] && (forall f :: f in in0 ==> f in v.levels[level]) && SelectedAreOldest(v.levels[level], in0)
    requires Hull(in0, lo, hi) && in1 == Overlapping(v.levels[level + 1], Some(lo), Some(hi))
    ensures (forall f :: f in in0 ==> f in out0) && (forall f :: f in out0 ==> f in v.levels[level])
    ensures SelectedAreOldest(v.levels[level], out0)
    ensures InFileOrder(v.levels[level]) && InFileOrder(in0) ==> InFileOrder(out0)
    ensures out0 != in0 ==> |out0| > |in0| && TotalSize(in1) + TotalSize(out0) < 25 * maxFileSize
    ensures OverlapHull(v.levels[level + 1], out0, in1)
    ensures Gapless(in0 + in1) ==> Gapless(out0 + in1)
    ensures Expanded(v, level, in0, in1, maxFileSize, out0)
  {
    hide Widened, Gapless, InFileOrder, SelectedAreOldest, Distinct, FileOk, LevelSorted, Overlaps, Expanded, TotalSize, RangeContains;
    out0 := in0;
    var allStart, allLimit := GetRange(in0 + in1);
    RangeIsHull(in0 + in1, allStart, allLimit);
    var expanded0 := WidenInputs(v.levels[level], level == 0, in0, in1, allStart.user, allLimit.user);
    assert in0[0] in expanded0;
    ghost var lo', hi' := HullExists(expanded0);
    if |expanded0| > |in0| && TotalSize(in1) + TotalSize(expanded0) < 25 * maxFileSize {
      var newStart, newLimit := GetRange(expanded0);
      RangeIsHull(expanded0, newStart, newLimit);
      HullIsUnique(expanded0, lo', hi', newStart.user, newLimit.user);
      var expanded1, _, _ := GetOverlappingInputs(level + 1 == 0, v.levels[level + 1], Some(newStart.user), Some(newLimit.user));
      SameOverlap(v.levels[level + 1], in0, expanded0, lo, hi, newStart.user, newLimit.user);
      if |expanded1| == |in1| {
        out0 := expanded0;
      }
    }
    ExpandedIs(v, level, in0, in1, maxFileSize, out0, allStart.user, allLimit.user, expanded0, lo', hi');
  }

  lemma ExpandedIs(v: Version, level: nat, in0: Level, in1: Level, maxFileSize: nat, out0: Level,
                   start: UserKey, limit: UserKey, wide: Level, lo: UserKey, hi: UserKey)
    requires |v.levels| == NUM_LEVELS && level + 1 < NUM_LEVELS
    requires Hull(in0 + in1, start, limit) && Widened(v.levels[level], level == 0, start, limit, wide) && Hull(wide, lo, hi)
    requires out0 == if |wide| > |in0| && TotalSize(in1) + TotalSize(wide) < 25 * maxFileSize
                        && |Overlapping(v.levels[level + 1], Some(lo), Some(hi))| == |in1| then wide else in0
    ensures Expanded(v, level, in0, in1, maxFileSize, out0)
  {
    hide Hull, Widened, TotalSize, Overlapping;
  }

  /** A larger set of files overlaps at least as much; if not more, the same. */
  lemma SameOverlap(next: Level, small: Level, large: Level, lo: UserKey, hi: UserKey, lo': UserKey, hi': UserKey)
    requires Hull(small, lo, hi) && Hull(large, lo', hi') && forall f :: f in small ==> f in large
    ensures |Overlapping(next, Some(lo'), Some(hi'))| == |Overlapping(next, Some(lo), Some(hi))| ==>
              Overlapping(next, Some(lo'), Some(hi')) == Overlapping(next, Some(lo), Some(hi))
  {
    HullGrows(small, large, lo, hi, lo', hi');
    OverlappingMonotone(next, Some(lo), Some(hi), Some(lo'), Some(hi'));
  }

  lemma HullIsUnique(files: Level, lo: UserKey, hi: UserKey, lo': UserKey, hi': UserKey)
    requires Hull(files, lo, hi) && Hull(files, lo', hi')
    ensures lo == lo' && hi == hi'
  {
  }

  lemma {:induction false} HullExists(files: Level) returns (lo: UserKey, hi: UserKey)
    requires files != []
    ensures Hull(files, lo, hi)
  {
    var n := |files| - 1;
    lo, hi := files[n].smallest.user, files[n].largest.user;
    assert files == files[..n] + [files[n]];
    if n > 0 {
      var l, h := HullExists(files[..n]);
      lo, hi := if l < lo then l else lo, if hi < h then h else hi;
    }
  }

  lemma NextLevelGapless(files: Level, next: Level, in0: Level, in1: Level, lo: UserKey, hi: UserKey)
    requires FilesOk(files) && FilesOk(next) && (forall f :: f in in0 ==> f in files)
    requires Gapless(in0) && Hull(in0, lo, hi) && in1 == Overlapping(next, Some(lo), Some(hi))
    ensures Gapless(in0 + in1)
  {
    HullOrder(in0, lo, hi);
    forall b | b in in1 ensures b.smallest.user <= b.largest.user {
      RangeOk(b);
    }
    GaplessUnion(in0, lo, hi, in1);
  }

  /** The closed seed, and the files of the next level that overlap it. */
  method FirstInputs(v: Version, level: nat, seed: Level) returns (in0: Level, in1: Level, smallest: IKey, largest: IKey)
    requires LevelsOk(v) && level + 1 < NUM_LEVELS && Distinct(LevelSet(v.levels[level]))
    requires SeedOk(v.levels[level], level == 0, seed)
    ensures seed <= in0 && (forall f :: f in in0 ==> f in v.levels[level]) && SelectedAreOldest(v.levels[level], in0)
    ensures Hull(in0, smallest.user, largest.user) && IsMaxLargest(in0, largest)
    ensures in1 == Overlapping(v.levels[level + 1], Some(smallest.user), Some(largest.user))
    ensures BoundaryClosure(v.levels[level], seed, in0)
    ensures Gapless(seed) ==> Gapless(in0 + in1)
    ensures InFileOrder(seed) ==> InFileOrder(in0)
  {
    hide FileOk, Gapless, SelectedAreOldest, InFileOrder, LevelSorted, Distinct, Run, BoundaryClosure;
    in0 := CloseSeed(v.levels[level], level == 0, seed, []);
    assert seed + [] == seed && in0 + [] == in0;
    smallest, largest := GetRange(in0);
    RangeIsHull(in0, smallest, largest);
    ghost var lo, hi;
    in1, lo, hi := GetOverlappingInputs(level + 1 == 0, v.levels[level + 1], Some(smallest.user), Some(largest.user));
    if Gapless(in0) {
      NextLevelGapless(v.levels[level], v.levels[level + 1], in0, in1, smallest.user, largest.user);
    }
  }

  /** The files two levels down that overlap the whole compaction. */
  method Grandparents(v: Version, level: nat, in0: Level, in1: Level) returns (grandparents: Level)
    requires |v.levels| == NUM_LEVELS && in0 != []
    ensures level + 2 < NUM_LEVELS ==> OverlapHull(v.levels[level + 2], in0 + in1, grandparents)
  {
    grandparents := [];
    var allStart, allLimit := GetRange(in0 + in1);
    RangeIsHull(in0 + in1, allStart, allLimit);
    if level + 2 < NUM_LEVELS {
      ghost var lo, hi;
      grandparents, lo, hi := GetOverlappingInputs(level + 2 == 0, v.levels[level + 2], Some(allStart.user), Some(allLimit.user));
    }
  }

  /** VersionSet::SetupOtherInputs. */
  method SetupOtherInputs(v: Version, level: nat, seed: Level, maxFileSize: nat)
      returns (in0: Level, in1: Level, grandparents: Level, pointer: IKey)
    requires LevelsOk(v) && level + 1 < NUM_LEVELS && Distinct(LevelSet(v.levels[level]))
    requires SeedOk(v.levels[level], level == 0, seed) && (InFileOrder(v.levels[level]) ==> InFileOrder(seed))
    ensures GoodSelection(v, level, in0, in1) && SetUp(v, level, seed, maxFileSize, in0, in1)
    ensures forall f :: f in seed ==> f in in0
    ensures Gapless(seed) ==> Gapless(in0 + in1)
    ensures IsMaxLargest(in0, pointer)
    ensures level + 2 < NUM_LEVELS ==> OverlapHull(v.levels[level + 2], in0 + in1, grandparents)
  {
    hide BoundaryClosure, Expanded, Gapless, InFileOrder, SelectedAreOldest, Distinct, FileOk, LevelSorted, Overlaps, SeedOk;
    var smallest;
    in0, in1, smallest, pointer := FirstInputs(v, level, seed);
    ghost var closed, lo, hi := in0, smallest.user, pointer.user;
    if in1 != [] {
      in0 := TryExpand(v, level, in0, in1, smallest.user, pointer.user, maxFileSize);
      smallest, pointer := GetRange(in0);
    }
    assert BoundaryClosure(v.levels[level], seed, closed) && Hull(closed, lo, hi);
    grandparents := Grandparents(v, level, in0, in1);
  }

  // ----- PickCompaction, CompactRange, IsTrivialMove -----

  datatype Trigger = BySize(pointer: Option<IKey>) | BySeek(file: File)

  /** The file a compaction starts from: the one a seek asked for, or the first past the pointer, wrapping around. */
  ghost predicate Picked(files: Level, trigger: Trigger, f: File) {
    && f in files
    && (trigger.BySeek? ==> f == trigger.file)
    && (trigger.BySize? ==> FirstPast(files, trigger.pointer, f) || (f == files[0] && NonePast(files, |files|, trigger.pointer)))
  }

  /** Round robin: the first file past the compaction pointer, wrapping around. */
  method PickFile(files: Level, trigger: Trigger) returns (f: File)
    requires trigger.BySize? ==> files != []
    requires trigger.BySeek? ==> trigger.file in files
    ensures Picked(files, trigger, f)
  {
    if trigger.BySeek? {
      return trigger.file;
    }
    for i := 0 to |files|
      invariant NonePast(files, i, trigger.pointer)
    {
      if trigger.pointer.None? || Less(trigger.pointer.value, files[i].largest) {
        return files[i];
      }
    }
    f := files[0];
  }

  predicate PastPointer(f: File, pointer: Option<IKey>) {
    pointer.None? || Less(pointer.value, f.largest)
  }

  predicate NonePast(files: Level, n: nat, pointer: Option<IKey>)
    requires n <= |files|
  {
    forall i :: 0 <= i < n ==> !PastPointer(files[i], pointer)
  }

  ghost predicate FirstPast(files: Level, pointer: Option<IKey>, f: File) {
    exists i :: 0 <= i < |files| && files[i] == f && PastPointer(files[i], pointer) && NonePast(files, i, pointer)
  }

  lemma SingletonRun(files: Level, f: File)
    requires FilesOk(files) && LevelSorted(files)
    ensures Run(files, [f])
  {
    forall i, k | 0 <= i < k < |files| ensures files[i] != f || files[k] != f {
      IndicesDiffer(files, i, k);
    }
  }

  method PickCompaction(v: Version, level: nat, trigger: Trigger, maxFileSize: nat)
      returns (in0: Level, in1: Level, grandparents: Level, pointer: IKey)
    requires LevelsOk(v) && level + 1 < NUM_LEVELS && Distinct(LevelSet(v.levels[level]))
    requires trigger.BySize? ==> v.levels[level] != []
    requires trigger.BySeek? ==> trigger.file in v.levels[level]
    ensures GoodSelection(v, level, in0, in1)
    ensures exists f :: f in in0 && Picked(v.levels[level], trigger, f)
    ensures Gapless(in0 + in1)
    ensures IsMaxLargest(in0, pointer)
  {
    hide GoodSelection, SetUp, Distinct, LevelSorted, OverlapHull, IsMaxLargest, FirstPast, NonePast;
    var f := PickFile(v.levels[level], trigger);
    RangeOk(f);
    var seed := [f];
    GaplessSingle(f);
    if level == 0 {
      ghost var lo, hi;
      seed, lo, hi := GetOverlappingInputs(true, v.levels[0], Some(f.smallest.user), Some(f.largest.user));
      assert f in seed;
      assert Hull([f], f.smallest.user, f.largest.user);
      OverlappingInOrder(v.levels[0], lo, hi);
      ClosureGapless(v.levels[0], [f], f.smallest.user, f.largest.user, lo.value, hi.value);
      GaplessMembers(seed + [f], seed);
    } else {
      SingletonRun(v.levels[level], f);
    }
    in0, in1, grandparents, pointer := SetupOtherInputs(v, level, seed, maxFileSize);
  }

  /** A prefix of the overlapping files is what overlaps in a prefix of the level. */
  lemma {:induction false} PrefixOfOverlapping(files: Level, lo: Option<UserKey>, hi: Option<UserKey>, n: nat) returns (p: nat)
    requires n <= |Overlapping(files, lo, hi)|
    ensures p <= |files| && Overlapping(files[..p], lo, hi) == Overlapping(files, lo, hi)[..n]
  {
    hide Overlaps;
    var r := Overlapping(files, lo, hi);
    if n == |r| {
      p := |files|;
      assert files[..p] == files && r[..n] == r;
    } else {
      var rest := files[..|files| - 1];
      var q := Overlapping(rest, lo, hi);
      assert r == q || r == q + [files[|files| - 1]];
      p := PrefixOfOverlapping(rest, lo, hi, n);
      assert rest[..p] == files[..p];
      assert q[..n] == r[..n];
    }
  }

  /** The first n inputs are the fewest, but at least one, that reach the limit, or all if they do not. */
  ghost predicate CutAtSize(inputs: Level, limit: nat, n: nat) {
    && 0 < n <= |inputs|
    && (n == |inputs| || TotalSize(inputs[..n]) >= limit)
    && (n > 1 ==> TotalSize(inputs[..n - 1]) < limit)
  }

  /** What a manual compaction starts from: all files of the widened request at level 0, elsewhere as many as the size limit allows. */
  ghost predicate ManualSeed(files: Level, levelZero: bool, begin: Option<UserKey>, end: Option<UserKey>, maxFileSize: nat, seed: Level) {
    exists lo, hi, n: nat ::
      && NoWiderThanNeeded(files, begin, end, lo, hi)
      && n <= |Overlapping(files, lo, hi)| && seed == Overlapping(files, lo, hi)[..n]
      && if levelZero then ClosedRange(files, lo, hi) && WithinRequest(begin, end, lo, hi) && n == |Overlapping(files, lo, hi)|
         else lo == begin && hi == end && CutAtSize(Overlapping(files, lo, hi), maxFileSize, n)
  }

  /** The leading files up to the first that reaches the size limit. */
  method TruncateToSize(inputs: Level, limit: nat) returns (n: nat)
    requires inputs != []
    ensures CutAtSize(inputs, limit, n)
  {
    var total := 0;
    n := 0;
    while n < |inputs|
      invariant 0 <= n <= |inputs| && total == TotalSize(inputs[..n])
      invariant n > 0 ==> total < limit
    {
      SizeOfPrefix(inputs, n);
      total := total + inputs[n].size;
      n := n + 1;
      if total >= limit {
        return;
      }
    }
    SizeOfPrefix(inputs, n - 1);
  }

  lemma {:induction false} SizeOfPrefix(files: Level, n: nat)
    requires n < |files|
    ensures TotalSize(files[..n + 1]) == TotalSize(files[..n]) + files[n].size
  {
    if n == 0 {
      assert files[..1][1..] == [] && files[..0] == [];
    } else {
      SizeOfPrefix(files[1..], n - 1);
      assert files[..n + 1][1..] == files[1..][..n] && files[..n][1..] == files[1..][..n - 1];
    }
  }

  lemma PrefixInOrder(files: Level, n: nat)
    requires n <= |files|
    ensures InFileOrder(files) ==> InFileOrder(files[..n])
  {
  }

  /** VersionSet::CompactRange: a manual compaction of [begin, end]; None when nothing overlaps. */
  method CompactRange(v: Version, level: nat, begin: Option<UserKey>, end: Option<UserKey>, maxFileSize: nat)
      returns (some: bool, in0: Level, in1: Level)
    requires LevelsOk(v) && level + 1 < NUM_LEVELS && Distinct(LevelSet(v.levels[level]))
    ensures some <==> exists f :: f in v.levels[level] && Overlaps(f, begin, end)
    ensures some ==> GoodSelection(v, level, in0, in1)
    ensures some ==> exists f :: f in in0 && f in v.levels[level] && Overlaps(f, begin, end)
    ensures some ==> exists seed :: ManualSeed(v.levels[level], level == 0, begin, end, maxFileSize, seed) &&
                       SetUp(v, level, seed, maxFileSize, in0, in1)
  {
    hide FileOk, LevelSorted, GoodSelection, Distinct, Run, Gapless, InFileOrder, ClosedRange, Overlaps, TotalSize, OverlapHull, IsMaxLargest, ManualSeed, SetUp, NoWiderThanNeeded;
    in0, in1 := [], [];
    var files := v.levels[level];
    var inputs, lo, hi := GetOverlappingInputs(level == 0, files, begin, end);
    some := inputs != [];
    RequestHits(files, begin, end, lo, hi);
    if !some {
      return;
    }
    OverlappingInOrder(files, lo, hi);
    ghost var all, m := inputs, |inputs|;
    if level > 0 {
      var n := TruncateToSize(inputs, maxFileSize);
      ghost var p := PrefixOfOverlapping(files, lo, hi, n);
      OverlappingIsRun(files, p, lo, hi);
      assert inputs[..n][0] in inputs;
      PrefixInOrder(inputs, n);
      inputs := inputs[..n];
      m := n;
      assert inputs[0] in inputs && inputs[0] in files;
    }
    assert inputs == all[..m];
    ManualSeedIs(files, level == 0, begin, end, maxFileSize, lo, hi, m, inputs);
    var grandparents, pointer;
    in0, in1, grandparents, pointer := SetupOtherInputs(v, level, inputs, maxFileSize);
  }

  lemma ManualSeedIs(files: Level, levelZero: bool, begin: Option<UserKey>, end: Option<UserKey>, maxFileSize: nat,
                     lo: Option<UserKey>, hi: Option<UserKey>, n: nat, seed: Level)
    requires NoWiderThanNeeded(files, begin, end, lo, hi) && n <= |Overlapping(files, lo, hi)| && seed == Overlapping(files, lo, hi)[..n]
    requires if levelZero then ClosedRange(files, lo, hi) && WithinRequest(begin, end, lo, hi) && n == |Overlapping(files, lo, hi)|
             else lo == begin && hi == end && CutAtSize(Overlapping(files, lo, hi), maxFileSize, n)
    ensures ManualSeed(files, levelZero, begin, end, maxFileSize, seed)
  {
    hide NoWiderThanNeeded, Overlapping, ClosedRange, WithinRequest, CutAtSize;
  }

  /** The widened range is hit exactly when the requested one is. */
  lemma RequestHits(files: Level, begin: Option<UserKey>, end: Option<UserKey>, lo: Option<UserKey>, hi: Option<UserKey>)
    requires WithinRequest(begin, end, lo, hi)
    requires NoWiderThanNeeded(files, begin, end, lo, hi)
    ensures Overlapping(files, lo, hi) != [] <==> exists f :: f in files && Overlaps(f, begin, end)
    ensures forall f :: f in files && Overlaps(f, begin, end) ==> f in Overlapping(files, lo, hi)
  {
    var r := Overlapping(files, lo, hi);
    assert r == [] || r[0] in r;
    if forall f :: f in files ==> !Overlaps(f, begin, end) {
      assert ClosedRange(files, begin, end) && RangeContains(begin, end, begin, end);
      assert lo == begin && hi == end;
    } else {
      var f :| f in files && Overlaps(f, begin, end);
      assert f in Overlapping(files, lo, hi);
    }
  }
}
