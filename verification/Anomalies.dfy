/**
Two concrete states in which the level structure of the store breaks a promise, each
allowed by every check the code makes.
*/
module Anomalies {
  import opened Common
  import opened Format
  import opened VersionModel
  import opened Lookup
  import opened Selection
  import opened CompactionModel
  import opened Builder
  import opened Install
  import opened Flush

  function OneEntry(number: nat, e: Entry): File {
    File(number, 1, e.key, e.key, [e])
  }

  lemma OneEntryOk(number: nat, e: Entry)
    requires e.key.seqno <= MAX_SEQUENCE
    ensures FileOk(OneEntry(number, e))
  {
  }

  lemma LevelOfOne(f: File)
    ensures LevelSet([f]) == SetOf(f.entries)
  {
    assert f in [f];
  }

  lemma LevelOfTwo(f: File, g: File)
    ensures LevelSet([f, g]) == SetOf(f.entries) + SetOf(g.entries)
  {
    assert f in [f, g] && g in [f, g];
  }

  lemma PairSorted(f: File, g: File)
    requires FileOk(f) && FileOk(g) && Less(f.largest, g.smallest)
    ensures FilesOk([f, g]) && LevelSorted([f, g]) && FilesOk([f]) && LevelSorted([f])
  {
  }

  lemma SetOfFew(a: Entry, b: Entry)
    ensures SetOf([a]) == {a} && SetOf([a, b]) == {a, b} && LevelSet([]) == {}
  {
  }

  /** The two non-empty neighbouring levels decide everything about such a version. */
  function TwoLevels(level1: Level, level2: Level): Version {
    Version([[], level1, level2, [], [], [], []])
  }

  lemma TwoLevelsOk(level1: Level, level2: Level)
    requires FilesOk(level1) && FilesOk(level2) && LevelSorted(level1) && LevelSorted(level2)
    requires Newer(LevelSet(level1), LevelSet(level2))
    ensures VersionOk(TwoLevels(level1, level2))
    ensures VersionSet(TwoLevels(level1, level2)) == LevelSet(level1) + LevelSet(level2)
  {
    var v := TwoLevels(level1, level2);
    assert forall l :: 0 <= l < NUM_LEVELS && l != 1 && l != 2 ==> v.levels[l] == [];
    assert LevelSet([]) == {};
    assert v.levels[1] == level1 && v.levels[2] == level2;
  }

  // ----- a deleted key comes back -----

  /**
  Key 1.0 has versions at levels 1 and 2. Key 2.0 is deleted at sequence 5, and its old
  value at sequence 3 sits in the next file of level 2.
  */
  ghost predicate CutKey(v: Version, upper: File, lower: File, behind: File, newA: Entry, oldA: Entry, delB: Entry, oldB: Entry) {
    && newA.key == IKey(1.0, 10, Value) && oldA.key == IKey(1.0, 4, Value)
    && delB.key == IKey(2.0, 5, Deletion) && oldB.key == IKey(2.0, 3, Value)
    && upper == OneEntry(9, newA) && behind == OneEntry(6, oldB)
    && lower == File(5, 1, oldA.key, delB.key, [oldA, delB])
    && v == TwoLevels([upper], [lower, behind])
  }

  lemma CutKeyFiles(v: Version, upper: File, lower: File, behind: File, newA: Entry, oldA: Entry, delB: Entry, oldB: Entry)
    requires CutKey(v, upper, lower, behind, newA, oldA, delB, oldB)
    ensures FileOk(upper) && FileOk(lower) && FileOk(behind)
    ensures LevelSet([upper]) == {newA} && LevelSet([lower]) == {oldA, delB}
    ensures LevelSet([lower, behind]) == {oldA, delB, oldB}
  {
    OneEntryOk(9, newA);
    OneEntryOk(6, oldB);
    LevelOfOne(upper);
    LevelOfOne(lower);
    LevelOfTwo(lower, behind);
    SetOfFew(newA, newA);
    SetOfFew(oldA, delB);
    SetOfFew(oldB, oldB);
  }

  lemma CutKeyOk(v: Version, upper: File, lower: File, behind: File, newA: Entry, oldA: Entry, delB: Entry, oldB: Entry)
    requires CutKey(v, upper, lower, behind, newA, oldA, delB, oldB)
    ensures VersionOk(v) && VersionSet(v) == {newA} + {oldA, delB, oldB}
  {
    CutKeyFiles(v, upper, lower, behind, newA, oldA, delB, oldB);
    CutKeyNumbers(newA, oldA, delB, oldB);
    OneAboveTwo(v, upper, lower, behind, {newA}, {oldA, delB, oldB});
  }

  lemma OneAboveTwo(v: Version, upper: File, lower: File, behind: File, A: set<Entry>, B: set<Entry>)
    requires FileOk(upper) && FileOk(lower) && FileOk(behind) && Less(lower.largest, behind.smallest)
    requires v == TwoLevels([upper], [lower, behind])
    requires LevelSet([upper]) == A && LevelSet([lower, behind]) == B && Newer(A, B)
    ensures VersionOk(v) && VersionSet(v) == A + B
  {
    PairSorted(lower, behind);
    assert FilesOk([upper]) && LevelSorted([upper]);
    TwoLevelsOk([upper], [lower, behind]);
  }

  lemma CutKeyNumbers(newA: Entry, oldA: Entry, delB: Entry, oldB: Entry)
    requires newA.key == IKey(1.0, 10, Value) && oldA.key == IKey(1.0, 4, Value)
    requires delB.key == IKey(2.0, 5, Deletion) && oldB.key == IKey(2.0, 3, Value)
    ensures Newer({newA}, {oldA, delB, oldB}) && Distinct({newA} + {oldA, delB, oldB})
    ensures ({newA} + {oldA, delB, oldB}) - {newA, oldA, delB} == {oldB}
  {
  }

  /** The selection the code makes takes only the first of the two files with key 2.0. */
  lemma CutKeySelection(v: Version, upper: File, lower: File, behind: File, newA: Entry, oldA: Entry, delB: Entry, oldB: Entry)
    requires CutKey(v, upper, lower, behind, newA, oldA, delB, oldB)
    ensures GoodSelection(v, 1, [upper], [lower]) && !CleanCut(v, 1, [lower])
  {
    assert upper in [upper] && lower in [lower];
    assert Hull([upper], 1.0, 1.0);
    var files := [lower, behind];
    assert files[..1] == [lower] && [lower][..0] == [];
    assert Overlapping([], Some(1.0), Some(1.0)) == [];
    assert Overlapping([lower], Some(1.0), Some(1.0)) == [lower];
    assert Overlapping(files, Some(1.0), Some(1.0)) == [lower];
    assert IsMaxLargest([lower], delB.key);
    assert behind in files && BoundaryFile(behind, delB.key);
    assert v.levels[1] == [upper] && v.levels[2] == files;
  }

  lemma CutKeyExposed(v: Version, upper: File, lower: File, behind: File, newA: Entry, oldA: Entry, delB: Entry, oldB: Entry)
    requires CutKey(v, upper, lower, behind, newA, oldA, delB, oldB)
    ensures Exposed(v, 1, {newA, oldA, delB}, {oldB}, 20, 20, 2.0)
  {
    var I, R := {newA, oldA, delB}, {oldB};
    assert IsNewest(R, 2.0, 20, oldB);
    ReadIs(R, 2.0, 20, oldB);
    assert IsNewest(I + R, 2.0, 20, delB);
    assert forall l :: 3 <= l < NUM_LEVELS ==> v.levels[l] == [];
    assert ObsoleteTombstone(v, 1, 20, delB);
  }

  lemma CutKeyParts(v: Version, upper: File, lower: File, behind: File, newA: Entry, oldA: Entry, delB: Entry, oldB: Entry)
    requires CutKey(v, upper, lower, behind, newA, oldA, delB, oldB)
    ensures JobInputs(Job(1, [upper], [lower], 20, v, false)) == {newA, oldA, delB}
  {
    CutKeyFiles(v, upper, lower, behind, newA, oldA, delB, oldB);
  }

  /**
  The selection takes the file with the tombstone and leaves the old value behind. However
  the compaction is finished, some read at or above its oldest snapshot changes.
  */
  lemma DeletedKeyResurfaces() returns (v: Version, in0: Level, in1: Level)
    ensures VersionOk(v) && GoodSelection(v, 1, in0, in1) && !CleanCut(v, 1, in1)
    ensures Exposed(v, 1, InputSet(in0, in1), VersionSet(v) - InputSet(in0, in1), 20, 20, 2.0)
    ensures forall outs, v' :: OutputsFor(Job(1, in0, in1, 20, v, false), outs) && Replaced(v, 1, in0, in1, outs, v') ==>
              exists u, s :: 20 <= s && Read(VersionSet(v'), u, s) != Read(VersionSet(v), u, s)
  {
    var newA, oldA := Entry(IKey(1.0, 10, Value), [10]), Entry(IKey(1.0, 4, Value), [4]);
    var delB, oldB := Entry(IKey(2.0, 5, Deletion), []), Entry(IKey(2.0, 3, Value), [3]);
    var upper, behind := OneEntry(9, newA), OneEntry(6, oldB);
    var lower := File(5, 1, oldA.key, delB.key, [oldA, delB]);
    v, in0, in1 := TwoLevels([upper], [lower, behind]), [upper], [lower];
    CutKeyOk(v, upper, lower, behind, newA, oldA, delB, oldB);
    CutKeySelection(v, upper, lower, behind, newA, oldA, delB, oldB);
    CutKeyExposed(v, upper, lower, behind, newA, oldA, delB, oldB);
    CutKeyParts(v, upper, lower, behind, newA, oldA, delB, oldB);
    CutKeyNumbers(newA, oldA, delB, oldB);
    ExposedIsVisible(v, in0, in1, 20, 2.0);
  }

  lemma ExposedIsVisible(v: Version, in0: Level, in1: Level, snap: nat, u: UserKey)
    requires VersionOk(v) && Distinct(VersionSet(v)) && GoodSelection(v, 1, in0, in1)
    requires Exposed(v, 1, InputSet(in0, in1), VersionSet(v) - InputSet(in0, in1), snap, snap, u)
    ensures forall outs, v' :: OutputsFor(Job(1, in0, in1, snap, v, false), outs) && Replaced(v, 1, in0, in1, outs, v') ==>
              exists u, s :: snap <= s && Read(VersionSet(v'), u, s) != Read(VersionSet(v), u, s)
  {
    hide FilesOk, LevelSorted, OlderIsDeeper, LevelZeroByNumber, GoodSelection, Exposed, Replaced, OutputsFor, Distinct, Read, VersionSet;
    forall outs, v' | OutputsFor(Job(1, in0, in1, snap, v, false), outs) && Replaced(v, 1, in0, in1, outs, v')
      ensures exists u, s :: snap <= s && Read(VersionSet(v'), u, s) != Read(VersionSet(v), u, s)
    {
      VersionInvisibleIff(v, Job(1, in0, in1, snap, v, false), outs, v', snap);
    }
  }

  // ----- a flush lands between the inputs of a manual compaction -----

  /** Two files around key 2.0 at level 1, and a flushed file holding only that key. */
  ghost predicate Gap(v: Version, leftFile: File, rightFile: File, flushed: File, left: Entry, right: Entry, middle: Entry) {
    && left.key == IKey(1.0, 1, Value) && right.key == IKey(3.0, 2, Value) && middle.key == IKey(2.0, 5, Value)
    && leftFile == OneEntry(11, left) && rightFile == OneEntry(12, right) && flushed == OneEntry(14, middle)
    && v == TwoLevels([leftFile, rightFile], [])
  }

  lemma GapOk(v: Version, leftFile: File, rightFile: File, flushed: File, left: Entry, right: Entry, middle: Entry)
    requires Gap(v, leftFile, rightFile, flushed, left, right, middle)
    ensures VersionOk(v) && FileOk(leftFile) && FileOk(rightFile) && FileOk(flushed)
    ensures LevelSet([leftFile, rightFile]) == {left, right} && VersionSet(v) == {left, right}
    ensures SetOf(flushed.entries) == {middle} && LevelSet([]) == {} && Newer({middle}, {left, right})
  {
    OneEntryOk(11, left);
    OneEntryOk(12, right);
    OneEntryOk(14, middle);
    SetOfFew(left, left);
    SetOfFew(right, right);
    SetOfFew(middle, middle);
    LevelOfTwo(leftFile, rightFile);
    assert {left} + {right} == {left, right};
    TwoAboveNone(v, leftFile, rightFile);
  }

  lemma TwoAboveNone(v: Version, f: File, g: File)
    requires FileOk(f) && FileOk(g) && Less(f.largest, g.smallest) && v == TwoLevels([f, g], []) && LevelSet([]) == {}
    ensures VersionOk(v) && VersionSet(v) == LevelSet([f, g])
  {
    PairSorted(f, g);
    TwoLevelsOk([f, g], []);
  }

  lemma GapSelection(v: Version, leftFile: File, rightFile: File, flushed: File, left: Entry, right: Entry, middle: Entry)
    requires Gap(v, leftFile, rightFile, flushed, left, right, middle)
    ensures GoodSelection(v, 1, [leftFile, rightFile], []) && CleanCut(v, 1, [])
    ensures FlushLevelOk(v, 2, flushed.smallest.user, flushed.largest.user)
    ensures NumbersBelow(v, 14)
  {
    var in0 := [leftFile, rightFile];
    assert v.levels[0] == [] && v.levels[1] == in0 && v.levels[2] == [];
    assert leftFile in in0 && rightFile in in0;
    assert Hull(in0, 1.0, 3.0);
    assert Overlapping([], Some(1.0), Some(3.0)) == [];
  }

  lemma GapOutputs(v: Version, leftFile: File, rightFile: File, flushed: File, left: Entry, right: Entry, middle: Entry, spanning: File)
    requires Gap(v, leftFile, rightFile, flushed, left, right, middle)
    requires spanning == File(13, 1, left.key, right.key, [left, right])
    ensures OutputsFor(Job(1, [leftFile, rightFile], [], 9, v, true), [spanning])
    ensures spanning != flushed && !Apart(spanning, flushed)
  {
    hide Kept, GoodSelection, VersionOk;
    GapOk(v, leftFile, rightFile, flushed, left, right, middle);
    SetOfFew(left, right);
    LevelOfOne(spanning);
    var I := {left, right};
    assert JobInputs(Job(1, [leftFile, rightFile], [], 9, v, true)) == I;
    NothingDropped(v, left, right);
    assert FileOk(spanning);
  }

  lemma NothingDropped(v: Version, left: Entry, right: Entry)
    requires |v.levels| == NUM_LEVELS && left.key == IKey(1.0, 1, Value) && right.key == IKey(3.0, 2, Value)
    ensures Kept(v, 1, {left, right}, 9) == {left, right}
  {
    var I := {left, right};
    assert !Dropped(v, 1, I, 9, left) && !Dropped(v, 1, I, 9, right);
  }

  lemma OverlapInstalled(v: Version, in0: Level, spanning: File, flushed: File)
    requires |v.levels| == NUM_LEVELS && spanning != flushed && !Apart(spanning, flushed)
    ensures forall v1, v2 :: Added(v, 2, flushed, v1) && Replaced(v1, 1, in0, [], [spanning], v2) ==> !LevelSorted(v2.levels[2])
  {
    forall v1, v2 | Added(v, 2, flushed, v1) && Replaced(v1, 1, in0, [], [spanning], v2)
      ensures !LevelSorted(v2.levels[2])
    {
      assert flushed in [flushed] && flushed in v1.levels[2];
      assert spanning in [spanning] && spanning in v2.levels[2] && flushed in v2.levels[2];
      OverlapIsUnsorted(v2.levels[2], spanning, flushed);
    }
  }

  /**
  A manual compaction takes both files around key 2.0; a memtable holding only that key is
  flushed meanwhile, overlaps no file, and goes to the output level. The output file the
  compaction writes spans it: no order of the two is a sorted level.
  */
  lemma FlushLandsInGap() returns (v: Version, in0: Level, flushed: File, spanning: File)
    ensures VersionOk(v) && GoodSelection(v, 1, in0, []) && CleanCut(v, 1, [])
    ensures FileOk(flushed) && FlushLevelOk(v, 2, flushed.smallest.user, flushed.largest.user)
    ensures Newer(SetOf(flushed.entries), VersionSet(v)) && NumbersBelow(v, flushed.number)
    ensures OutputsFor(Job(1, in0, [], 9, v, true), [spanning])
    ensures forall v1, v2 :: Added(v, 2, flushed, v1) && Replaced(v1, 1, in0, [], [spanning], v2) ==> !LevelSorted(v2.levels[2])
  {
    var left, right := Entry(IKey(1.0, 1, Value), [1]), Entry(IKey(3.0, 2, Value), [2]);
    var middle := Entry(IKey(2.0, 5, Value), [5]);
    var leftFile, rightFile := OneEntry(11, left), OneEntry(12, right);
    v, in0 := TwoLevels([leftFile, rightFile], []), [leftFile, rightFile];
    flushed, spanning := OneEntry(14, middle), File(13, 1, left.key, right.key, [left, right]);
    GapOk(v, leftFile, rightFile, flushed, left, right, middle);
    GapSelection(v, leftFile, rightFile, flushed, left, right, middle);
    GapOutputs(v, leftFile, rightFile, flushed, left, right, middle, spanning);
    OverlapInstalled(v, in0, spanning, flushed);
  }
}
