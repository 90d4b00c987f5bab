/**
Installing the result of a flush, a trivial move or a compaction keeps the level invariants.
*/
module Install {
  import opened Common
  import opened Format
  import opened VersionModel
  import opened Lookup
  import opened Selection
  import opened CompactionModel
  import opened Builder

  ghost function InputSet(in0: Level, in1: Level): set<Entry> {
    LevelSet(in0) + LevelSet(in1)
  }

  ghost predicate NoSharedUsers(A: set<Entry>, B: set<Entry>) {
    forall a, b :: a in A && b in B ==> a.key.user != b.key.user
  }

  /** All of E lies on one side of the file. */
  ghost predicate Beside(g: File, E: set<Entry>) {
    (forall e :: e in E ==> Less(g.largest, e.key)) || (forall e :: e in E ==> Less(e.key, g.smallest))
  }

  /** Files of the output level that stay share no user key with what comes down. */
  ghost predicate UnsharedBelow(v: Version, level: nat, in0: Level, in1: Level)
    requires |v.levels| == NUM_LEVELS && level + 1 < NUM_LEVELS
  {
    forall g :: g in v.levels[level + 1] && g !in in1 ==> NoSharedUsers(SetOf(g.entries), LevelSet(in0))
  }

  /** Every file of the output level that stays has all of E on one side. */
  ghost predicate RoomBelow(v: Version, level: nat, in1: Level, E: set<Entry>)
    requires |v.levels| == NUM_LEVELS && level + 1 < NUM_LEVELS
  {
    forall g :: g in v.levels[level + 1] && g !in in1 ==> Beside(g, E)
  }

  ghost predicate InputsOk(v: Version, level: nat, in0: Level, in1: Level)
    requires |v.levels| == NUM_LEVELS && level + 1 < NUM_LEVELS
  {
    && (forall f :: f in in0 ==> f in v.levels[level])
    && (forall f :: f in in1 ==> f in v.levels[level + 1])
    && SelectedAreOldest(v.levels[level], in0)
    && UnsharedBelow(v, level, in0, in1)
  }

  /** Output files: sorted, disjoint, and made of input entries. */
  ghost predicate OutputsOk(in0: Level, in1: Level, outs: Level) {
    FilesOk(outs) && LevelSorted(outs) && LevelSet(outs) <= InputSet(in0, in1)
  }

  /** No output reaches across a file of the output level that stays. */
  ghost predicate OutputsFit(v: Version, level: nat, in1: Level, outs: Level)
    requires |v.levels| == NUM_LEVELS && level + 1 < NUM_LEVELS
  {
    forall g, o :: g in v.levels[level + 1] && g !in in1 && o in outs ==> Apart(g, o)
  }

  /** The version edit of a compaction: inputs out, outputs into the next level. */
  ghost predicate Replaced(v: Version, level: nat, in0: Level, in1: Level, outs: Level, v': Version)
    requires |v.levels| == NUM_LEVELS && level + 1 < NUM_LEVELS
  {
    && |v'.levels| == NUM_LEVELS
    && Rebuilt(v.levels[level], in0, [], v'.levels[level])
    && Rebuilt(v.levels[level + 1], in1, outs, v'.levels[level + 1])
    && forall l :: 0 <= l < NUM_LEVELS && l != level && l != level + 1 ==> v'.levels[l] == v.levels[l]
  }

  // ----- selection gives the install conditions -----

  /** A file of the next level outside the hull of the inputs lies beside all of them. */
  lemma UnselectedBeside(v: Version, level: nat, in0: Level, in1: Level, g: File)
    requires LevelsOk(v) && level + 1 < NUM_LEVELS && GoodSelection(v, level, in0, in1)
    requires g in v.levels[level + 1] && g !in in1
    ensures Beside(g, InputSet(in0, in1))
    ensures NoSharedUsers(SetOf(g.entries), LevelSet(in0))
  {
    var lo, hi :| Hull(in0, lo, hi) && in1 == Overlapping(v.levels[level + 1], Some(lo), Some(hi));
    forall e | e in InputSet(in0, in1) ensures g.largest.user < lo ==> Less(g.largest, e.key)
      ensures hi < g.smallest.user ==> Less(e.key, g.smallest)
    {
      InputKeyBeside(v, level, in0, in1, g, lo, hi, e);
    }
    forall a, b | a in SetOf(g.entries) && b in LevelSet(in0) ensures a.key.user != b.key.user {
      var f :| f in in0 && b in f.entries;
      EntryInRange(f, b);
      EntryInRange(g, a);
    }
  }

  lemma InputKeyBeside(v: Version, level: nat, in0: Level, in1: Level, g: File, lo: UserKey, hi: UserKey, e: Entry)
    requires LevelsOk(v) && level + 1 < NUM_LEVELS && (forall f :: f in in0 ==> f in v.levels[level])
    requires Hull(in0, lo, hi) && in1 == Overlapping(v.levels[level + 1], Some(lo), Some(hi))
    requires g in v.levels[level + 1] && g !in in1 && e in InputSet(in0, in1)
    ensures g.largest.user < lo ==> Less(g.largest, e.key)
    ensures hi < g.smallest.user ==> Less(e.key, g.smallest)
  {
    if e in LevelSet(in0) {
      var f :| f in in0 && e in f.entries;
      EntryInRange(f, e);
    } else {
      var f :| f in in1 && e in f.entries;
      EntryInRange(f, e);
      SideOfFile(v.levels[level + 1], f, g, lo, hi);
    }
  }

  /** In a sorted level, files before or after a range are before or after the files that overlap it. */
  lemma SideOfFile(files: Level, f: File, g: File, lo: UserKey, hi: UserKey)
    requires FilesOk(files) && LevelSorted(files) && f in files && g in files && f != g
    requires Overlaps(f, Some(lo), Some(hi))
    ensures g.largest.user < lo ==> Less(g.largest, f.smallest)
    ensures hi < g.smallest.user ==> Less(f.largest, g.smallest)
  {
    RangeOk(f);
    RangeOk(g);
    SortedIsApart(files);
    assert Apart(f, g);
  }

  lemma SelectionGivesInputsOk(v: Version, level: nat, in0: Level, in1: Level)
    requires LevelsOk(v) && level + 1 < NUM_LEVELS && GoodSelection(v, level, in0, in1)
    ensures InputsOk(v, level, in0, in1) && RoomBelow(v, level, in1, InputSet(in0, in1))
  {
    forall g | g in v.levels[level + 1] && g !in in1
      ensures Beside(g, InputSet(in0, in1)) && NoSharedUsers(SetOf(g.entries), LevelSet(in0))
    {
      UnselectedBeside(v, level, in0, in1, g);
    }
  }

  // ----- the version after a compaction -----

  lemma RebuiltEntry(old_: Level, minus: Level, plus: Level, new_: Level, e: Entry)
    requires Rebuilt(old_, minus, plus, new_) && e in LevelSet(new_)
    ensures e in LevelSet(plus) || exists g :: g in old_ && g !in minus && e in g.entries
  {
    var f :| f in new_ && e in f.entries;
  }

  lemma OutputApart(I: set<Entry>, g: File, o: File)
    requires FileOk(o) && SetOf(o.entries) <= I && Beside(g, I)
    ensures Apart(g, o)
  {
    var first, last := o.entries[0], o.entries[|o.entries| - 1];
    assert first in SetOf(o.entries) && last in SetOf(o.entries);
  }

  /** Outputs made of entries that every staying file has on one side fit between those files. */
  lemma BesideFits(v: Version, level: nat, in1: Level, outs: Level, E: set<Entry>)
    requires |v.levels| == NUM_LEVELS && level + 1 < NUM_LEVELS && RoomBelow(v, level, in1, E)
    requires FilesOk(outs) && LevelSet(outs) <= E
    ensures OutputsFit(v, level, in1, outs)
  {
    forall g, o | g in v.levels[level + 1] && g !in in1 && o in outs ensures Apart(g, o) {
      assert SetOf(o.entries) <= LevelSet(outs);
      OutputApart(E, g, o);
    }
  }

  lemma FittingIsSorted(v: Version, level: nat, in0: Level, in1: Level, outs: Level, v': Version)
    requires LevelsOk(v) && level + 1 < NUM_LEVELS && OutputsFit(v, level, in1, outs)
    requires OutputsOk(in0, in1, outs) && Replaced(v, level, in0, in1, outs, v')
    ensures FilesOk(v'.levels[level + 1]) && LevelSorted(v'.levels[level + 1])
  {
    var new_ := v'.levels[level + 1];
    SortedIsApart(v.levels[level + 1]);
    SortedIsApart(outs);
    forall f, g | f in new_ && g in new_ && f != g ensures Apart(f, g) {
      assert f in outs && g !in outs ==> Apart(g, f);
    }
    OrderedApartIsSorted(new_);
  }

  lemma ApartShareNothing(f: File, g: File)
    requires FileOk(f) && FileOk(g) && Apart(f, g)
    ensures SetOf(f.entries) !! SetOf(g.entries)
  {
    forall e, d | e in f.entries && d in g.entries ensures e != d {
      EntryInRange(f, e);
      EntryInRange(g, d);
    }
  }

  lemma FilesShareNothing(files: Level, g: File, chosen: Level)
    requires FilesOk(files) && LevelSorted(files) && g in files && g !in chosen && forall f :: f in chosen ==> f in files
    ensures SetOf(g.entries) !! LevelSet(chosen)
  {
    SortedIsApart(files);
    forall f | f in chosen ensures SetOf(f.entries) !! SetOf(g.entries) {
      ApartShareNothing(f, g);
    }
    assert forall f, e :: f in chosen && e in f.entries ==> e in SetOf(f.entries);
  }

  lemma UnsharedIsDisjoint(A: set<Entry>, B: set<Entry>)
    requires NoSharedUsers(A, B)
    ensures A !! B
  {
  }

  lemma DisjointIsNoOutput(g: File, outs: Level, o: File, I: set<Entry>)
    requires SetOf(g.entries) !! I && LevelSet(outs) <= I && o in outs && FileOk(o)
    ensures g != o
  {
    var e := o.entries[0];
    assert e in o.entries && e in LevelSet(outs);
  }

  /** A file that stays is no output: it holds none of the input entries. */
  lemma StayingIsNoOutput(v: Version, level: nat, in0: Level, in1: Level, outs: Level, g: File, o: File)
    requires LevelsOk(v) && level + 1 < NUM_LEVELS && InputsOk(v, level, in0, in1) && OutputsOk(in0, in1, outs)
    requires g in v.levels[level + 1] && g !in in1 && o in outs
    ensures g != o
  {
    hide SelectedAreOldest, NoSharedUsers, FileOk, LevelSet;
    FilesShareNothing(v.levels[level + 1], g, in1);
    UnsharedIsDisjoint(SetOf(g.entries), LevelSet(in0));
    DisjointIsNoOutput(g, outs, o, InputSet(in0, in1));
  }

  /** For any cut of the outputs: the output level is sorted again exactly when they fit. */
  lemma OutputLevelSortedIff(v: Version, level: nat, in0: Level, in1: Level, outs: Level, v': Version)
    requires LevelsOk(v) && level + 1 < NUM_LEVELS && InputsOk(v, level, in0, in1)
    requires OutputsOk(in0, in1, outs) && Replaced(v, level, in0, in1, outs, v')
    ensures FilesOk(v'.levels[level + 1])
    ensures LevelSorted(v'.levels[level + 1]) <==> OutputsFit(v, level, in1, outs)
  {
    if OutputsFit(v, level, in1, outs) {
      FittingIsSorted(v, level, in0, in1, outs, v');
    } else {
      var g, o :| g in v.levels[level + 1] && g !in in1 && o in outs && !Apart(g, o);
      StayingIsNoOutput(v, level, in0, in1, outs, g, o);
      assert g in v'.levels[level + 1] && o in v'.levels[level + 1];
      OverlapIsUnsorted(v'.levels[level + 1], g, o);
    }
  }

  lemma InputLevelSorted(v: Version, level: nat, in0: Level, in1: Level, outs: Level, v': Version)
    requires LevelsOk(v) && level + 1 < NUM_LEVELS && Replaced(v, level, in0, in1, outs, v')
    ensures FilesOk(v'.levels[level]) && (level > 0 ==> LevelSorted(v'.levels[level]))
  {
    if level > 0 {
      SortedIsApart(v.levels[level]);
      OrderedApartIsSorted(v'.levels[level]);
    }
  }

  /** Where an entry of the new version was before: its own level, or one above for what came down. */
  lemma Origin(v: Version, level: nat, in0: Level, in1: Level, outs: Level, v': Version, l: nat, e: Entry)
    requires |v.levels| == NUM_LEVELS && level + 1 < NUM_LEVELS && InputsOk(v, level, in0, in1)
    requires OutputsOk(in0, in1, outs) && Replaced(v, level, in0, in1, outs, v')
    requires l < NUM_LEVELS && e in LevelSet(v'.levels[l])
    ensures l != level + 1 ==> e in LevelSet(v.levels[l])
    ensures l == level + 1 ==> e in LevelSet(v.levels[l]) || e in LevelSet(in0)
    ensures e in LevelSet(in0) ==> e in LevelSet(v.levels[level])
  {
    if l == level {
      RebuiltEntry(v.levels[l], in0, [], v'.levels[l], e);
    } else if l == level + 1 {
      RebuiltEntry(v.levels[l], in1, outs, v'.levels[l], e);
      if e in LevelSet(outs) && e in LevelSet(in1) {
        var f :| f in in1 && e in f.entries;
        assert f in v.levels[l];
      }
    }
    if e in LevelSet(in0) {
      var f :| f in in0 && e in f.entries;
      assert f in v.levels[level];
    }
  }

  /** What stays at the input level is newer than what came down from it. */
  lemma StaysNewer(v: Version, level: nat, in0: Level, in1: Level, outs: Level, v': Version, a: Entry, b: Entry)
    requires |v.levels| == NUM_LEVELS && level + 1 < NUM_LEVELS && InputsOk(v, level, in0, in1)
    requires Replaced(v, level, in0, in1, outs, v')
    requires a in LevelSet(v'.levels[level]) && b in LevelSet(in0) && a.key.user == b.key.user
    ensures a.key.seqno > b.key.seqno
  {
    RebuiltEntry(v.levels[level], in0, [], v'.levels[level], a);
    var g :| g in v.levels[level] && g !in in0 && a in g.entries;
    var f :| f in in0 && b in f.entries;
    assert Newer(SetOf(g.entries), SetOf(f.entries));
    assert a in SetOf(g.entries) && b in SetOf(f.entries);
  }

  lemma StillOlderIsDeeper(v: Version, level: nat, in0: Level, in1: Level, outs: Level, v': Version,
                           i: nat, j: nat, a: Entry, b: Entry)
    requires VersionOk(v) && level + 1 < NUM_LEVELS && InputsOk(v, level, in0, in1)
    requires OutputsOk(in0, in1, outs) && Replaced(v, level, in0, in1, outs, v')
    requires i < j < NUM_LEVELS && a in LevelSet(v'.levels[i]) && b in LevelSet(v'.levels[j])
    requires a.key.user == b.key.user
    ensures a.key.seqno > b.key.seqno
  {
    Origin(v, level, in0, in1, outs, v', i, a);
    Origin(v, level, in0, in1, outs, v', j, b);
    if i == level && b in LevelSet(in0) {
      StaysNewer(v, level, in0, in1, outs, v', a, b);
    } else {
      var i' := if a in LevelSet(v.levels[i]) then i else level;
      var j' := if b in LevelSet(v.levels[j]) then j else level;
      assert i' < j';
      assert Newer(LevelSet(v.levels[i']), LevelSet(v.levels[j']));
    }
  }

  lemma ReplacedLevelsOk(v: Version, level: nat, in0: Level, in1: Level, outs: Level, v': Version)
    requires LevelsOk(v) && level + 1 < NUM_LEVELS && InputsOk(v, level, in0, in1)
    requires OutputsOk(in0, in1, outs) && Replaced(v, level, in0, in1, outs, v')
    ensures LevelsOk(v') <==> OutputsFit(v, level, in1, outs)
  {
    OutputLevelSortedIff(v, level, in0, in1, outs, v');
    InputLevelSorted(v, level, in0, in1, outs, v');
  }

  lemma ReplacedOlderIsDeeper(v: Version, level: nat, in0: Level, in1: Level, outs: Level, v': Version)
    requires VersionOk(v) && level + 1 < NUM_LEVELS && InputsOk(v, level, in0, in1)
    requires OutputsOk(in0, in1, outs) && Replaced(v, level, in0, in1, outs, v')
    ensures OlderIsDeeper(v')
  {
    forall i, j | 0 <= i < j < NUM_LEVELS ensures Newer(LevelSet(v'.levels[i]), LevelSet(v'.levels[j])) {
      forall a, b | a in LevelSet(v'.levels[i]) && b in LevelSet(v'.levels[j]) && a.key.user == b.key.user
        ensures a.key.seqno > b.key.seqno
      {
        StillOlderIsDeeper(v, level, in0, in1, outs, v', i, j, a, b);
      }
    }
  }

  /** A replacement keeps every level invariant exactly when its outputs fit. */
  lemma ReplacedVersionOk(v: Version, level: nat, in0: Level, in1: Level, outs: Level, v': Version)
    requires VersionOk(v) && level + 1 < NUM_LEVELS && InputsOk(v, level, in0, in1)
    requires OutputsOk(in0, in1, outs) && Replaced(v, level, in0, in1, outs, v')
    ensures VersionOk(v') <==> OutputsFit(v, level, in1, outs)
  {
    ReplacedLevelsOk(v, level, in0, in1, outs, v');
    ReplacedOlderIsDeeper(v, level, in0, in1, outs, v');
    assert forall f :: f in v'.levels[0] ==> f in v.levels[0];
  }

  // ----- the contents after a compaction -----

  ghost predicate Selected(level: nat, in0: Level, in1: Level, l: nat, g: File) {
    (l == level && g in in0) || (l == level + 1 && g in in1)
  }

  lemma NewerDisjoint(A: set<Entry>, B: set<Entry>)
    requires Newer(A, B)
    ensures A !! B
  {
  }

  lemma LevelsShareNothing(v: Version, i: nat, j: nat)
    requires |v.levels| == NUM_LEVELS && OlderIsDeeper(v) && i < NUM_LEVELS && j < NUM_LEVELS && i != j
    ensures LevelSet(v.levels[i]) !! LevelSet(v.levels[j])
  {
    NewerDisjoint(LevelSet(v.levels[if i < j then i else j]), LevelSet(v.levels[if i < j then j else i]));
  }

  lemma InputsInVersion(v: Version, level: nat, in0: Level, in1: Level)
    requires |v.levels| == NUM_LEVELS && level + 1 < NUM_LEVELS && InputsOk(v, level, in0, in1)
    ensures LevelSet(in0) <= LevelSet(v.levels[level]) && LevelSet(in1) <= LevelSet(v.levels[level + 1])
    ensures InputSet(in0, in1) <= VersionSet(v)
  {
    assert LevelSet(v.levels[level]) <= VersionSet(v) && LevelSet(v.levels[level + 1]) <= VersionSet(v);
  }

  lemma BehindIsDisjoint(files: Level, chosen: Level, g: File)
    requires SelectedAreOldest(files, chosen) && g in files && g !in chosen
    ensures SetOf(g.entries) !! LevelSet(chosen)
  {
    forall e | e in LevelSet(chosen) ensures e !in SetOf(g.entries) {
      var f :| f in chosen && e in f.entries;
      assert e in SetOf(f.entries);
      NewerDisjoint(SetOf(g.entries), SetOf(f.entries));
    }
  }

  /** Entries of the files that stay are not input entries. */
  lemma StayingIsNotInput(v: Version, level: nat, in0: Level, in1: Level, l: nat, g: File)
    requires LevelsOk(v) && OlderIsDeeper(v) && level + 1 < NUM_LEVELS && InputsOk(v, level, in0, in1)
    requires l < NUM_LEVELS && g in v.levels[l] && !Selected(level, in0, in1, l, g)
    ensures SetOf(g.entries) !! InputSet(in0, in1)
  {
    assert SetOf(g.entries) <= LevelSet(v.levels[l]);
    InputsInVersion(v, level, in0, in1);
    if l == level + 1 {
      FilesShareNothing(v.levels[l], g, in1);
      LevelsShareNothing(v, l, level);
    } else {
      LevelsShareNothing(v, l, level + 1);
      if l == level {
        BehindIsDisjoint(v.levels[l], in0, g);
      } else {
        LevelsShareNothing(v, l, level);
      }
    }
  }

  /** The new version holds the outputs and what was not an input. */
  lemma ReplacedContents(v: Version, level: nat, in0: Level, in1: Level, outs: Level, v': Version)
    requires VersionOk(v) && level + 1 < NUM_LEVELS && InputsOk(v, level, in0, in1)
    requires OutputsOk(in0, in1, outs) && Replaced(v, level, in0, in1, outs, v')
    ensures VersionSet(v') == (VersionSet(v) - InputSet(in0, in1)) + LevelSet(outs)
  {
    hide LevelsOk, OlderIsDeeper, LevelZeroByNumber, InputsOk, OutputsOk, Rebuilt, VersionSet, LevelSet, InputSet;
    assert |v.levels| == NUM_LEVELS by { LevelCount(v); }
    forall e | e in VersionSet(v') ensures e in (VersionSet(v) - InputSet(in0, in1)) + LevelSet(outs) {
      if e !in LevelSet(outs) {
        ReplacedHas(v, level, in0, in1, outs, v', e);
      }
    }
    forall e | e in (VersionSet(v) - InputSet(in0, in1)) + LevelSet(outs) ensures e in VersionSet(v') {
      ReplacedKeeps(v, level, in0, in1, outs, v', e);
    }
  }

  lemma LevelCount(v: Version)
    requires LevelsOk(v)
    ensures |v.levels| == NUM_LEVELS
  {
  }

  lemma ReplacedHas(v: Version, level: nat, in0: Level, in1: Level, outs: Level, v': Version, e: Entry)
    requires VersionOk(v) && level + 1 < NUM_LEVELS && InputsOk(v, level, in0, in1)
    requires Replaced(v, level, in0, in1, outs, v') && e in VersionSet(v') && e !in LevelSet(outs)
    ensures e in VersionSet(v) && e !in InputSet(in0, in1)
  {
    hide OlderIsDeeper, LevelZeroByNumber, LevelSorted, InputsOk, InputSet, InFileOrder, FileOk;
    var l :| 0 <= l < NUM_LEVELS && e in LevelSet(v'.levels[l]);
    var g :| g in v'.levels[l] && e in g.entries;
    assert g !in outs;
    assert g in v.levels[l] && !Selected(level, in0, in1, l, g);
    StayingIsNotInput(v, level, in0, in1, l, g);
    assert e in SetOf(g.entries);
    assert e in LevelSet(v.levels[l]);
  }

  lemma ReplacedKeeps(v: Version, level: nat, in0: Level, in1: Level, outs: Level, v': Version, e: Entry)
    requires |v.levels| == NUM_LEVELS && level + 1 < NUM_LEVELS
    requires Replaced(v, level, in0, in1, outs, v')
    requires (e in VersionSet(v) && e !in InputSet(in0, in1)) || e in LevelSet(outs)
    ensures e in VersionSet(v')
  {
    if e in LevelSet(outs) {
      var g :| g in outs && e in g.entries;
      assert g in v'.levels[level + 1];
      assert e in LevelSet(v'.levels[level + 1]);
    } else {
      var l :| 0 <= l < NUM_LEVELS && e in LevelSet(v.levels[l]);
      var g :| g in v.levels[l] && e in g.entries;
      assert g in in0 ==> e in LevelSet(in0);
      assert g in in1 ==> e in LevelSet(in1);
      assert g in v'.levels[l];
      assert e in LevelSet(v'.levels[l]);
    }
  }

  // ----- a compaction between its start and its installation -----

  /**
  A compaction in flight: its inputs, and the version and oldest snapshot at its start.
  `manual` marks one requested for a key range rather than picked.
  */
  datatype Job = Job(level: nat, in0: Level, in1: Level, snap: nat, base: Version, manual: bool)

  ghost function JobInputs(job: Job): set<Entry> {
    InputSet(job.in0, job.in1)
  }

  /** Files that appeared below the output level since the start have no key of the inputs. */
  ghost predicate DeeperKnown(v: Version, job: Job)
    requires |v.levels| == NUM_LEVELS && |job.base.levels| == NUM_LEVELS
  {
    forall l, g :: job.level + 2 <= l < NUM_LEVELS && g in v.levels[l] ==>
      g in job.base.levels[l] || NoSharedUsers(SetOf(g.entries), JobInputs(job))
  }

  ghost predicate JobOk(v: Version, job: Job)
    requires |v.levels| == NUM_LEVELS
  {
    && job.level + 1 < NUM_LEVELS && LevelsOk(job.base)
    && InputsOk(v, job.level, job.in0, job.in1)
    && DeeperKnown(v, job)
  }

  /** What the job will write. */
  ghost function JobKept(job: Job): set<Entry>
    requires |job.base.levels| == NUM_LEVELS
  {
    Kept(job.base, job.level, JobInputs(job), job.snap)
  }

  /** Nothing at the output level is in the way of the job, and nothing older was left behind there. */
  ghost predicate JobClean(v: Version, job: Job)
    requires |v.levels| == NUM_LEVELS && |job.base.levels| == NUM_LEVELS && job.level + 1 < NUM_LEVELS
  {
    SelectedAreOldest(v.levels[job.level + 1], job.in1) && RoomBelow(v, job.level, job.in1, JobKept(job))
  }

  /** The output files of a finished compaction. */
  ghost predicate OutputsFor(job: Job, outs: Level)
    requires |job.base.levels| == NUM_LEVELS
  {
    FilesOk(outs) && LevelSorted(outs) && LevelSet(outs) == JobKept(job)
  }

  /** The condition that input selection leaves unchecked at the output level. */
  ghost predicate CleanCut(v: Version, level: nat, in1: Level)
    requires |v.levels| == NUM_LEVELS && level + 1 < NUM_LEVELS
  {
    BoundaryClosed(v.levels[level + 1], in1)
  }

  lemma CleanCutIsOldest(files: Level, lo: UserKey, hi: UserKey, in1: Level)
    requires FilesOk(files) && LevelSorted(files) && Distinct(LevelSet(files))
    requires in1 == Overlapping(files, Some(lo), Some(hi)) && BoundaryClosed(files, in1)
    ensures SelectedAreOldest(files, in1)
  {
    if in1 != [] {
      assert files[..|files|] == files;
      OverlappingIsRun(files, |files|, Some(lo), Some(hi));
      var m := MaxExists(in1);
      RunIsOldest(files, in1, m);
    }
  }

  lemma CleanSelectionIsOldest(v: Version, level: nat, in0: Level, in1: Level)
    requires LevelsOk(v) && level + 1 < NUM_LEVELS && OverlapHull(v.levels[level + 1], in0, in1)
    requires CleanCut(v, level, in1) && Distinct(LevelSet(v.levels[level + 1]))
    ensures SelectedAreOldest(v.levels[level + 1], in1)
  {
    var lo, hi :| Hull(in0, lo, hi) && in1 == Overlapping(v.levels[level + 1], Some(lo), Some(hi));
    CleanCutIsOldest(v.levels[level + 1], lo, hi, in1);
  }

  /** Every selection the code makes is a job it may install. */
  lemma SelectionGivesJob(v: Version, level: nat, in0: Level, in1: Level, snap: nat, manual: bool)
    requires LevelsOk(v) && level + 1 < NUM_LEVELS && GoodSelection(v, level, in0, in1)
    ensures JobOk(v, Job(level, in0, in1, snap, v, manual))
  {
    hide FilesOk, LevelSorted, GoodSelection, InputsOk, LevelSet;
    SelectionGivesInputsOk(v, level, in0, in1);
    assert DeeperKnown(v, Job(level, in0, in1, snap, v, manual));
  }

  /** One whose next-level cut is clean starts clean. */
  lemma CleanSelectionGivesCleanJob(v: Version, level: nat, in0: Level, in1: Level, snap: nat, manual: bool)
    requires LevelsOk(v) && level + 1 < NUM_LEVELS && GoodSelection(v, level, in0, in1)
    requires CleanCut(v, level, in1) && Distinct(LevelSet(v.levels[level + 1]))
    ensures JobClean(v, Job(level, in0, in1, snap, v, manual))
  {
    hide FilesOk, LevelSorted, OverlapHull, InputsOk, SelectedAreOldest, BoundaryClosed, Distinct, LevelSet;
    SelectionGivesInputsOk(v, level, in0, in1);
    CleanSelectionIsOldest(v, level, in0, in1);
    RoomForLess(v, level, in1, InputSet(in0, in1), JobKept(Job(level, in0, in1, snap, v, manual)));
  }

  lemma RoomForLess(v: Version, level: nat, in1: Level, E: set<Entry>, K: set<Entry>)
    requires |v.levels| == NUM_LEVELS && level + 1 < NUM_LEVELS && RoomBelow(v, level, in1, E) && K <= E
    ensures RoomBelow(v, level, in1, K)
  {
    forall g | g in v.levels[level + 1] && g !in in1 ensures Beside(g, K) {
      assert Beside(g, E);
    }
  }

  /** A file left behind beside a chosen one holds only newer entries of a shared key. */
  lemma BehindIsNewer(files: Level, chosen: Level, g: File, e: Entry, o: Entry)
    requires SelectedAreOldest(files, chosen) && g in files && g !in chosen
    requires e in LevelSet(chosen) && o in g.entries && o.key.user == e.key.user
    ensures o.key.seqno > e.key.seqno
  {
    var f :| f in chosen && e in f.entries;
    assert Newer(SetOf(g.entries), SetOf(f.entries));
    assert e in SetOf(f.entries) && o in SetOf(g.entries);
  }

  lemma ShallowerIsNewer(v: Version, l: nat, m: nat, o: Entry, e: Entry)
    requires |v.levels| == NUM_LEVELS && OlderIsDeeper(v) && l < m < NUM_LEVELS && o in LevelSet(v.levels[l]) && e in LevelSet(v.levels[m])
    requires o.key.user == e.key.user
    ensures o.key.seqno > e.key.seqno
  {
    assert Newer(LevelSet(v.levels[l]), LevelSet(v.levels[m]));
  }

  lemma RoomMeansUnshared(v: Version, level: nat, in0: Level, in1: Level, g: File, e: Entry, o: Entry)
    requires |v.levels| == NUM_LEVELS && level + 1 < NUM_LEVELS && UnsharedBelow(v, level, in0, in1)
    requires g in v.levels[level + 1] && g !in in1 && e in LevelSet(in0) && o in g.entries
    ensures o.key.user != e.key.user
  {
    assert o in SetOf(g.entries);
  }

  /** Below the output level nothing shares a key that has no file there. */
  lemma NothingDeeper(v: Version, job: Job, l: nat, g: File, e: Entry, o: Entry)
    requires |v.levels| == NUM_LEVELS && JobOk(v, job) && job.level + 2 <= l < NUM_LEVELS && FileOk(g)
    requires e in JobInputs(job) && BaseLevel(job.base, job.level, e.key.user)
    requires g in v.levels[l] && o in g.entries
    ensures o.key.user != e.key.user
  {
    EntryInRange(g, o);
    assert o in SetOf(g.entries);
    if g in job.base.levels[l] {
      assert !Covers(g, e.key.user);
    }
  }

  /**
  Outside the inputs, an entry older than an input entry of a key with no deeper file can
  only sit at the output level, behind a chosen file of that level.
  */
  lemma OlderOutside(v: Version, job: Job, l: nat, g: File, e: Entry, o: Entry)
    requires |v.levels| == NUM_LEVELS && OlderIsDeeper(v) && JobOk(v, job) && FileOk(g)
    requires e in JobInputs(job) && BaseLevel(job.base, job.level, e.key.user)
    requires l < NUM_LEVELS && g in v.levels[l] && !Selected(job.level, job.in0, job.in1, l, g)
    requires o in g.entries && o.key.user == e.key.user && o.key.seqno <= e.key.seqno
    ensures l == job.level + 1 && e in LevelSet(job.in1)
  {
    hide FileOk, LevelsOk, OlderIsDeeper, BaseLevel, DeeperKnown, UnsharedBelow, SelectedAreOldest, LevelSorted;
    assert o in LevelSet(v.levels[l]) && o in SetOf(g.entries);
    InputsInVersion(v, job.level, job.in0, job.in1);
    if l >= job.level + 2 {
      NothingDeeper(v, job, l, g, e, o);
    } else if e in LevelSet(job.in0) {
      if l == job.level {
        BehindIsNewer(v.levels[l], job.in0, g, e, o);
      } else if l < job.level {
        ShallowerIsNewer(v, l, job.level, o, e);
      } else {
        RoomMeansUnshared(v, job.level, job.in0, job.in1, g, e, o);
      }
    } else if l < job.level + 1 {
      ShallowerIsNewer(v, l, job.level + 1, o, e);
    }
  }

  /** When nothing older was left behind there either, nothing outside the inputs is older. */
  lemma NoOlderOutside(v: Version, job: Job, l: nat, g: File, e: Entry, o: Entry)
    requires |v.levels| == NUM_LEVELS && OlderIsDeeper(v) && JobOk(v, job) && FileOk(g)
    requires SelectedAreOldest(v.levels[job.level + 1], job.in1)
    requires e in JobInputs(job) && BaseLevel(job.base, job.level, e.key.user)
    requires l < NUM_LEVELS && g in v.levels[l] && !Selected(job.level, job.in0, job.in1, l, g)
    requires o in g.entries && o.key.user == e.key.user
    ensures o.key.seqno > e.key.seqno
  {
    hide FileOk, LevelsOk, OlderIsDeeper, BaseLevel, JobOk, SelectedAreOldest, JobInputs;
    if o.key.seqno <= e.key.seqno {
      OlderOutside(v, job, l, g, e, o);
      BehindIsNewer(v.levels[l], job.in1, g, e, o);
    }
  }

  /** Two files of a sorted level that share a user key meet in it: the older entries come later. */
  lemma MeetInKey(files: Level, f: File, g: File, e: Entry, o: Entry)
    requires FilesOk(files) && LevelSorted(files) && f in files && g in files && f != g
    requires e in f.entries && o in g.entries && o.key.user == e.key.user && o.key.seqno < e.key.seqno
    ensures f.largest.user == e.key.user && BoundaryFile(g, f.largest)
  {
    SortedIsApart(files);
    EntryInRange(f, e);
    EntryInRange(g, o);
  }

  /** What a compaction of the current version leaves alone. */
  ghost function Untouched(v: Version, job: Job): set<Entry> {
    VersionSet(v) - JobInputs(job)
  }

  /**
  For every selection the code can make, every way to cut the outputs and every horizon: the
  install changes no read at or above the horizon if and only if no user key has a
  tombstone as its newest entry there among the inputs, no deeper file, and a value left
  behind outside the inputs.
  */
  lemma VersionInvisibleIff(v: Version, job: Job, outs: Level, v': Version, horizon: nat)
    requires VersionOk(v) && Distinct(VersionSet(v)) && job.level + 1 < NUM_LEVELS && job.base == v
    requires GoodSelection(v, job.level, job.in0, job.in1) && OutputsFor(job, outs) && job.snap <= horizon
    requires Replaced(v, job.level, job.in0, job.in1, outs, v')
    ensures (forall u, s :: horizon <= s ==> Read(VersionSet(v'), u, s) == Read(VersionSet(v), u, s))
       <==> (forall u :: !Exposed(v, job.level, JobInputs(job), Untouched(v, job), job.snap, horizon, u))
  {
    SelectionGivesInputsOk(v, job.level, job.in0, job.in1);
    ReplacedContents(v, job.level, job.in0, job.in1, outs, v');
    InputsInVersion(v, job.level, job.in0, job.in1);
    var I, R := JobInputs(job), Untouched(v, job);
    assert VersionSet(v) == I + R;
    assert VersionSet(v') == Kept(v, job.level, I, job.snap) + R;
    InvisibleIffNothingExposed(v, job.level, I, R, job.snap, horizon);
  }

  /** An exposed key has an entry among the inputs and an older one outside them. */
  lemma ExposedPair(v: Version, level: nat, I: set<Entry>, R: set<Entry>, snap: nat, horizon: nat, u: UserKey)
      returns (e: Entry, o: Entry)
    requires |v.levels| == NUM_LEVELS && Distinct(I + R) && I !! R && Exposed(v, level, I, R, snap, horizon, u)
    ensures e in I && o in R && e.key.user == o.key.user == u && o.key.seqno < e.key.seqno
    ensures BaseLevel(v, level, u)
  {
    e :| e in I && IsNewest(I + R, u, horizon, e) && ObsoleteTombstone(v, level, snap, e);
    o :| IsNewest(R, u, horizon, o);
    assert o in I + R && o != e;
  }

  lemma LastBefore(files: Level, chosen: Level, x: nat, y: nat, z: nat)
    requires Run(files, chosen) && x < y < |files| && z < |files|
    requires files[x] in chosen && files[y] !in chosen && files[z] in chosen
    requires forall k :: z < k < |files| ==> files[k] !in chosen
    ensures x <= z < y
  {
  }

  lemma KeysBetween(files: Level, x: nat, z: nat, y: nat)
    requires FilesOk(files) && LevelSorted(files) && x <= z < y < |files|
    requires files[x].largest.user == files[y].smallest.user
    ensures files[z].largest.user == files[x].largest.user && BoundaryFile(files[y], files[z].largest)
  {
    RangeOk(files[z]);
    assert x < z ==> Less(files[x].largest, files[z].smallest);
  }

  lemma MaxChosen(files: Level, chosen: Level, f: File, g: File) returns (m: IKey)
    requires FilesOk(files) && LevelSorted(files) && Run(files, chosen) && forall h :: h in chosen ==> h in files
    requires f in chosen && g in files && g !in chosen && BoundaryFile(g, f.largest)
    ensures IsMaxLargest(chosen, m) && m.user == f.largest.user && BoundaryFile(g, m)
  {
    m := MaxExists(chosen);
    var z := MaxIsLast(files, chosen, m);
    var x :| 0 <= x < |files| && files[x] == f;
    var y :| 0 <= y < |files| && files[y] == g;
    SortedLargest(files, y, x);
    LastBefore(files, chosen, x, y, z);
    KeysBetween(files, x, z, y);
  }

  lemma OverlapHullIsRun(files: Level, around: Level, hits: Level)
    requires FilesOk(files) && LevelSorted(files) && OverlapHull(files, around, hits)
    ensures Run(files, hits)
  {
    var lo, hi :| Hull(around, lo, hi) && hits == Overlapping(files, Some(lo), Some(hi));
    assert files[..|files|] == files;
    OverlappingIsRun(files, |files|, Some(lo), Some(hi));
  }

  /**
  What a caller can test from file ranges: only the last user key of the next-level inputs
  can be exposed, and only if a file of that level that continues this key was left behind.
  */
  lemma OnlyBoundaryKeyExposed(v: Version, job: Job, horizon: nat, u: UserKey)
    requires VersionOk(v) && Distinct(VersionSet(v)) && job.level + 1 < NUM_LEVELS && job.base == v
    requires GoodSelection(v, job.level, job.in0, job.in1)
    requires Exposed(v, job.level, JobInputs(job), Untouched(v, job), job.snap, horizon, u)
    ensures exists m, g :: IsMaxLargest(job.in1, m) && m.user == u &&
              g in v.levels[job.level + 1] && g !in job.in1 && BoundaryFile(g, m)
    ensures !CleanCut(v, job.level, job.in1)
  {
    hide FileOk, LevelSorted, OlderIsDeeper, LevelZeroByNumber, Exposed, BaseLevel, VersionSet, LevelSet, Distinct, IsMaxLargest, OverlapHull, SelectedAreOldest, Run, DeeperKnown;
    var I, R := JobInputs(job), Untouched(v, job);
    SelectionGivesJob(v, job.level, job.in0, job.in1, job.snap, job.manual);
    InputsInVersion(v, job.level, job.in0, job.in1);
    assert I + R == VersionSet(v);
    var e, o := ExposedPair(v, job.level, I, R, job.snap, horizon, u);
    assert JobOk(v, job);
    var f, g := ExposedFiles(v, job, e, o);
    OverlapHullIsRun(v.levels[job.level + 1], job.in0, job.in1);
    var m := MaxChosen(v.levels[job.level + 1], job.in1, f, g);
    assert IsMaxLargest(job.in1, m) && BoundaryFile(g, m);
  }

  /** The files that hold an input entry and the older entry it hides outside the inputs. */
  lemma ExposedFiles(v: Version, job: Job, e: Entry, o: Entry) returns (f: File, g: File)
    requires VersionOk(v) && JobOk(v, job) && e in JobInputs(job) && BaseLevel(job.base, job.level, e.key.user)
    requires o in VersionSet(v) && o !in JobInputs(job) && o.key.user == e.key.user && o.key.seqno < e.key.seqno
    ensures f in job.in1 && g in v.levels[job.level + 1] && g !in job.in1
    ensures f.largest.user == e.key.user && BoundaryFile(g, f.largest)
  {
    var l: nat;
    l, g := Locate(v, o);
    NotInputNotSelected(job, l, g, o);
    OlderOutside(v, job, l, g, e, o);
    f :| f in job.in1 && e in f.entries;
    MeetInKey(v.levels[l], f, g, e, o);
  }

  lemma Locate(v: Version, o: Entry) returns (l: nat, g: File)
    requires LevelsOk(v) && o in VersionSet(v)
    ensures l < NUM_LEVELS && g in v.levels[l] && o in g.entries && FileOk(g)
  {
    l :| 0 <= l < NUM_LEVELS && o in LevelSet(v.levels[l]);
    g :| g in v.levels[l] && o in g.entries;
  }

  lemma NotInputNotSelected(job: Job, l: nat, g: File, o: Entry)
    requires o in g.entries && o !in JobInputs(job)
    ensures !Selected(job.level, job.in0, job.in1, l, g)
  {
    assert g in job.in0 ==> o in LevelSet(job.in0);
    assert g in job.in1 ==> o in LevelSet(job.in1);
  }
}
