/**
Installing a flushed memtable, alone or while a compaction is in flight.
*/
module Flush {
  import opened Common
  import opened Format
  import opened VersionModel
  import opened Lookup
  import opened Selection
  import opened Builder
  import opened Install
  import opened CompactionModel

  /** The version edit of a flush: one new file at one level. */
  ghost predicate Added(v: Version, level: nat, g: File, v': Version)
    requires |v.levels| == NUM_LEVELS && level < NUM_LEVELS
  {
    && |v'.levels| == NUM_LEVELS
    && Rebuilt(v.levels[level], [], [g], v'.levels[level])
    && forall l :: 0 <= l < NUM_LEVELS && l != level ==> v'.levels[l] == v.levels[l]
  }

  /** Files that do not overlap as user-key ranges are apart and share no user key. */
  lemma NoOverlapApart(f: File, g: File)
    requires FileOk(f) && FileOk(g) && !Overlaps(f, Some(g.smallest.user), Some(g.largest.user))
    ensures Apart(f, g)
    ensures NoSharedUsers(SetOf(f.entries), SetOf(g.entries)) && NoSharedUsers(SetOf(g.entries), SetOf(f.entries))
  {
    forall a, b | a in SetOf(f.entries) && b in SetOf(g.entries) ensures a.key.user != b.key.user {
      EntryInRange(f, a);
      EntryInRange(g, b);
    }
  }

  lemma AddedEntry(v: Version, level: nat, g: File, v': Version, l: nat, e: Entry)
    requires |v.levels| == NUM_LEVELS && level < NUM_LEVELS && Added(v, level, g, v')
    requires l < NUM_LEVELS && e in LevelSet(v'.levels[l])
    ensures e in LevelSet(v.levels[l]) || (l == level && e in SetOf(g.entries))
  {
    if l == level {
      RebuiltEntry(v.levels[l], [], [g], v'.levels[l], e);
    }
  }

  lemma AddedContents(v: Version, level: nat, g: File, v': Version)
    requires |v.levels| == NUM_LEVELS && level < NUM_LEVELS && Added(v, level, g, v')
    ensures VersionSet(v') == VersionSet(v) + SetOf(g.entries)
  {
    forall e | e in VersionSet(v') ensures e in VersionSet(v) + SetOf(g.entries) {
      var l :| 0 <= l < NUM_LEVELS && e in LevelSet(v'.levels[l]);
      AddedEntry(v, level, g, v', l, e);
    }
    forall e | e in VersionSet(v) + SetOf(g.entries) ensures e in VersionSet(v') {
      if e in SetOf(g.entries) {
        assert g in v'.levels[level];
        assert e in LevelSet(v'.levels[level]);
      } else {
        var l :| 0 <= l < NUM_LEVELS && e in LevelSet(v.levels[l]);
        var f :| f in v.levels[l] && e in f.entries;
        assert f in v'.levels[l];
        assert e in LevelSet(v'.levels[l]);
      }
    }
  }

  lemma AddedLevelOk(v: Version, level: nat, g: File, v': Version)
    requires LevelsOk(v) && level < NUM_LEVELS && FileOk(g) && Added(v, level, g, v')
    requires FlushLevelOk(v, level, g.smallest.user, g.largest.user)
    ensures FilesOk(v'.levels[level]) && (level > 0 ==> LevelSorted(v'.levels[level]))
  {
    if level > 0 {
      var new_ := v'.levels[level];
      SortedIsApart(v.levels[level]);
      forall f, h | f in new_ && h in new_ && f != h ensures Apart(f, h) {
        if f == g {
          NoOverlapApart(h, g);
        } else if h == g {
          NoOverlapApart(f, g);
        }
      }
      OrderedApartIsSorted(new_);
    }
  }

  /** A level the flush skipped shares no user key with the flushed file. */
  lemma SkippedUnshared(v: Version, level: nat, g: File, l: nat)
    requires LevelsOk(v) && FileOk(g) && FlushLevelOk(v, level, g.smallest.user, g.largest.user)
    requires level > 0 && l <= level
    ensures NoSharedUsers(LevelSet(v.levels[l]), SetOf(g.entries))
  {
    forall a, b | a in LevelSet(v.levels[l]) && b in SetOf(g.entries) ensures a.key.user != b.key.user {
      var f :| f in v.levels[l] && a in f.entries;
      NoOverlapApart(f, g);
      assert a in SetOf(f.entries);
    }
  }

  lemma AddedOlderIsDeeper(v: Version, level: nat, g: File, v': Version)
    requires VersionOk(v) && level < NUM_LEVELS && FileOk(g) && Added(v, level, g, v')
    requires FlushLevelOk(v, level, g.smallest.user, g.largest.user) && Newer(SetOf(g.entries), VersionSet(v))
    ensures OlderIsDeeper(v')
  {
    forall i, j, a, b | 0 <= i < j < NUM_LEVELS && a in LevelSet(v'.levels[i]) && b in LevelSet(v'.levels[j]) &&
                        a.key.user == b.key.user
      ensures a.key.seqno > b.key.seqno
    {
      AddedPairNewer(v, level, g, v', i, j, a, b);
    }
  }

  lemma AddedPairNewer(v: Version, level: nat, g: File, v': Version, i: nat, j: nat, a: Entry, b: Entry)
    requires VersionOk(v) && level < NUM_LEVELS && FileOk(g) && Added(v, level, g, v')
    requires FlushLevelOk(v, level, g.smallest.user, g.largest.user) && Newer(SetOf(g.entries), VersionSet(v))
    requires i < j < NUM_LEVELS && a in LevelSet(v'.levels[i]) && b in LevelSet(v'.levels[j])
    requires a.key.user == b.key.user
    ensures a.key.seqno > b.key.seqno
  {
    AddedEntry(v, level, g, v', i, a);
    AddedEntry(v, level, g, v', j, b);
    if a in LevelSet(v.levels[i]) {
      if b in LevelSet(v.levels[j]) {
        ShallowerIsNewer(v, i, j, a, b);
      } else {
        SkippedUnshared(v, level, g, i);
      }
    } else {
      assert b in VersionSet(v);
    }
  }

  ghost predicate NumbersBelow(v: Version, n: nat)
    requires |v.levels| == NUM_LEVELS
  {
    forall l, f :: 0 <= l < NUM_LEVELS && f in v.levels[l] ==> f.number < n
  }

  lemma AddedLevelZero(v: Version, level: nat, g: File, v': Version)
    requires VersionOk(v) && level < NUM_LEVELS && Added(v, level, g, v')
    requires Newer(SetOf(g.entries), VersionSet(v)) && NumbersBelow(v, g.number)
    ensures LevelZeroByNumber(v'.levels[0])
  {
    if level == 0 {
      forall f, h | f in v'.levels[0] && h in v'.levels[0] && f.number > h.number
        ensures Newer(SetOf(f.entries), SetOf(h.entries))
      {
        if f == g {
          assert SetOf(h.entries) <= LevelSet(v.levels[0]);
          assert LevelSet(v.levels[0]) <= VersionSet(v);
        }
      }
    }
  }

  /** PickLevelForMemTableOutput never places new data beneath old: a flush keeps every level invariant. */
  lemma FlushKeepsVersionOk(v: Version, level: nat, g: File, v': Version)
    requires VersionOk(v) && FileOk(g) && FlushLevelOk(v, level, g.smallest.user, g.largest.user)
    requires Added(v, level, g, v') && Newer(SetOf(g.entries), VersionSet(v)) && NumbersBelow(v, g.number)
    ensures VersionOk(v')
  {
    AddedLevelOk(v, level, g, v');
    AddedOlderIsDeeper(v, level, g, v');
    AddedLevelZero(v, level, g, v');
  }

  // ----- while a compaction is in flight -----

  /** The flushed file does not land, at the output level, between entries the job will write. */
  ghost predicate FlushClear(job: Job, level: nat, g: File)
    requires |job.base.levels| == NUM_LEVELS
  {
    level == job.level + 1 ==> Beside(g, JobKept(job))
  }

  lemma InputsOnOneSide(inputs: Level, g: File)
    requires FilesOk(inputs) && FileOk(g) && Gapless(inputs)
    requires forall f :: f in inputs ==> !Overlaps(f, Some(g.smallest.user), Some(g.largest.user))
    ensures (forall f :: f in inputs ==> f.largest.user < g.smallest.user) ||
            (forall f :: f in inputs ==> g.largest.user < f.smallest.user)
  {
    RangeOk(g);
    var p := g.smallest.user;
    assert !Covered(inputs, p);
    assert !InSpan(inputs, p);
    forall f | f in inputs ensures f.smallest.user <= f.largest.user {
      RangeOk(f);
    }
  }

  /** Picked inputs have no gap a flushed file could land in. */
  lemma GaplessFlushClear(v: Version, level: nat, g: File, job: Job)
    requires LevelsOk(v) && FileOk(g) && FlushLevelOk(v, level, g.smallest.user, g.largest.user)
    requires JobOk(v, job) && Gapless(job.in0 + job.in1)
    ensures FlushClear(job, level, g)
  {
    if level == job.level + 1 {
      var inputs := job.in0 + job.in1;
      InputsOnOneSide(inputs, g);
      forall e | e in JobInputs(job)
        ensures exists f :: f in inputs && f.smallest.user <= e.key.user <= f.largest.user
      {
        var f :| f in inputs && e in f.entries;
        EntryInRange(f, e);
      }
      assert Beside(g, JobInputs(job));
    }
  }

  lemma FlushKeepsOldest(files: Level, g: File, new_: Level, chosen: Level)
    requires Rebuilt(files, [], [g], new_) && SelectedAreOldest(files, chosen)
    requires Newer(SetOf(g.entries), LevelSet(chosen))
    ensures SelectedAreOldest(new_, chosen)
  {
    forall f, h | f in chosen && h in new_ && h !in chosen ensures Newer(SetOf(h.entries), SetOf(f.entries)) {
      if h == g {
        assert SetOf(f.entries) <= LevelSet(chosen);
      }
    }
  }

  lemma FlushUnshared(v: Version, level: nat, g: File, job: Job)
    requires LevelsOk(v) && FileOk(g) && FlushLevelOk(v, level, g.smallest.user, g.largest.user)
    requires JobOk(v, job) && level > job.level
    ensures NoSharedUsers(SetOf(g.entries), LevelSet(job.in0))
    ensures NoSharedUsers(SetOf(g.entries), JobInputs(job))
  {
    InputsInVersion(v, job.level, job.in0, job.in1);
    SkippedUnshared(v, level, g, job.level);
    SkippedUnshared(v, level, g, job.level + 1);
  }

  lemma FlushKeepsUnshared(v: Version, level: nat, g: File, v': Version, job: Job)
    requires LevelsOk(v) && FileOk(g) && FlushLevelOk(v, level, g.smallest.user, g.largest.user)
    requires Added(v, level, g, v') && JobOk(v, job)
    ensures UnsharedBelow(v', job.level, job.in0, job.in1)
  {
    if level == job.level + 1 {
      FlushUnshared(v, level, g, job);
    }
  }

  lemma FlushKeepsDeeper(v: Version, level: nat, g: File, v': Version, job: Job)
    requires LevelsOk(v) && FileOk(g) && FlushLevelOk(v, level, g.smallest.user, g.largest.user)
    requires Added(v, level, g, v') && JobOk(v, job)
    ensures DeeperKnown(v', job)
  {
    if level > job.level {
      FlushUnshared(v, level, g, job);
    }
  }

  lemma NewerSubset(A: set<Entry>, B: set<Entry>, C: set<Entry>)
    requires Newer(A, B) && C <= B
    ensures Newer(A, C)
  {
  }

  /** The same for a flush into any level, and the chosen files of any level. */
  lemma FlushKeepsSelection(v: Version, level: nat, g: File, v': Version, l: nat, chosen: Level)
    requires |v.levels| == NUM_LEVELS && level < NUM_LEVELS && l < NUM_LEVELS && Added(v, level, g, v')
    requires Newer(SetOf(g.entries), VersionSet(v)) && LevelSet(chosen) <= VersionSet(v)
    requires SelectedAreOldest(v.levels[l], chosen)
    ensures SelectedAreOldest(v'.levels[l], chosen)
  {
    hide SelectedAreOldest, Newer, VersionSet, LevelSet, Rebuilt;
    if level == l {
      NewerSubset(SetOf(g.entries), VersionSet(v), LevelSet(chosen));
      FlushKeepsOldest(v.levels[level], g, v'.levels[level], chosen);
    }
  }

  /** Any flush leaves a compaction in flight one whose install is decided by fit and exposure alone. */
  lemma FlushKeepsJob(v: Version, level: nat, g: File, v': Version, job: Job)
    requires LevelsOk(v) && FileOk(g) && FlushLevelOk(v, level, g.smallest.user, g.largest.user)
    requires Added(v, level, g, v') && Newer(SetOf(g.entries), VersionSet(v)) && JobOk(v, job)
    ensures JobOk(v', job)
  {
    hide SelectedAreOldest, UnsharedBelow, DeeperKnown, Added, LevelSet, VersionSet;
    InputsInVersion(v, job.level, job.in0, job.in1);
    FlushKeepsSelection(v, level, g, v', job.level, job.in0);
    FlushKeepsUnshared(v, level, g, v', job);
    FlushKeepsDeeper(v, level, g, v', job);
    InputsStay(v, level, g, v', job);
  }

  /** A flush keeps a clean job clean exactly when it does not land between what the job will write. */
  lemma FlushKeepsJobCleanIff(v: Version, level: nat, g: File, v': Version, job: Job)
    requires LevelsOk(v) && FileOk(g) && FlushLevelOk(v, level, g.smallest.user, g.largest.user)
    requires Added(v, level, g, v') && Newer(SetOf(g.entries), VersionSet(v)) && NumbersBelow(v, g.number)
    requires JobOk(v, job) && JobClean(v, job)
    ensures JobClean(v', job) <==> FlushClear(job, level, g)
  {
    hide SelectedAreOldest, LevelSet, VersionSet, Newer, Beside;
    InputsInVersion(v, job.level, job.in0, job.in1);
    FlushKeepsSelection(v, level, g, v', job.level + 1, job.in1);
    assert level == job.level + 1 ==> g in v'.levels[level] && g !in job.in1;
  }

  lemma InputsStay(v: Version, level: nat, g: File, v': Version, job: Job)
    requires |v.levels| == NUM_LEVELS && level < NUM_LEVELS && Added(v, level, g, v') && JobOk(v, job)
    ensures (forall f :: f in job.in0 ==> f in v'.levels[job.level])
    ensures (forall f :: f in job.in1 ==> f in v'.levels[job.level + 1])
  {
    forall f | f in job.in1 ensures f in v'.levels[job.level + 1] {
      assert f in v.levels[job.level + 1];
    }
  }
}
