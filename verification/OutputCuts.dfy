/**
A flush that lands at the output level of a compaction in flight: exactly which cuts of the
outputs leave that level sorted, and exactly when all of them do.
*/
module OutputCuts {
  import opened Common
  import opened Format
  import opened VersionModel
  import opened Lookup
  import opened Builder
  import opened CompactionModel
  import opened Selection
  import opened Install
  import opened Flush
  import opened Outputs
  import opened CompactionInput
  import M = Merger
  import R = Runs

  // ----- one output file -----

  lemma FlattenOne(run: seq<Entry>)
    ensures R.Flatten([run]) == run
  {
    assert [run][..0] == [];
  }

  /** Where nothing makes the loop cut, it writes one file with everything it keeps. */
  lemma UncutOutputs(job: Job, number: nat) returns (outs: Level)
    requires Started(job)
    ensures OutputsFor(job, outs)
    ensures JobKept(job) == {} ==> outs == []
    ensures JobKept(job) != {} ==> |outs| == 1 && outs[0].number == number && SetOf(outs[0].entries) == JobKept(job)
  {
    hide Started, Kept, KeptPrefix, M.Merged, InputSources, FileOk, LevelSorted;
    assert |job.base.levels| == NUM_LEVELS by { StartedLevels(job); }
    var input := M.Merged(InputSources(job));
    SourcesMergeInputs(job);
    var kept := KeptPrefix(job.base, job.level, input, job.snap, |input|);
    KeptIsKept(job.base, job.level, input, job.snap);
    KeptNumbers(job, kept);
    if kept == [] {
      outs := [];
      EmptyOutputs();
    } else {
      FlattenOne(kept);
      RunsMakeLevel([kept], [number], [0]);
      outs := MakeFiles([kept], [number], [0]);
      assert kept[0] in SetOf(kept);
    }
  }

  lemma KeptNumbers(job: Job, kept: seq<Entry>)
    requires Started(job) && SetOf(kept) == JobKept(job)
    ensures forall e :: e in kept ==> e.key.seqno <= MAX_SEQUENCE
  {
    hide VersionOk, GoodSelection, Dropped;
    StartedLevels(job);
    StartedInputs(job);
    InputNumbers(job);
    forall e | e in kept ensures e in JobInputs(job) {
      assert e in SetOf(kept);
    }
  }

  lemma EmptyOutputs()
    ensures FilesOk([]) && LevelSorted([]) && LevelSet([]) == {}
  {
  }

  // ----- the version edit always has a result -----

  lemma InOrderSnoc(files: Level, f: File)
    requires InFileOrder(files) && forall g :: g in files ==> FileLess(g, f)
    ensures InFileOrder(files + [f])
  {
  }

  lemma {:induction false} RemoveFiles(files: Level, minus: Level) returns (new_: Level)
    requires InFileOrder(files)
    ensures Rebuilt(files, minus, [], new_)
  {
    new_ := [];
    if files != [] {
      var rest, f := files[..|files| - 1], files[|files| - 1];
      assert files == rest + [f];
      new_ := RemoveFiles(rest, minus);
      if f !in minus {
        forall g | g in new_ ensures FileLess(g, f) {
          var i :| 0 <= i < |rest| && rest[i] == g;
          assert FileLess(files[i], f);
        }
        InOrderSnoc(new_, f);
        new_ := new_ + [f];
      }
    }
  }

  lemma {:induction false} InsertFile(files: Level, o: File) returns (new_: Level)
    requires InFileOrder(files) && forall f :: f in files ==> f.number != o.number
    ensures InFileOrder(new_) && forall f :: f in new_ <==> f in files || f == o
  {
    if files == [] {
      new_ := [o];
    } else {
      var rest, f := files[..|files| - 1], files[|files| - 1];
      assert files == rest + [f];
      if FileLess(f, o) {
        forall g | g in files ensures FileLess(g, o) {
          if g != f {
            var i :| 0 <= i < |rest| && rest[i] == g;
            assert FileLess(files[i], f);
            FileLessTransitive(g, f, o);
          }
        }
        InOrderSnoc(files, o);
        new_ := files + [o];
      } else {
        new_ := InsertFile(rest, o);
        assert f in files;
        forall g | g in new_ ensures FileLess(g, f) {
          if g != o {
            var i :| 0 <= i < |rest| && rest[i] == g;
            assert FileLess(files[i], f);
          }
        }
        InOrderSnoc(new_, f);
        new_ := new_ + [f];
      }
    }
  }

  lemma InstalledOne(v: Version, level: nat, in0: Level, in1: Level, o: File) returns (v': Version)
    requires |v.levels| == NUM_LEVELS && level + 1 < NUM_LEVELS
    requires InFileOrder(v.levels[level]) && InFileOrder(v.levels[level + 1])
    requires forall f :: f in v.levels[level + 1] ==> f.number != o.number
    ensures Replaced(v, level, in0, in1, [o], v')
  {
    var upper := RemoveFiles(v.levels[level], in0);
    var lower := RemoveFiles(v.levels[level + 1], in1);
    lower := InsertFile(lower, o);
    v' := Version(v.levels[level := upper][level + 1 := lower]);
  }

  // ----- a flushed file in the way -----

  /** A file was flushed to the output level while the job, with nothing in its way until then, ran. */
  ghost predicate FlushedInto(v: Version, g: File, v1: Version, job: Job) {
    && VersionOk(v) && FileOk(g) && job.level + 1 < NUM_LEVELS
    && FlushLevelOk(v, job.level + 1, g.smallest.user, g.largest.user)
    && Newer(SetOf(g.entries), VersionSet(v)) && NumbersBelow(v, g.number)
    && Added(v, job.level + 1, g, v1)
    && JobOk(v, job) && RoomBelow(v, job.level, job.in1, JobKept(job))
  }

  lemma FlushedIntoOk(v: Version, g: File, v1: Version, job: Job)
    requires FlushedInto(v, g, v1, job)
    ensures LevelsOk(v1) && JobOk(v1, job) && g in v1.levels[job.level + 1] && g !in job.in1
    ensures forall f :: f in v1.levels[job.level + 1] && f !in job.in1 && f != g ==> f in v.levels[job.level + 1]
  {
    hide OlderIsDeeper, LevelZeroByNumber, Newer, JobOk, LevelSet, VersionSet, FileOk;
    AddedLevelOk(v, job.level + 1, g, v1);
    FlushKeepsJob(v, job.level + 1, g, v1, job);
    InputsAreOlder(v, g, job);
  }

  lemma InputsAreOlder(v: Version, g: File, job: Job)
    requires |v.levels| == NUM_LEVELS && NumbersBelow(v, g.number) && JobOk(v, job)
    ensures g !in job.in1
  {
  }

  /** For every cut of the outputs: the output level is sorted exactly when no output reaches across the flushed file. */
  lemma FlushedSortedIff(v: Version, g: File, v1: Version, job: Job, outs: Level, v2: Version)
    requires FlushedInto(v, g, v1, job) && OutputsFor(job, outs)
    requires Replaced(v1, job.level, job.in0, job.in1, outs, v2)
    ensures LevelSorted(v2.levels[job.level + 1]) <==> forall o :: o in outs ==> Apart(g, o)
  {
    hide OlderIsDeeper, LevelZeroByNumber, FilesOk, LevelSorted, FlushLevelOk, Newer, Added, JobOk, Dropped, Apart, Replaced;
    FlushedLevels(v, g, v1, job);
    FlushedIntoOk(v, g, v1, job);
    assert InputsOk(v1, job.level, job.in0, job.in1) by { JobInputsOk(v1, job); }
    OutputLevelSortedIff(v1, job.level, job.in0, job.in1, outs, v2);
    BesideFits(v, job.level, job.in1, outs, JobKept(job));
  }

  lemma JobInputsOk(v: Version, job: Job)
    requires |v.levels| == NUM_LEVELS && JobOk(v, job)
    ensures InputsOk(v, job.level, job.in0, job.in1)
  {
  }

  lemma SpanningMeansBeside(g: File, o: File)
    requires FileOk(o) && Apart(g, o)
    ensures Beside(g, SetOf(o.entries))
  {
    forall e | e in SetOf(o.entries) ensures AtMost(o.smallest, e.key) && AtMost(e.key, o.largest) {
      EntryInRange(o, e);
    }
  }

  /** Every cut leaves the output level sorted. */
  ghost predicate EveryCutSorted(v1: Version, job: Job)
    requires |v1.levels| == NUM_LEVELS && job.level + 1 < NUM_LEVELS && |job.base.levels| == NUM_LEVELS
  {
    forall outs, v2 :: OutputsFor(job, outs) && Replaced(v1, job.level, job.in0, job.in1, outs, v2) ==>
      LevelSorted(v2.levels[job.level + 1])
  }

  /** Over all cuts: the level stays sorted whatever the cut exactly when all that is kept lies on one side of the file. */
  lemma FlushedAlwaysSortedIff(v: Version, g: File, v1: Version, job: Job)
    requires FlushedInto(v, g, v1, job) && Started(job) && InFileOrder(v1.levels[job.level])
    ensures EveryCutSorted(v1, job) <==> Beside(g, JobKept(job))
  {
    hide FlushedInto, Started, Beside, JobKept, JobOk;
    FlushedLevels(v, g, v1, job);
    if Beside(g, JobKept(job)) {
      forall outs, v2 | OutputsFor(job, outs) && Replaced(v1, job.level, job.in0, job.in1, outs, v2)
        ensures LevelSorted(v2.levels[job.level + 1])
      {
        BesideIsSorted(v, g, v1, job, outs, v2);
      }
    } else {
      var outs, v2 := UnsortedCut(v, g, v1, job);
    }
  }

  lemma FlushedLevels(v: Version, g: File, v1: Version, job: Job)
    requires FlushedInto(v, g, v1, job)
    ensures |v1.levels| == NUM_LEVELS && job.level + 1 < NUM_LEVELS && |job.base.levels| == NUM_LEVELS
    ensures InFileOrder(v1.levels[job.level + 1])
  {
  }

  lemma BesideIsSorted(v: Version, g: File, v1: Version, job: Job, outs: Level, v2: Version)
    requires FlushedInto(v, g, v1, job) && OutputsFor(job, outs) && Beside(g, JobKept(job))
    requires Replaced(v1, job.level, job.in0, job.in1, outs, v2)
    ensures LevelSorted(v2.levels[job.level + 1])
  {
    hide FlushedInto, Beside, JobKept, FileOk, LevelSet, Apart, Replaced;
    FlushedLevels(v, g, v1, job);
    forall o | o in outs ensures Apart(g, o) {
      MemberEntries(outs, o);
      OutputApart(JobKept(job), g, o);
    }
    FlushedSortedIff(v, g, v1, job, outs, v2);
  }

  lemma MemberEntries(outs: Level, o: File)
    requires o in outs
    ensures SetOf(o.entries) <= LevelSet(outs)
  {
  }

  lemma {:induction false} NumberAbove(files: Level) returns (n: nat)
    ensures forall f :: f in files ==> f.number < n
  {
    n := 0;
    if files != [] {
      assert files == [files[0]] + files[1..];
      n := NumberAbove(files[1..]);
      n := if n <= files[0].number then files[0].number + 1 else n;
    }
  }

  lemma UnsortedCut(v: Version, g: File, v1: Version, job: Job) returns (outs: Level, v2: Version)
    requires FlushedInto(v, g, v1, job) && Started(job) && InFileOrder(v1.levels[job.level])
    requires !Beside(g, JobKept(job))
    ensures OutputsFor(job, outs) && Replaced(v1, job.level, job.in0, job.in1, outs, v2)
    ensures !LevelSorted(v2.levels[job.level + 1])
  {
    hide FlushedInto, Started, JobKept, FileOk, LevelSet, Apart, Replaced, InFileOrder, Less;
    FlushedLevels(v, g, v1, job);
    var number := NumberAbove(v1.levels[job.level + 1]);
    outs := UncutOutputs(job, number);
    var o := outs[0];
    v2 := InstalledOne(v1, job.level, job.in0, job.in1, o);
    assert outs == [o];
    FlushedSortedIff(v, g, v1, job, outs, v2);
    assert o in outs && FileOk(o);
    if Apart(g, o) {
      SpanningMeansBeside(g, o);
    }
  }
}
