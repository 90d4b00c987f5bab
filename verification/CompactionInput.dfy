/**
The input iterator of a compaction: level-0 files are merged one by one, the chosen files of
a deeper level are walked as one, and the loop sees every input entry once, in order.
*/
module CompactionInput {
  import opened Common
  import opened Format
  import opened VersionModel
  import opened Lookup
  import opened Builder
  import opened Selection
  import opened Install
  import opened Outputs
  import M = Merger
  import D = DbIter
  import S = Scan
  import St = Store

  /** The children for one of the two input lists. */
  function ChildrenOf(level: nat, files: Level): seq<seq<Entry>> {
    if files == [] then []
    else if level == 0 then S.FileSources(files)
    else [S.Concat(files)]
  }

  function InputSources(job: Job): seq<seq<Entry>> {
    ChildrenOf(job.level, job.in0) + ChildrenOf(job.level + 1, job.in1)
  }

  lemma SortedInOrder(files: Level)
    requires FilesOk(files) && LevelSorted(files)
    ensures InFileOrder(files)
  {
    forall i, j | 0 <= i < j < |files| ensures FileLess(files[i], files[j]) {
      RangeOk(files[i]);
    }
  }

  lemma ChildrenOk(v: Version, level: nat, files: Level)
    requires VersionOk(v) && level < NUM_LEVELS && (forall f :: f in files ==> f in v.levels[level]) && InFileOrder(files)
    ensures M.SourcesOk(ChildrenOf(level, files)) && D.Union(ChildrenOf(level, files)) == LevelSet(files)
  {
    hide M.SourcesOk, D.Union, FileOk, OlderIsDeeper;
    if files == [] {
      S.UnionOfNone();
      S.EmptyLevel(files);
    } else if level == 0 {
      S.FileSourcesOk(files);
    } else {
      SortedIsApart(v.levels[level]);
      OrderedApartIsSorted(files);
      S.ConcatSource(files);
    }
  }

  /** A job whose inputs the code chose from the version it started on. */
  ghost predicate Started(job: Job) {
    && VersionOk(job.base) && Distinct(VersionSet(job.base)) && job.level + 1 < NUM_LEVELS
    && GoodSelection(job.base, job.level, job.in0, job.in1) && InFileOrder(job.base.levels[job.level])
  }

  /** Every compaction the store starts is such a job. */
  lemma StartGivesStarted(st: St.State, st': St.State, level: nat, in0: Level, in1: Level, manual: bool)
    requires St.Inv(st) && St.StartCompaction(st, st', level, in0, in1, manual)
    ensures Started(st'.job.value) && st'.job.value.snap < MAX_SEQUENCE
  {
    hide St.JobStateOk, St.Faithful, GoodSelection, LevelsOk, OlderIsDeeper, LevelZeroByNumber, InFileOrder;
    St.InvLevels(st);
    assert VersionSet(st.v) <= St.Stored(st);
  }

  lemma StartedLevels(job: Job)
    requires Started(job)
    ensures |job.base.levels| == NUM_LEVELS && LevelsOk(job.base) && job.level + 1 < NUM_LEVELS
  {
  }

  lemma StartedInputs(job: Job)
    requires Started(job)
    ensures InputsOk(job.base, job.level, job.in0, job.in1) && Distinct(JobInputs(job))
    ensures InFileOrder(job.in0) && InFileOrder(job.in1)
    ensures Newer(LevelSet(job.in0), LevelSet(job.in1))
  {
    hide OlderIsDeeper, LevelZeroByNumber, FileOk, LevelSorted, SelectedAreOldest, LevelSet, VersionSet;
    SelectionGivesInputsOk(job.base, job.level, job.in0, job.in1);
    InputsInVersion(job.base, job.level, job.in0, job.in1);
    SubDistinct(VersionSet(job.base), JobInputs(job));
    NextInOrder(job.base.levels[job.level + 1], job.in0, job.in1);
    InputsNewer(job.base, job.level, LevelSet(job.in0), LevelSet(job.in1));
  }

  lemma SubDistinct(E: set<Entry>, I: set<Entry>)
    requires Distinct(E) && I <= E
    ensures Distinct(I)
  {
  }

  lemma InputsNewer(v: Version, level: nat, A: set<Entry>, B: set<Entry>)
    requires |v.levels| == NUM_LEVELS && OlderIsDeeper(v) && level + 1 < NUM_LEVELS
    requires A <= LevelSet(v.levels[level]) && B <= LevelSet(v.levels[level + 1])
    ensures Newer(A, B)
  {
    assert Newer(LevelSet(v.levels[level]), LevelSet(v.levels[level + 1]));
  }

  lemma NextInOrder(files: Level, in0: Level, in1: Level)
    requires FilesOk(files) && LevelSorted(files) && OverlapHull(files, in0, in1)
    ensures InFileOrder(in1)
  {
    var lo, hi :| Hull(in0, lo, hi) && in1 == Overlapping(files, Some(lo), Some(hi));
    SortedInOrder(files);
    OverlappingInOrder(files, Some(lo), Some(hi));
  }

  /** The children hold the inputs, each internal key in one of them; their merge is what the loop needs. */
  lemma SourcesMergeInputs(job: Job)
    requires Started(job)
    ensures M.SourcesOk(InputSources(job)) && MergedInput(job, M.Merged(InputSources(job)))
  {
    hide M.SourcesOk, D.Union, ChildrenOf, GoodSelection, VersionOk, InFileOrder, LevelSet, M.Merged, FileOk;
    StartedLevels(job);
    StartedInputs(job);
    ChildrenOk(job.base, job.level, job.in0);
    ChildrenOk(job.base, job.level + 1, job.in1);
    S.JoinNewer(ChildrenOf(job.level, job.in0), ChildrenOf(job.level + 1, job.in1));
    UnionMerged(InputSources(job));
    InputNumbers(job);
  }

  lemma UnionMerged(sources: seq<seq<Entry>>)
    requires M.SourcesOk(sources)
    ensures StrictlySorted(M.Merged(sources)) && SetOf(M.Merged(sources)) == D.Union(sources)
  {
    hide M.Merged;
    M.MergedSorted(sources);
  }

  lemma InputNumbers(job: Job)
    requires LevelsOk(job.base) && job.level + 1 < NUM_LEVELS && InputsOk(job.base, job.level, job.in0, job.in1)
    ensures forall e :: e in JobInputs(job) ==> e.key.seqno <= MAX_SEQUENCE
  {
    assert forall f :: f in job.in0 ==> FileOk(f);
    assert forall f :: f in job.in1 ==> FileOk(f);
  }

  /** VersionSet::MakeInputIterator, read from its first entry to its end. */
  method ReadInputs(job: Job) returns (input: seq<Entry>)
    requires Started(job)
    ensures input == M.Merged(InputSources(job)) && MergedInput(job, input)
  {
    hide M.Merged, M.SourcesOk, MergedInput, Started, InputSources;
    SourcesMergeInputs(job);
    var it := new M.MergingIterator(InputSources(job));
    it.SeekToFirst();
    input := [];
    while it.IsValid()
      invariant it.Valid() && it.sources == InputSources(job)
      invariant input == it.All()[..it.at]
      decreases |it.All()| - it.at
    {
      input := input + [it.CurrentEntry()];
      it.Next();
    }
  }

  /** The whole job: whatever decides where files end, its outputs are those of the job. */
  method Compact(job: Job, stopBefore: seq<bool>, bigEnough: seq<bool>) returns (runs: seq<seq<Entry>>)
    requires Started(job) && job.snap < MAX_SEQUENCE
    requires |stopBefore| == |bigEnough| == |M.Merged(InputSources(job))|
    ensures NonEmptyRuns(runs)
    ensures forall numbers, sizes :: |numbers| == |sizes| == |runs| ==> OutputsFor(job, MakeFiles(runs, numbers, sizes))
  {
    StartedInputs(job);
    var input := ReadInputs(job);
    runs := RunCompaction(job, input, stopBefore, bigEnough);
  }
}
