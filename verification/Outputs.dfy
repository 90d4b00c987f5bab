/**
From the runs the compaction loop writes to the files it installs.
*/
module Outputs {
  import opened Common
  import opened Format
  import opened VersionModel
  import opened Lookup
  import opened CompactionModel
  import opened Install
  import opened Runs

  function MakeFile(run: seq<Entry>, number: nat, size: nat): File
    requires run != []
  {
    File(number, size, run[0].key, run[|run| - 1].key, run)
  }

  predicate NonEmptyRuns(runs: seq<seq<Entry>>) {
    forall i :: 0 <= i < |runs| ==> runs[i] != []
  }

  function MakeFiles(runs: seq<seq<Entry>>, numbers: seq<nat>, sizes: seq<nat>): (files: Level)
    requires |numbers| == |sizes| == |runs| && NonEmptyRuns(runs)
    ensures |files| == |runs| && forall i :: 0 <= i < |files| ==> files[i] == MakeFile(runs[i], numbers[i], sizes[i])
  {
    seq(|runs|, i requires 0 <= i < |runs| && |numbers| == |sizes| == |runs| && NonEmptyRuns(runs) =>
      MakeFile(runs[i], numbers[i], sizes[i]))
  }

  /** What the loop keeps, as a set and in order. */
  lemma {:induction false} KeptPrefixIs(v: Version, level: nat, input: seq<Entry>, snap: nat, n: nat)
    requires |v.levels| == NUM_LEVELS && StrictlySorted(input) && n <= |input|
    ensures StrictlySorted(KeptPrefix(v, level, input, snap, n))
    ensures forall e :: e in KeptPrefix(v, level, input, snap, n) <==>
              e in input[..n] && !Dropped(v, level, SetOf(input), snap, e)
  {
    if n > 0 {
      KeptPrefixIs(v, level, input, snap, n - 1);
      assert input[..n] == input[..n - 1] + [input[n - 1]];
      KeptBefore(v, level, input, snap, n - 1);
    }
  }

  lemma KeptBefore(v: Version, level: nat, input: seq<Entry>, snap: nat, n: nat)
    requires |v.levels| == NUM_LEVELS && StrictlySorted(input) && n < |input|
    requires forall e :: e in KeptPrefix(v, level, input, snap, n) ==> e in input[..n]
    ensures forall i :: 0 <= i < |KeptPrefix(v, level, input, snap, n)| ==>
              Less(KeptPrefix(v, level, input, snap, n)[i].key, input[n].key)
  {
    var kept := KeptPrefix(v, level, input, snap, n);
    forall i | 0 <= i < |kept| ensures Less(kept[i].key, input[n].key) {
      assert kept[i] in input[..n];
      var j :| 0 <= j < n && input[j] == kept[i];
    }
  }

  lemma KeptIsKept(v: Version, level: nat, input: seq<Entry>, snap: nat)
    requires |v.levels| == NUM_LEVELS && StrictlySorted(input)
    ensures StrictlySorted(KeptPrefix(v, level, input, snap, |input|))
    ensures SetOf(KeptPrefix(v, level, input, snap, |input|)) == Kept(v, level, SetOf(input), snap)
  {
    KeptPrefixIs(v, level, input, snap, |input|);
    assert input[..|input|] == input;
  }

  /** Cutting a sorted output anywhere gives a sorted, disjoint list of files holding the same entries. */
  lemma RunsMakeLevel(runs: seq<seq<Entry>>, numbers: seq<nat>, sizes: seq<nat>)
    requires |numbers| == |sizes| == |runs| && NonEmptyRuns(runs) && StrictlySorted(Flatten(runs))
    requires forall e :: e in Flatten(runs) ==> e.key.seqno <= MAX_SEQUENCE
    ensures FilesOk(MakeFiles(runs, numbers, sizes)) && LevelSorted(MakeFiles(runs, numbers, sizes))
    ensures LevelSet(MakeFiles(runs, numbers, sizes)) == SetOf(Flatten(runs))
  {
    var files := MakeFiles(runs, numbers, sizes);
    forall i | 0 <= i < |files| ensures FileOk(files[i]) {
      RunMakesFile(runs, i, numbers[i], sizes[i]);
    }
    forall i, j | 0 <= i < j < |files| ensures Less(files[i].largest, files[j].smallest) {
      RunEntriesOrdered(runs, i, |runs[i]| - 1, j, 0);
    }
    FilesHoldRuns(runs, files);
  }

  lemma FilesHoldRuns(runs: seq<seq<Entry>>, files: Level)
    requires |files| == |runs| && forall i :: 0 <= i < |files| ==> files[i].entries == runs[i]
    ensures LevelSet(files) == SetOf(Flatten(runs))
  {
    forall e | e in LevelSet(files) ensures e in SetOf(Flatten(runs)) {
      FlattenMember(runs, e);
      var f :| f in files && e in f.entries;
      var i :| 0 <= i < |files| && files[i] == f;
      assert e in runs[i];
    }
    forall e | e in SetOf(Flatten(runs)) ensures e in LevelSet(files) {
      FlattenMember(runs, e);
      var i :| 0 <= i < |runs| && e in runs[i];
      assert files[i] in files && e in files[i].entries;
    }
  }

  lemma RunMakesFile(runs: seq<seq<Entry>>, i: nat, number: nat, size: nat)
    requires i < |runs| && NonEmptyRuns(runs) && StrictlySorted(Flatten(runs))
    requires forall e :: e in Flatten(runs) ==> e.key.seqno <= MAX_SEQUENCE
    ensures FileOk(MakeFile(runs[i], number, size))
  {
    forall k, m | 0 <= k < m < |runs[i]| ensures Less(runs[i][k].key, runs[i][m].key) {
      RunEntriesOrdered(runs, i, k, i, m);
    }
    forall e | e in runs[i] ensures e.key.seqno <= MAX_SEQUENCE {
      FlattenMember(runs, e);
    }
  }

  /** The merged inputs of a job: every input entry, in internal-key order. */
  ghost predicate MergedInput(job: Job, input: seq<Entry>) {
    && StrictlySorted(input) && SetOf(input) == JobInputs(job)
    && forall e :: e in input ==> e.key.seqno <= MAX_SEQUENCE
  }

  /** A whole compaction: run the loop over the merged inputs and write its runs as files. */
  method RunCompaction(job: Job, input: seq<Entry>, stopBefore: seq<bool>, bigEnough: seq<bool>)
      returns (runs: seq<seq<Entry>>)
    requires LevelsOk(job.base) && job.level + 1 < NUM_LEVELS && job.snap < MAX_SEQUENCE
    requires MergedInput(job, input) && Distinct(JobInputs(job))
    requires |stopBefore| == |bigEnough| == |input|
    ensures NonEmptyRuns(runs)
    ensures forall numbers, sizes :: |numbers| == |sizes| == |runs| ==> OutputsFor(job, MakeFiles(runs, numbers, sizes))
  {
    var c := new Compaction(job.base, job.level);
    runs := DoCompactionWork(c, input, job.snap, stopBefore, bigEnough);
    assert NonEmptyRuns(runs) by {
      assert forall i :: 0 <= i < |runs| ==> runs[i] in runs;
    }
    KeptIsKept(job.base, job.level, input, job.snap);
    forall e | e in Flatten(runs) ensures e.key.seqno <= MAX_SEQUENCE {
      assert e in SetOf(Flatten(runs));
    }
    forall numbers, sizes | |numbers| == |sizes| == |runs|
      ensures OutputsFor(job, MakeFiles(runs, numbers, sizes))
    {
      RunsMakeLevel(runs, numbers, sizes);
    }
  }
}
