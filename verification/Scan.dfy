/**
Iterating over the whole store: the internal iterator merges the memtables, every level-0
file and one concatenation per deeper level, and the user-facing iterator walks the history.
*/
module Scan {
  import opened Common
  import opened Format
  import opened VersionModel
  import opened Lookup
  import opened Builder
  import opened Store
  import M = Merger
  import D = DbIter
  import R = Runs
  import T = TwoLevel

  function FileSources(files: Level): seq<seq<Entry>> {
    seq(|files|, i requires 0 <= i < |files| => files[i].entries)
  }

  /** NewConcatenatingIterator: the files of a sorted level, one after the other. */
  function Concat(files: Level): seq<Entry> {
    R.Flatten(FileSources(files))
  }

  /** The keys LevelFileNumIterator walks over. */
  function LargestKeys(files: Level): seq<IKey> {
    seq(|files|, i requires 0 <= i < |files| => files[i].largest)
  }

  /** A sorted level can be walked by a two-level iterator over its files. */
  lemma LevelIsSeparated(files: Level)
    requires FilesOk(files) && LevelSorted(files)
    ensures T.Separated(LargestKeys(files), FileSources(files))
  {
    hide R.Flatten, StrictlySorted;
    ConcatSorted(files);
    var ss := FileSources(files);
    forall b, e: Entry | 0 <= b < |ss| && e in ss[b] ensures AtMost(e.key, files[b].largest) {
      EntryInRange(files[b], e);
    }
    forall b, c, e: Entry | 0 <= b < c < |ss| && e in ss[c] ensures Less(files[b].largest, e.key) {
      EntryInRange(files[c], e);
    }
  }

  /** Levels 1 to n - 1 that are not empty. */
  function LevelSources(v: Version, n: nat): seq<seq<Entry>>
    requires n <= |v.levels|
  {
    if n <= 1 then []
    else LevelSources(v, n - 1) + if v.levels[n - 1] == [] then [] else [Concat(v.levels[n - 1])]
  }

  /** DBImpl::NewInternalIterator: the children of the merging iterator. */
  function Sources(mem: seq<Entry>, imm: Option<seq<Entry>>, v: Version): seq<seq<Entry>>
    requires |v.levels| == NUM_LEVELS
  {
    [mem] + (if imm.Some? then [imm.value] else []) + FileSources(v.levels[0]) + LevelSources(v, NUM_LEVELS)
  }

  lemma {:induction false} ConcatHas(files: Level)
    ensures forall e :: e in Concat(files) <==> e in LevelSet(files)
  {
    if files != [] {
      var rest, f := files[..|files| - 1], files[|files| - 1];
      ConcatHas(rest);
      assert files == rest + [f];
      ConcatSnoc(files);
    }
  }

  lemma ConcatSnoc(files: Level)
    requires files != []
    ensures Concat(files) == Concat(files[..|files| - 1]) + files[|files| - 1].entries
  {
    assert FileSources(files)[..|files| - 1] == FileSources(files[..|files| - 1]);
  }

  lemma {:induction false} ConcatSorted(files: Level)
    requires FilesOk(files) && LevelSorted(files)
    ensures StrictlySorted(Concat(files))
  {
    if files != [] {
      var n := |files| - 1;
      var rest, f := files[..n], files[n];
      assert files == rest + [f];
      ConcatSnoc(files);
      ConcatSorted(rest);
      ConcatHas(rest);
      forall d, e | d in Concat(rest) && e in f.entries ensures Less(d.key, e.key) {
        var g :| g in rest && d in g.entries;
        var i :| 0 <= i < n && files[i] == g;
        assert Less(files[i].largest, files[n].smallest);
        EntryInRange(g, d);
        EntryInRange(f, e);
      }
      assert FileOk(f);
      SortedJoin(Concat(rest), f.entries);
    }
  }

  lemma SortedJoin(a: seq<Entry>, b: seq<Entry>)
    requires StrictlySorted(a) && StrictlySorted(b) && forall d, e :: d in a && e in b ==> Less(d.key, e.key)
    ensures StrictlySorted(a + b)
  {
  }

  // ----- sources that are pairwise apart -----

  lemma NewerApart(a: seq<Entry>, b: seq<Entry>)
    requires Newer(SetOf(a), SetOf(b)) || Newer(SetOf(b), SetOf(a))
    ensures M.AllApart(a, b)
  {
    forall e, f | e in a && f in b ensures M.Apart(e, f) {
      assert e in SetOf(a) && f in SetOf(b);
    }
  }

  lemma UnionOfOne(s: seq<Entry>)
    requires StrictlySorted(s)
    ensures M.SourcesOk([s]) && D.Union([s]) == SetOf(s)
  {
    assert forall e :: e in D.Union([s]) <==> e in [s][0];
  }

  lemma UnionOfNone()
    ensures M.SourcesOk([]) && D.Union([]) == {}
  {
  }

  lemma UnionJoin(a: seq<seq<Entry>>, b: seq<seq<Entry>>)
    ensures D.Union(a + b) == D.Union(a) + D.Union(b)
  {
    var c := a + b;
    forall e | e in D.Union(a) ensures e in D.Union(c) {
      var i :| 0 <= i < |a| && e in a[i];
      assert e in c[i];
    }
    forall e | e in D.Union(b) ensures e in D.Union(c) {
      var i :| 0 <= i < |b| && e in b[i];
      assert e in c[|a| + i];
    }
  }

  /** Sources newer, key by key, than other sources stay apart from them. */
  lemma JoinNewer(a: seq<seq<Entry>>, b: seq<seq<Entry>>)
    requires M.SourcesOk(a) && M.SourcesOk(b) && Newer(D.Union(a), D.Union(b))
    ensures M.SourcesOk(a + b) && D.Union(a + b) == D.Union(a) + D.Union(b)
  {
    hide StrictlySorted, M.AllApart;
    UnionJoin(a, b);
    forall i, j | 0 <= i < |a| && 0 <= j < |b| ensures M.AllApart(a[i], b[j]) {
      SubNewer(a, b, i, j);
      NewerApart(a[i], b[j]);
    }
    var c := a + b;
    forall i, j | 0 <= i < j < |c| ensures M.AllApart(c[i], c[j]) {
    }
  }

  lemma SubNewer(a: seq<seq<Entry>>, b: seq<seq<Entry>>, i: nat, j: nat)
    requires Newer(D.Union(a), D.Union(b)) && i < |a| && j < |b|
    ensures Newer(SetOf(a[i]), SetOf(b[j]))
  {
    assert forall e :: e in a[i] ==> e in D.Union(a);
    assert forall e :: e in b[j] ==> e in D.Union(b);
  }

  lemma FilesApart(files: Level, i: nat, j: nat)
    requires LevelZeroByNumber(files) && InFileOrder(files) && i < j < |files|
    ensures M.AllApart(files[i].entries, files[j].entries)
  {
    hide M.AllApart;
    var f, g := files[i], files[j];
    assert FileLess(f, g);
    assert f.number != g.number;
    assert f in files && g in files;
    NewerApart(f.entries, g.entries);
  }

  lemma FileSourcesHave(files: Level)
    ensures D.Union(FileSources(files)) == LevelSet(files)
  {
    var ss := FileSources(files);
    forall e | e in LevelSet(files) ensures e in D.Union(ss) {
      var f :| f in files && e in f.entries;
      var i :| 0 <= i < |files| && files[i] == f;
      assert e in ss[i];
    }
  }

  lemma FileSourcesOk(files: Level)
    requires FilesOk(files) && LevelZeroByNumber(files) && InFileOrder(files)
    ensures M.SourcesOk(FileSources(files)) && D.Union(FileSources(files)) == LevelSet(files)
  {
    hide M.AllApart, LevelZeroByNumber, InFileOrder, D.Union, LevelSet, StrictlySorted;
    FileSourcesHave(files);
    var ss := FileSources(files);
    forall i | 0 <= i < |ss| ensures StrictlySorted(ss[i]) {
      assert FileOk(files[i]);
    }
    forall i, j | 0 <= i < j < |ss| ensures M.AllApart(ss[i], ss[j]) {
      FilesApart(files, i, j);
    }
  }

  ghost function Deeper(v: Version, n: nat): set<Entry>
    requires n <= |v.levels|
  {
    set l, e | 1 <= l < n && e in LevelSet(v.levels[l]) :: e
  }

  lemma {:induction false} LevelSourcesOk(v: Version, n: nat)
    requires LevelsOk(v) && OlderIsDeeper(v) && n <= NUM_LEVELS
    ensures M.SourcesOk(LevelSources(v, n)) && D.Union(LevelSources(v, n)) == Deeper(v, n)
  {
    hide LevelSet, M.SourcesOk, D.Union, FileOk, StrictlySorted;
    if n <= 1 {
      UnionOfNone();
    } else {
      var files := v.levels[n - 1];
      LevelSourcesOk(v, n - 1);
      assert Deeper(v, n) == Deeper(v, n - 1) + LevelSet(files);
      if files == [] {
        EmptyLevel(files);
        assert LevelSources(v, n) == LevelSources(v, n - 1);
      } else {
        ConcatSource(files);
        forall l | 1 <= l < n - 1 ensures Newer(LevelSet(v.levels[l]), LevelSet(files)) {
        }
        JoinNewer(LevelSources(v, n - 1), [Concat(files)]);
      }
    }
  }

  lemma EmptyLevel(files: Level)
    requires files == []
    ensures LevelSet(files) == {}
  {
  }

  lemma ConcatSource(files: Level)
    requires FilesOk(files) && LevelSorted(files)
    ensures M.SourcesOk([Concat(files)]) && D.Union([Concat(files)]) == LevelSet(files)
  {
    ConcatSorted(files);
    ConcatHas(files);
    UnionOfOne(Concat(files));
    assert SetOf(Concat(files)) == LevelSet(files);
  }

  lemma VersionSources(v: Version)
    requires VersionOk(v) && InFileOrder(v.levels[0])
    ensures M.SourcesOk(FileSources(v.levels[0]) + LevelSources(v, NUM_LEVELS))
    ensures D.Union(FileSources(v.levels[0]) + LevelSources(v, NUM_LEVELS)) == VersionSet(v)
  {
    hide LevelSet, M.SourcesOk, D.Union, FileOk, LevelZeroByNumber, FileSources, LevelSources;
    FileSourcesOk(v.levels[0]);
    LevelSourcesOk(v, NUM_LEVELS);
    assert forall l :: 1 <= l < NUM_LEVELS ==> Newer(LevelSet(v.levels[0]), LevelSet(v.levels[l]));
    JoinNewer(FileSources(v.levels[0]), LevelSources(v, NUM_LEVELS));
    assert VersionSet(v) == LevelSet(v.levels[0]) + Deeper(v, NUM_LEVELS);
  }

  /** The children of the internal iterator hold the whole store, each internal key in one of them. */
  lemma SourcesAreStore(mem: seq<Entry>, imm: Option<seq<Entry>>, v: Version)
    requires LayersOk(mem, imm, v) && InFileOrder(v.levels[0])
    ensures M.SourcesOk(Sources(mem, imm, v)) && D.Union(Sources(mem, imm, v)) == Contents(mem, imm, v)
  {
    hide M.SourcesOk, D.Union, FileSources, LevelSources, VersionSet, StrictlySorted;
    VersionSources(v);
    UnionOfOne(mem);
    var files := FileSources(v.levels[0]) + LevelSources(v, NUM_LEVELS);
    if imm.Some? {
      UnionOfOne(imm.value);
      JoinNewer([imm.value], files);
      assert D.Union([imm.value] + files) == SetOf(imm.value) + VersionSet(v);
      JoinNewer([mem], [imm.value] + files);
      assert Sources(mem, imm, v) == [mem] + ([imm.value] + files);
    } else {
      JoinNewer([mem], files);
      assert Sources(mem, imm, v) == [mem] + files;
    }
  }

  // ----- the iterator over a state of the store -----

  lemma SameCursor(E: set<Entry>, H: set<Entry>, s: nat, before: D.View, c: D.Call, after: D.View)
    requires (forall u :: Read(E, u, s) == Read(H, u, s)) && D.CursorMoves(E, s, before, c, after)
    ensures D.CursorMoves(H, s, before, c, after)
  {
  }

  /**
  An iterator opened on any state at any snapshot a reader may hold: whatever calls are made,
  it moves as a cursor over the keys that the whole history shows at that snapshot.
  */
  method Iterate(st: State, s: nat, calls: seq<D.Call>) returns (views: seq<D.View>)
    requires Inv(st) && Horizon(st) <= s
    ensures |views| == |calls| + 1 && views[0] == D.Off
    ensures forall i :: 0 <= i < |calls| ==> D.CursorMoves(st.history, s, views[i], calls[i], views[i + 1])
  {
    hide LayersOk, HistoryOk, JobStateOk, SnapshotsOk, Read, D.CursorMoves, D.Union, M.SourcesOk, Distinct, Sources;
    StoreSources(st);
    views := D.Drive(Sources(st.mem, st.imm, st.v), s, calls);
    forall i | 0 <= i < |calls| ensures D.CursorMoves(st.history, s, views[i], calls[i], views[i + 1]) {
      SameCursor(Stored(st), st.history, s, views[i], calls[i], views[i + 1]);
    }
  }

  lemma StoreSources(st: State)
    requires Inv(st)
    ensures |st.v.levels| == NUM_LEVELS && M.SourcesOk(Sources(st.mem, st.imm, st.v))
    ensures D.Union(Sources(st.mem, st.imm, st.v)) == Stored(st) && Distinct(Stored(st))
  {
    hide JobStateOk, SnapshotsOk, Faithful, M.SourcesOk, D.Union, Sources;
    assert InFileOrder(st.v.levels[0]);
    SourcesAreStore(st.mem, st.imm, st.v);
    StoredDistinct(st);
  }
}
