/**
Applying a version edit: merging added files into a level and dropping deleted ones.
*/
module Builder {
  import opened Common
  import opened Format
  import opened VersionModel
  import opened Lookup

  /** BySmallestKey: by smallest key, ties broken by file number. */
  predicate FileLess(f: File, g: File) {
    || Less(f.smallest, g.smallest)
    || (!Less(g.smallest, f.smallest) && f.number < g.number)
  }

  predicate InFileOrder(files: Level) {
    forall i, j :: 0 <= i < j < |files| ==> FileLess(files[i], files[j])
  }

  /** `new` is `old` without `minus` and with `plus`, in file order. */
  ghost predicate Rebuilt(old_: Level, minus: Level, plus: Level, new_: Level) {
    && InFileOrder(new_)
    && forall f :: f in new_ <==> (f in old_ && f !in minus) || f in plus
  }

  /** Everything still to be merged comes after everything merged so far. */
  ghost predicate AllBefore(out: Level, rest: Level, from: nat) {
    forall i, j :: 0 <= i < |out| && from <= j < |rest| ==> FileLess(out[i], rest[j])
  }

  ghost predicate Survives(f: File, base: Level, b: nat, added: Level, a: nat, deleted: set<nat>)
    requires b <= |base| && a <= |added|
  {
    (f in base[..b] || f in added[..a]) && f.number !in deleted
  }

  ghost predicate Merged(out: Level, base: Level, b: nat, added: Level, a: nat, deleted: set<nat>)
    requires b <= |base| && a <= |added|
  {
    && InFileOrder(out) && AllBefore(out, base, b) && AllBefore(out, added, a)
    && forall f :: f in out <==> Survives(f, base, b, added, a, deleted)
  }

  /** MaybeAddFile on the next base file. */
  lemma MergeBase(out: Level, base: Level, b: nat, added: Level, a: nat, deleted: set<nat>)
    requires InFileOrder(base) && b < |base| && a <= |added| && Merged(out, base, b, added, a, deleted)
    requires forall j :: a <= j < |added| ==> FileLess(base[b], added[j])
    ensures Merged(if base[b].number in deleted then out else out + [base[b]], base, b + 1, added, a, deleted)
  {
    assert base[..b + 1] == base[..b] + [base[b]];
  }

  lemma MergeAdded(out: Level, base: Level, b: nat, added: Level, a: nat, deleted: set<nat>)
    requires InFileOrder(added) && b <= |base| && a < |added| && Merged(out, base, b, added, a, deleted)
    requires forall j :: b <= j < |base| ==> FileLess(added[a], base[j])
    ensures Merged(if added[a].number in deleted then out else out + [added[a]], base, b, added, a + 1, deleted)
  {
    assert added[..a + 1] == added[..a] + [added[a]];
  }

  lemma FileLessTransitive(f: File, g: File, h: File)
    requires FileLess(f, g) && FileLess(g, h)
    ensures FileLess(f, h)
  {
  }

  /** Nothing to add or delete: the level is copied. */
  predicate Unchanged(base: Level, added: Level, deleted: set<nat>) {
    added == [] && forall i :: 0 <= i < |base| ==> base[i].number !in deleted
  }

  /** VersionSet::Builder::SaveTo on one level. */
  method SaveLevel(base: Level, added: Level, deleted: set<nat>) returns (out: Level)
    requires InFileOrder(base) && InFileOrder(added)
    requires forall f, g :: f in base && g in added ==> f.number != g.number
    ensures InFileOrder(out)
    ensures forall f :: f in out <==> (f in base || f in added) && f.number !in deleted
    ensures Unchanged(base, added, deleted) ==> out == base
  {
    out := [];
    var b := 0;
    for a := 0 to |added|
      invariant b <= |base| && Merged(out, base, b, added, a, deleted)
      invariant added == [] ==> b == 0 && out == []
    {
      while b < |base| && !FileLess(added[a], base[b])
        invariant b <= |base| && Merged(out, base, b, added, a, deleted)
      {
        BaseGoesFirst(base, b, added, a);
        MergeBase(out, base, b, added, a, deleted);
        if base[b].number !in deleted {
          out := out + [base[b]];
        }
        b := b + 1;
      }
      AddedGoesFirst(base, b, added, a);
      MergeAdded(out, base, b, added, a, deleted);
      if added[a].number !in deleted {
        out := out + [added[a]];
      }
    }
    while b < |base|
      invariant b <= |base| && Merged(out, base, b, added, |added|, deleted)
      invariant Unchanged(base, added, deleted) ==> out == base[..b]
    {
      MergeBase(out, base, b, added, |added|, deleted);
      assert base[..b + 1] == base[..b] + [base[b]];
      if base[b].number !in deleted {
        out := out + [base[b]];
      }
      b := b + 1;
    }
    assert base[..b] == base && added[..|added|] == added;
  }

  /** Level by level: the files of the new version. */
  ghost predicate SavedLevel(base: Level, added: Level, deleted: set<nat>, out: Level) {
    && InFileOrder(out)
    && (forall f :: f in out <==> (f in base || f in added) && f.number !in deleted)
    && (Unchanged(base, added, deleted) ==> out == base)
  }

  /** Builder::Apply and SaveTo for one edit, as LogAndApply runs them. */
  method ApplyEdit(v: Version, deleted: seq<set<nat>>, added: seq<Level>) returns (v': Version)
    requires |v.levels| == |deleted| == |added| == NUM_LEVELS
    requires forall l :: 0 <= l < NUM_LEVELS ==> InFileOrder(v.levels[l]) && InFileOrder(added[l])
    requires forall l, f, g :: 0 <= l < NUM_LEVELS && f in v.levels[l] && g in added[l] ==> f.number != g.number
    ensures |v'.levels| == NUM_LEVELS
    ensures forall l :: 0 <= l < NUM_LEVELS ==> SavedLevel(v.levels[l], added[l], deleted[l], v'.levels[l])
  {
    var levels: seq<Level> := [];
    for l := 0 to NUM_LEVELS
      invariant |levels| == l
      invariant forall k :: 0 <= k < l ==> SavedLevel(v.levels[k], added[k], deleted[k], levels[k])
    {
      var out := SaveLevel(v.levels[l], added[l], deleted[l]);
      levels := levels + [out];
    }
    v' := Version(levels);
  }

  lemma BaseGoesFirst(base: Level, b: nat, added: Level, a: nat)
    requires InFileOrder(added) && b < |base| && a < |added| && !FileLess(added[a], base[b])
    requires forall f, g :: f in base && g in added ==> f.number != g.number
    ensures forall j :: a <= j < |added| ==> FileLess(base[b], added[j])
  {
    forall j | a <= j < |added| ensures FileLess(base[b], added[j]) {
      assert base[b] in base && added[a] in added;
      if a < j {
        FileLessTransitive(base[b], added[a], added[j]);
      }
    }
  }

  lemma AddedGoesFirst(base: Level, b: nat, added: Level, a: nat)
    requires InFileOrder(base) && b <= |base| && a < |added| && (b < |base| ==> FileLess(added[a], base[b]))
    ensures forall j :: b <= j < |base| ==> FileLess(added[a], base[j])
  {
    forall j | b <= j < |base| ensures FileLess(added[a], base[j]) {
      if b < j {
        FileLessTransitive(added[a], base[b], base[j]);
      }
    }
  }

  /** Deleting by number removes the files meant, when numbers are unique in the level. */
  lemma SavedIsRebuilt(base: Level, minus: Level, plus: Level, deleted: set<nat>, out: Level)
    requires forall f, g :: f in base && g in base && f.number == g.number ==> f == g
    requires (forall f :: f in minus ==> f in base) && deleted == (set f | f in minus :: f.number)
    requires forall f, g :: f in base && g in plus ==> f.number != g.number
    requires SavedLevel(base, plus, deleted, out)
    ensures Rebuilt(base, minus, plus, out)
  {
    forall f ensures f in out <==> (f in base && f !in minus) || f in plus {
      if f in base && f.number in deleted {
        var g :| g in minus && g.number == f.number;
        assert g == f;
      }
      assert f in plus ==> forall g :: g in minus ==> g.number != f.number;
    }
  }

  // ----- file order and disjointness -----

  predicate Apart(f: File, g: File) {
    Less(f.largest, g.smallest) || Less(g.largest, f.smallest)
  }

  ghost predicate PairwiseApart(files: Level) {
    forall f, g :: f in files && g in files && f != g ==> Apart(f, g)
  }

  /** Files in order that are pairwise apart form a sorted level. */
  lemma OrderedApartIsSorted(files: Level)
    requires FilesOk(files) && InFileOrder(files) && PairwiseApart(files)
    ensures LevelSorted(files)
  {
    forall i, j | 0 <= i < j < |files| ensures Less(files[i].largest, files[j].smallest) {
      assert FileLess(files[i], files[j]);
      RangeOk(files[i]);
      RangeOk(files[j]);
      assert files[i] != files[j];
    }
  }

  /** No arrangement of two overlapping files is a sorted level. */
  lemma OverlapIsUnsorted(files: Level, f: File, g: File)
    requires f in files && g in files && f != g && !Apart(f, g)
    ensures !LevelSorted(files)
  {
    var i :| 0 <= i < |files| && files[i] == f;
    var j :| 0 <= j < |files| && files[j] == g;
    assert LevelSorted(files) ==> i < j ==> Less(f.largest, g.smallest);
    assert LevelSorted(files) ==> j < i ==> Less(g.largest, f.smallest);
  }

  lemma SortedIsApart(files: Level)
    requires FilesOk(files) && LevelSorted(files)
    ensures PairwiseApart(files)
  {
    forall f, g | f in files && g in files && f != g ensures Apart(f, g) {
      var i :| 0 <= i < |files| && files[i] == f;
      var j :| 0 <= j < |files| && files[j] == g;
    }
  }
}
