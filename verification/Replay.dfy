/**
Recovering the level structure from the manifest: VersionSet::Recover applies every edit to one
builder and saves once, where the running store saved after each edit. Both give the same lists.
*/
module Replay {
  import opened VersionModel
  import opened Builder

  /** What one edit does to one level. */
  datatype LevelEdit = LevelEdit(deleted: set<nat>, added: seq<File>)

  /** A file added by an edit is no longer deleted, whatever order the edit lists them in. */
  function Gone(e: LevelEdit): set<nat> {
    e.deleted - NumbersOf(e.added)
  }

  // ----- saving after every edit -----

  ghost predicate AfterEdit(old_: Level, e: LevelEdit, new_: Level) {
    InFileOrder(new_) && forall f :: f in new_ <==> (f in old_ || f in e.added) && f.number !in Gone(e)
  }

  /** The lists of the running store, one after each edit. */
  ghost predicate OneAtATime(lists: seq<Level>, edits: seq<LevelEdit>) {
    && |lists| == |edits| + 1 && InFileOrder(lists[0])
    && forall i :: 0 <= i < |edits| ==> AfterEdit(lists[i], edits[i], lists[i + 1])
  }

  // ----- one builder for all edits -----

  function DeletedBy(edits: seq<LevelEdit>): set<nat> {
    if edits == [] then {}
    else
      var e := edits[|edits| - 1];
      (DeletedBy(edits[..|edits| - 1]) + e.deleted) - NumbersOf(e.added)
  }

  ghost predicate AddedBy(edits: seq<LevelEdit>, f: File) {
    exists i :: 0 <= i < |edits| && f in edits[i].added
  }

  /** No file number is used twice for the level: not by two added files, nor by one the base has. */
  ghost predicate NumbersOnce(base: Level, edits: seq<LevelEdit>) {
    && (forall f, i, g :: f in base && 0 <= i < |edits| && g in edits[i].added ==> f.number != g.number)
    && (forall i, j, f, g :: 0 <= i < j < |edits| && f in edits[i].added && g in edits[j].added ==> f.number != g.number)
    && (forall i, f, g :: 0 <= i < |edits| && f in edits[i].added && g in edits[i].added && f.number == g.number ==> f == g)
  }

  /** Saving once: what is in the base or was added, unless it is deleted in the end. */
  ghost predicate SavedOnce(base: Level, edits: seq<LevelEdit>, f: File) {
    (f in base || AddedBy(edits, f)) && f.number !in DeletedBy(edits)
  }

  /** Both ways keep the same files. */
  lemma {:induction false} SameFiles(base: Level, lists: seq<Level>, edits: seq<LevelEdit>, f: File)
    requires OneAtATime(lists, edits) && lists[0] == base && NumbersOnce(base, edits)
    ensures f in lists[|edits|] <==> SavedOnce(base, edits, f)
    decreases |edits|
  {
    hide InFileOrder;
    if edits != [] {
      var n := |edits| - 1;
      var e, before := edits[n], edits[..n];
      NeverAddedAgain(base, edits, f);
      SameFiles(base, lists[..n + 1], before, f);
      assert AfterEdit(lists[n], e, lists[n + 1]);
      AddedSnoc(edits, f);
    }
  }

  lemma AddedSnoc(edits: seq<LevelEdit>, f: File)
    requires edits != []
    ensures AddedBy(edits, f) <==> AddedBy(edits[..|edits| - 1], f) || f in edits[|edits| - 1].added
  {
    var n := |edits| - 1;
    if AddedBy(edits, f) {
      var i :| 0 <= i < |edits| && f in edits[i].added;
      assert i < n ==> f in edits[..n][i].added;
    }
    if AddedBy(edits[..n], f) {
      var i :| 0 <= i < n && f in edits[..n][i].added;
      assert f in edits[i].added;
    }
  }

  /** A file that was there before the last edit has a number the last edit does not add. */
  lemma NeverAddedAgain(base: Level, edits: seq<LevelEdit>, f: File)
    requires NumbersOnce(base, edits) && edits != []
    ensures f in base || AddedBy(edits[..|edits| - 1], f) ==> f.number !in NumbersOf(edits[|edits| - 1].added)
    ensures NumbersOnce(base, edits[..|edits| - 1])
  {
    var n := |edits| - 1;
    if AddedBy(edits[..n], f) {
      var i :| 0 <= i < n && f in edits[..n][i].added;
      assert f in edits[i].added;
    }
  }

  // ----- lists in file order are determined by their files -----

  lemma FileLessStrict(f: File, g: File)
    ensures !(FileLess(f, g) && FileLess(g, f)) && !FileLess(f, f)
  {
  }

  lemma {:induction false} OrderIsUnique(a: Level, b: Level)
    requires InFileOrder(a) && InFileOrder(b) && forall f :: f in a <==> f in b
    ensures a == b
    decreases |a|
  {
    if a == [] {
      FirstIsThere(b);
    } else {
      assert a[0] in a && a[0] in b;
      assert b[0] in b && b[0] in a;
      if a[0] != b[0] {
        FirstIsLeast(a, b[0]);
        FirstIsLeast(b, a[0]);
        FileLessStrict(a[0], b[0]);
      }
      forall f ensures f in a[1..] <==> f in b[1..] {
        TailHas(a, f);
        TailHas(b, f);
      }
      OrderIsUnique(a[1..], b[1..]);
      assert a == [a[0]] + a[1..] && b == [b[0]] + b[1..];
    }
  }

  lemma FirstIsThere(a: Level)
    ensures a != [] ==> a[0] in a
  {
  }

  lemma FirstIsLeast(a: Level, f: File)
    requires InFileOrder(a) && f in a && f != a[0]
    ensures FileLess(a[0], f)
  {
  }

  lemma TailHas(a: Level, f: File)
    requires InFileOrder(a) && a != []
    ensures f in a[1..] <==> f in a && f != a[0]
  {
    if f in a && f != a[0] {
      var i :| 0 <= i < |a| && a[i] == f;
      assert a[1..][i - 1] == f;
    }
    if f in a[1..] {
      var i :| 0 <= i < |a| - 1 && a[1..][i] == f;
      FileLessStrict(a[0], a[0]);
      assert FileLess(a[0], a[i + 1]);
    }
  }

  /** Recovery through one builder yields exactly the list the running store had after the last edit. */
  lemma ReplayIsFaithful(base: Level, lists: seq<Level>, edits: seq<LevelEdit>, recovered: Level)
    requires OneAtATime(lists, edits) && lists[0] == base && NumbersOnce(base, edits)
    requires InFileOrder(recovered) && forall f :: f in recovered <==> SavedOnce(base, edits, f)
    ensures recovered == lists[|edits|]
  {
    forall f ensures f in recovered <==> f in lists[|edits|] {
      SameFiles(base, lists, edits, f);
    }
    if edits != [] {
      assert AfterEdit(lists[|edits| - 1], edits[|edits| - 1], lists[|edits|]);
    }
    OrderIsUnique(recovered, lists[|edits|]);
  }

  // ----- the builder -----

  /** std::set::insert under BySmallestKey. */
  method InsertFile(files: Level, f: File) returns (r: Level)
    requires InFileOrder(files) && forall g :: g in files && g.number == f.number ==> g == f
    ensures InFileOrder(r) && forall g :: g in r <==> g in files || g == f
  {
    var i := 0;
    while i < |files| && FileLess(files[i], f)
      invariant i <= |files| && forall j :: 0 <= j < i ==> FileLess(files[j], f)
    {
      i := i + 1;
    }
    if i < |files| && !FileLess(f, files[i]) {
      assert files[i] in files;
      return files;
    }
    r := files[..i] + [f] + files[i..];
    InsertedInOrder(files, f, i, r);
  }

  lemma InsertedInOrder(files: Level, f: File, i: nat, r: Level)
    requires InFileOrder(files) && i <= |files| && r == files[..i] + [f] + files[i..]
    requires (forall j :: 0 <= j < i ==> FileLess(files[j], f)) && (i < |files| ==> FileLess(f, files[i]))
    ensures InFileOrder(r) && forall g :: g in r <==> g in files || g == f
  {
    assert files == files[..i] + files[i..];
    forall j | i <= j < |files| ensures FileLess(f, files[j]) {
      if i < j { FileLessTransitive(f, files[i], files[j]); }
    }
    hide FileLess;
    forall j, k | 0 <= j < k < |r| ensures FileLess(r[j], r[k]) {
      var j0, k0 := if j < i then j else j - 1, if k < i then k else k - 1;
      assert j != i ==> r[j] == files[j0];
      assert k != i ==> r[k] == files[k0];
    }
  }

  class LevelBuilder {
    const base: Level
    var deleted: set<nat>
    var added: Level
    ghost var edits: seq<LevelEdit>

    ghost predicate Valid()
      reads this
    {
      && InFileOrder(base) && InFileOrder(added) && NumbersOnce(base, edits)
      && deleted == DeletedBy(edits) && forall f :: f in added <==> AddedBy(edits, f)
    }

    constructor (base: Level)
      requires InFileOrder(base)
      ensures Valid() && this.base == base && edits == []
    {
      this.base, deleted, added, edits := base, {}, [], [];
    }

    /** Builder::Apply: deletions first, then each added file. */
    method Apply(e: LevelEdit)
      requires Valid() && NumbersOnce(base, edits + [e])
      modifies this
      ensures Valid() && edits == old(edits) + [e]
    {
      hide DeletedBy, AddedBy;
      deleted := deleted + e.deleted;
      for i := 0 to |e.added|
        invariant deleted == (old(deleted) + e.deleted) - NumbersOf(e.added[..i])
        invariant InFileOrder(added) && forall f :: f in added <==> f in old(added) || f in e.added[..i]
        modifies this`deleted, this`added
      {
        var f := e.added[i];
        assert e.added[..i + 1] == e.added[..i] + [f];
        FreshNumber(base, edits, e, f);
        deleted := deleted - {f.number};
        added := InsertFile(added, f);
      }
      assert e.added[..|e.added|] == e.added;
      AppliedMore(edits, e);
      edits := edits + [e];
    }

    /** Builder::SaveTo. */
    method Save() returns (files: Level)
      requires Valid()
      ensures InFileOrder(files) && forall f :: f in files <==> SavedOnce(base, edits, f)
    {
      BaseIsApart(base, edits, added);
      files := SaveLevel(base, added, deleted);
    }
  }

  lemma AppliedMore(edits: seq<LevelEdit>, e: LevelEdit)
    ensures DeletedBy(edits + [e]) == (DeletedBy(edits) + e.deleted) - NumbersOf(e.added)
    ensures forall f :: AddedBy(edits + [e], f) <==> AddedBy(edits, f) || f in e.added
  {
    assert (edits + [e])[..|edits|] == edits;
    forall f ensures AddedBy(edits + [e], f) <==> AddedBy(edits, f) || f in e.added {
      AddedSnoc(edits + [e], f);
    }
  }

  /** A file with the number of one just being added is that file. */
  lemma FreshNumber(base: Level, edits: seq<LevelEdit>, e: LevelEdit, f: File)
    requires NumbersOnce(base, edits + [e]) && f in e.added
    ensures forall g :: (AddedBy(edits, g) || g in e.added) && g.number == f.number ==> g == f
  {
    var all := edits + [e];
    assert all[|edits|] == e;
    forall i, g | 0 <= i < |edits| && g in edits[i].added ensures g.number != f.number {
      assert all[i] == edits[i];
    }
  }

  lemma BaseIsApart(base: Level, edits: seq<LevelEdit>, added: Level)
    requires NumbersOnce(base, edits) && forall f :: f in added <==> AddedBy(edits, f)
    ensures forall f, g :: f in base && g in added ==> f.number != g.number
  {
    forall f, g | f in base && g in added ensures f.number != g.number {
      assert AddedBy(edits, g);
    }
  }

  /** One level of VersionSet::Recover. */
  method RecoverLevel(base: Level, edits: seq<LevelEdit>, ghost lists: seq<Level>) returns (files: Level)
    requires NumbersOnce(base, edits) && OneAtATime(lists, edits) && lists[0] == base
    ensures files == lists[|edits|]
  {
    var b := new LevelBuilder(base);
    for i := 0 to |edits|
      invariant b.Valid() && fresh(b) && b.base == base && b.edits == edits[..i]
    {
      assert edits[..i + 1] == edits[..i] + [edits[i]];
      NumbersOncePrefix(base, edits, i + 1);
      b.Apply(edits[i]);
    }
    assert edits[..|edits|] == edits;
    files := b.Save();
    ReplayIsFaithful(base, lists, edits, files);
  }

  lemma NumbersOncePrefix(base: Level, edits: seq<LevelEdit>, n: nat)
    requires NumbersOnce(base, edits) && n <= |edits|
    ensures NumbersOnce(base, edits[..n])
  {
  }
}
