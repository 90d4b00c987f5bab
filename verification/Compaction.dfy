/**
The compaction loop, what it drops, and when readers can tell.
*/
module CompactionModel {
  import opened Common
  import opened Format
  import opened VersionModel
  import opened Runs
  import opened Lookup

  // ----- what is dropped -----

  /** No file below the output level covers `u`: the full scan that the cursors stand for. */
  ghost predicate BaseLevel(v: Version, level: nat, u: UserKey)
    requires |v.levels| == NUM_LEVELS
  {
    forall l, f :: level + 2 <= l < NUM_LEVELS && f in v.levels[l] ==> !Covers(f, u)
  }

  /** A newer input entry of the same key is already old enough for every snapshot. */
  ghost predicate Hidden(I: set<Entry>, snap: nat, e: Entry) {
    exists n :: n in I && n.key.user == e.key.user && e.key.seqno < n.key.seqno <= snap
  }

  ghost predicate ObsoleteTombstone(v: Version, level: nat, snap: nat, e: Entry)
    requires |v.levels| == NUM_LEVELS
  {
    e.key.kind.Deletion? && e.key.seqno <= snap && BaseLevel(v, level, e.key.user)
  }

  ghost predicate Dropped(v: Version, level: nat, I: set<Entry>, snap: nat, e: Entry)
    requires |v.levels| == NUM_LEVELS
  {
    Hidden(I, snap, e) || ObsoleteTombstone(v, level, snap, e)
  }

  ghost function Kept(v: Version, level: nat, I: set<Entry>, snap: nat): set<Entry>
    requires |v.levels| == NUM_LEVELS
  {
    set e | e in I && !Dropped(v, level, I, snap, e)
  }

  // ----- IsBaseLevelForKey with its monotone cursors -----

  /** One position per level, moved forward only while keys ascend. */
  class Compaction {
    const base: Version
    const level: nat
    const levelPtrs: array<nat>

    ghost predicate Valid()
      reads this
    {
      LevelsOk(base) && levelPtrs.Length == NUM_LEVELS && level + 1 < NUM_LEVELS
    }

    /** The files before each cursor end before `u`. */
    ghost predicate CursorsBefore(u: UserKey)
      requires Valid()
      reads this, levelPtrs
    {
      forall l :: level + 2 <= l < NUM_LEVELS ==> CursorBefore(base.levels[l], levelPtrs[l], u)
    }

    constructor (base: Version, level: nat)
      requires LevelsOk(base) && level + 1 < NUM_LEVELS
      ensures Valid() && this.base == base && this.level == level && fresh(levelPtrs)
      ensures forall u :: CursorsBefore(u)
    {
      this.base, this.level := base, level;
      levelPtrs := new nat[NUM_LEVELS](_ => 0);
    }

    /** Agrees with the full scan for any sequence of ascending keys. */
    method IsBaseLevelForKey(u: UserKey) returns (isBase: bool)
      requires Valid() && CursorsBefore(u)
      modifies levelPtrs
      ensures Valid()
      ensures forall u' :: u <= u' ==> CursorsBefore(u')
      ensures isBase <==> BaseLevel(base, level, u)
    {
      for l := level + 2 to NUM_LEVELS
        invariant CursorsBefore(u)
        invariant forall k, f :: level + 2 <= k < l && f in base.levels[k] ==> !Covers(f, u)
      {
        var p, covered := AdvanceCursor(base.levels[l], levelPtrs[l], u);
        levelPtrs[l] := p;
        if covered {
          CursorsStayBefore(u);
          return false;
        }
      }
      CursorsStayBefore(u);
      isBase := true;
    }

    lemma CursorsStayBefore(u: UserKey)
      requires Valid() && CursorsBefore(u)
      ensures forall u' :: u <= u' ==> CursorsBefore(u')
    {
    }
  }

  ghost predicate CursorBefore(files: Level, p: nat, u: UserKey) {
    p <= |files| && forall i :: 0 <= i < p ==> files[i].largest.user < u
  }

  /** The inner loop: skip the files that end before `u`; does the next one cover it? */
  method AdvanceCursor(files: Level, start: nat, u: UserKey) returns (p: nat, covered: bool)
    requires FilesOk(files) && LevelSorted(files) && CursorBefore(files, start, u)
    ensures CursorBefore(files, p, u)
    ensures covered <==> exists f :: f in files && Covers(f, u)
  {
    p := start;
    while p < |files|
      invariant CursorBefore(files, p, u)
    {
      var f := files[p];
      if u <= f.largest.user {
        if f.smallest.user <= u {
          assert f in files && Covers(f, u);
          return p, true;
        }
        forall g | g in files ensures !Covers(g, u) {
          var i :| 0 <= i < |files| && files[i] == g;
          RangeOk(f);
          assert p < i ==> Less(files[p].largest, files[i].smallest);
        }
        return p, false;
      }
      p := p + 1;
    }
    covered := false;
  }

  // ----- DoCompactionWork -----

  ghost function KeptPrefix(v: Version, level: nat, input: seq<Entry>, snap: nat, n: nat): seq<Entry>
    requires |v.levels| == NUM_LEVELS && n <= |input|
  {
    if n == 0 then []
    else
      KeptPrefix(v, level, input, snap, n - 1) +
      if Dropped(v, level, SetOf(input), snap, input[n - 1]) then [] else [input[n - 1]]
  }

  lemma SortedIndex(es: seq<Entry>, i: nat, j: nat)
    requires StrictlySorted(es) && i < |es| && j < |es|
    ensures Less(es[j].key, es[i].key) ==> j < i
  {
    assert i < j ==> Less(es[i].key, es[j].key);
  }

  /** Rule (A): looking at the previous entry alone finds every hidden one. */
  lemma HiddenByPrevious(input: seq<Entry>, snap: nat, i: nat)
    requires StrictlySorted(input) && Distinct(SetOf(input)) && i < |input|
    ensures Hidden(SetOf(input), snap, input[i]) <==>
              i > 0 && input[i - 1].key.user == input[i].key.user && input[i - 1].key.seqno <= snap
  {
    var e := input[i];
    if i > 0 {
      var q := input[i - 1];
      assert Less(q.key, e.key);
      assert q in SetOf(input) && e in SetOf(input);
    }
    forall n | n in SetOf(input) && n.key.user == e.key.user && e.key.seqno < n.key.seqno <= snap
      ensures i > 0 && input[i - 1].key.user == e.key.user && input[i - 1].key.seqno <= snap
    {
      var j :| 0 <= j < |input| && input[j] == n;
      SortedIndex(input, i, j);
      assert j < i - 1 ==> Less(input[j].key, input[i - 1].key);
    }
  }

  ghost predicate OutputsSoFar(runs: seq<seq<Entry>>, builder: seq<Entry>, kept: seq<Entry>) {
    (forall r :: r in runs ==> r != []) && Flatten(runs) + builder == kept
  }

  lemma FinishRun(runs: seq<seq<Entry>>, builder: seq<Entry>, kept: seq<Entry>)
    requires OutputsSoFar(runs, builder, kept) && builder != []
    ensures OutputsSoFar(runs + [builder], [], kept)
  {
    var rs := runs + [builder];
    assert rs[..|rs| - 1] == runs;
  }

  lemma AddToRun(runs: seq<seq<Entry>>, builder: seq<Entry>, kept: seq<Entry>, e: Entry)
    requires OutputsSoFar(runs, builder, kept)
    ensures OutputsSoFar(runs, builder + [e], kept + [e])
  {
    assert Flatten(runs) + (builder + [e]) == Flatten(runs) + builder + [e];
  }

  /**
  The compaction loop over the merged inputs. Where output files are cut depends on sizes
  and on the grandparent overlap; `stopBefore` and `bigEnough` answer those questions
  arbitrarily for every entry.
  */
  method DoCompactionWork(c: Compaction, input: seq<Entry>, snap: nat, stopBefore: seq<bool>, bigEnough: seq<bool>)
      returns (runs: seq<seq<Entry>>)
    requires c.Valid() && forall u :: c.CursorsBefore(u)
    requires StrictlySorted(input) && Distinct(SetOf(input)) && snap < MAX_SEQUENCE
    requires |stopBefore| == |bigEnough| == |input|
    modifies c.levelPtrs
    ensures (forall r :: r in runs ==> r != [])
    ensures Flatten(runs) == KeptPrefix(c.base, c.level, input, snap, |input|)
  {
    runs := [];
    var builder: seq<Entry> := [];
    var currentUserKey: Option<UserKey> := None;
    var lastSequenceForKey := MAX_SEQUENCE;
    for i := 0 to |input|
      invariant c.Valid() && (i < |input| ==> c.CursorsBefore(input[i].key.user))
      invariant if i == 0 then currentUserKey == None
                else currentUserKey == Some(input[i - 1].key.user) && lastSequenceForKey == input[i - 1].key.seqno
      invariant OutputsSoFar(runs, builder, KeptPrefix(c.base, c.level, input, snap, i))
    {
      ghost var kept := KeptPrefix(c.base, c.level, input, snap, i);
      if stopBefore[i] && builder != [] {
        FinishRun(runs, builder, kept);
        runs, builder := runs + [builder], [];
      }
      var e := input[i];
      var drop := false;
      if currentUserKey != Some(e.key.user) {
        currentUserKey := Some(e.key.user);
        lastSequenceForKey := MAX_SEQUENCE;
      }
      HiddenByPrevious(input, snap, i);
      if lastSequenceForKey <= snap {
        drop := true;
      } else if e.key.kind.Deletion? && e.key.seqno <= snap {
        drop := c.IsBaseLevelForKey(e.key.user);
      }
      lastSequenceForKey := e.key.seqno;
      assert drop <==> Dropped(c.base, c.level, SetOf(input), snap, e);
      if !drop {
        AddToRun(runs, builder, kept, e);
        builder := builder + [e];
        if bigEnough[i] {
          FinishRun(runs, builder, kept + [e]);
          runs, builder := runs + [builder], [];
        }
      }
      c.CursorsStayBefore(e.key.user);
      assert i + 1 < |input| ==> Less(e.key, input[i + 1].key);
    }
    if builder != [] {
      FinishRun(runs, builder, KeptPrefix(c.base, c.level, input, snap, |input|));
      runs, builder := runs + [builder], [];
    }
  }

  // ----- what readers notice -----

  /**
  Something outside the inputs shows through at `horizon` once the newest entry of `u`, a
  tombstone the loop drops for `snap`, is gone.
  */
  ghost predicate Exposed(v: Version, level: nat, I: set<Entry>, R: set<Entry>, snap: nat, horizon: nat, u: UserKey)
    requires |v.levels| == NUM_LEVELS
  {
    && Read(R, u, horizon).Some?
    && exists e :: e in I && IsNewest(I + R, u, horizon, e) && ObsoleteTombstone(v, level, snap, e)
  }

  lemma DistinctParts(I: set<Entry>, R: set<Entry>, K: set<Entry>)
    requires Distinct(I + R) && K <= I
    ensures Distinct(K + R) && Distinct(R) && Distinct(I)
  {
    assert forall e :: e in K + R ==> e in I + R;
    assert forall e :: e in R ==> e in I + R;
    assert forall e :: e in I ==> e in I + R;
  }

  /** A newest entry that is kept, or never was an input, is still what readers find. */
  lemma KeptStillNewest(I: set<Entry>, R: set<Entry>, K: set<Entry>, u: UserKey, s: nat, e: Entry)
    requires Distinct(I + R) && K <= I && IsNewest(I + R, u, s, e) && e in K + R
    ensures Read(K + R, u, s) == Read(I + R, u, s)
  {
    DistinctParts(I, R, K);
    assert IsNewest(K + R, u, s, e);
    ReadIs(I + R, u, s, e);
    ReadIs(K + R, u, s, e);
  }

  /** With the tombstone gone, the reader is left with what lies outside the inputs. */
  lemma TombstoneGone(v: Version, level: nat, I: set<Entry>, R: set<Entry>, snap: nat, horizon: nat, u: UserKey, s: nat, e: Entry)
    requires |v.levels| == NUM_LEVELS && Distinct(I + R) && I !! R && snap <= horizon <= s
    requires e in I && IsNewest(I + R, u, s, e) && ObsoleteTombstone(v, level, snap, e)
    ensures Read(I + R, u, s) == None
    ensures Read(Kept(v, level, I, snap) + R, u, s) == Read(R, u, horizon)
  {
    var K := Kept(v, level, I, snap);
    DistinctParts(I, R, K);
    ReadIs(I + R, u, s, e);
    forall o | Candidate(o, u, s) ensures o in K + R <==> o in R {
      if o in I && o != e {
        assert o in I + R;
        assert Hidden(I, snap, o);
      }
    }
    ReadCongruence(K + R, R, u, s);
    forall o | o in R && Candidate(o, u, s) ensures Candidate(o, u, horizon) {
      assert o in I + R;
    }
    ReadUpTo(R, u, s, horizon);
  }

  lemma ReadUpTo(R: set<Entry>, u: UserKey, s: nat, snap: nat)
    requires Distinct(R) && snap <= s && forall o :: o in R && Candidate(o, u, s) ==> Candidate(o, u, snap)
    ensures Read(R, u, s) == Read(R, u, snap)
  {
    if o :| o in R && Candidate(o, u, s) {
      var m := NewestExists(R, u, s, o);
      ReadIs(R, u, s, m);
      ReadIs(R, u, snap, m);
    } else {
      ReadNone(R, u, s);
      ReadNone(R, u, snap);
    }
  }

  /** One key, one snapshot: the compacted store reads differently exactly when the key is exposed. */
  lemma CompactionAt(v: Version, level: nat, I: set<Entry>, R: set<Entry>, snap: nat, horizon: nat, u: UserKey, s: nat)
    requires |v.levels| == NUM_LEVELS && Distinct(I + R) && I !! R && snap <= horizon <= s
    ensures !Exposed(v, level, I, R, snap, horizon, u) ==>
              Read(Kept(v, level, I, snap) + R, u, s) == Read(I + R, u, s)
    ensures Exposed(v, level, I, R, snap, horizon, u) && s == horizon ==>
              Read(Kept(v, level, I, snap) + R, u, s) != Read(I + R, u, s)
  {
    var K := Kept(v, level, I, snap);
    if o :| o in I + R && Candidate(o, u, s) {
      var e := NewestExists(I + R, u, s, o);
      NewestNotHidden(I, R, snap, u, s, e);
      if e in K + R {
        KeptStillNewest(I, R, K, u, s, e);
        if e in I && s == horizon {
          UniqueNewest(I + R, u, s, e);
        }
      } else {
        TombstoneGone(v, level, I, R, snap, horizon, u, s, e);
        assert IsNewest(I + R, u, horizon, e);
      }
    } else {
      ReadNone(I + R, u, s);
      ReadNone(K + R, u, s);
    }
  }

  lemma UniqueNewest(E: set<Entry>, u: UserKey, s: nat, e: Entry)
    requires Distinct(E) && IsNewest(E, u, s, e)
    ensures forall o :: IsNewest(E, u, s, o) ==> o == e
  {
    forall o | IsNewest(E, u, s, o) ensures o == e {
      assert o in E && e in E;
    }
  }

  lemma NewestNotHidden(I: set<Entry>, R: set<Entry>, snap: nat, u: UserKey, s: nat, e: Entry)
    requires snap <= s && IsNewest(I + R, u, s, e)
    ensures !Hidden(I, snap, e)
  {
    forall n | n in I && n.key.user == e.key.user && n.key.seqno <= snap
      ensures n.key.seqno <= e.key.seqno
    {
      assert n in I + R && Candidate(n, u, s);
    }
  }

  /**
  Compaction is invisible to every reader at or above a horizon no older than the snapshot
  it ran with if and only if no user key is exposed there.
  */
  lemma InvisibleIffNothingExposed(v: Version, level: nat, I: set<Entry>, R: set<Entry>, snap: nat, horizon: nat)
    requires |v.levels| == NUM_LEVELS && Distinct(I + R) && I !! R && snap <= horizon
    ensures (forall u, s :: horizon <= s ==> Read(Kept(v, level, I, snap) + R, u, s) == Read(I + R, u, s))
       <==> (forall u :: !Exposed(v, level, I, R, snap, horizon, u))
  {
    forall u, s | horizon <= s && !Exposed(v, level, I, R, snap, horizon, u)
      ensures Read(Kept(v, level, I, snap) + R, u, s) == Read(I + R, u, s)
    {
      CompactionAt(v, level, I, R, snap, horizon, u, s);
    }
    forall u | Exposed(v, level, I, R, snap, horizon, u)
      ensures Read(Kept(v, level, I, snap) + R, u, horizon) != Read(I + R, u, horizon)
    {
      CompactionAt(v, level, I, R, snap, horizon, u, horizon);
    }
  }
}
