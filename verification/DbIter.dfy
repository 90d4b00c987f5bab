/** db/db_iter.cc: a cursor over the user keys visible at one snapshot, in both directions. */
module DbIter {
  import opened Common
  import opened Format
  import opened Merger

  // ----- the reference cursor -----

  datatype View = Off | On(user: UserKey, value: Blob)

  datatype Limit = Everything | AtLeast(low: UserKey) | Above(under: UserKey) | Below(over: UserKey)

  predicate Admits(l: Limit, u: UserKey) {
    match l
    case Everything => true
    case AtLeast(k) => k <= u
    case Above(k) => k < u
    case Below(k) => u < k
  }

  /** `v` is the first key within the limit that a reader at `s` can see. */
  ghost predicate IsLeast(E: set<Entry>, s: nat, l: Limit, v: View) {
    match v
    case Off => forall u :: Admits(l, u) ==> Read(E, u, s) == None
    case On(u, value) =>
      && Admits(l, u) && Read(E, u, s) == Some(value)
      && forall w :: Admits(l, w) && w < u ==> Read(E, w, s) == None
  }

  ghost predicate IsGreatest(E: set<Entry>, s: nat, l: Limit, v: View) {
    match v
    case Off => forall u :: Admits(l, u) ==> Read(E, u, s) == None
    case On(u, value) =>
      && Admits(l, u) && Read(E, u, s) == Some(value)
      && forall w :: Admits(l, w) && u < w ==> Read(E, w, s) == None
  }

  /** The limit and the view determine each other: a cursor has one place to go. */
  lemma LeastIsUnique(E: set<Entry>, s: nat, l: Limit, v: View, w: View)
    requires IsLeast(E, s, l, v) && IsLeast(E, s, l, w)
    ensures v == w
  {
    assert v.On? && w.On? ==> v.user == w.user;
  }

  lemma GreatestIsUnique(E: set<Entry>, s: nat, l: Limit, v: View, w: View)
    requires IsGreatest(E, s, l, v) && IsGreatest(E, s, l, w)
    ensures v == w
  {
    assert v.On? && w.On? ==> v.user == w.user;
  }

  // ----- what is shown, by index of the merged sequence -----

  predicate Seen(all: seq<Entry>, s: nat, i: int) {
    0 <= i < |all| && all[i].key.seqno <= s
  }

  /** Entry i is the one a reader at `s` sees for its key. */
  ghost predicate Shown(all: seq<Entry>, s: nat, i: int) {
    && Seen(all, s, i) && all[i].key.kind.Value?
    && forall j :: 0 <= j < i && all[j].key.user == all[i].key.user ==> !Seen(all, s, j)
  }

  ghost predicate Ordered(all: seq<Entry>) {
    forall i, j :: 0 <= i < j < |all| ==> all[i].key.user <= all[j].key.user
  }

  lemma SortedIsOrdered(all: seq<Entry>)
    requires StrictlySorted(all)
    ensures Ordered(all)
  {}

  lemma ShownReads(all: seq<Entry>, s: nat, i: int)
    requires StrictlySorted(all) && Distinct(SetOf(all)) && Shown(all, s, i)
    ensures Read(SetOf(all), all[i].key.user, s) == Some(all[i].value)
  {
    var e := all[i];
    forall o | o in SetOf(all) && Candidate(o, e.key.user, s) ensures o.key.seqno <= e.key.seqno {
      var j :| 0 <= j < |all| && all[j] == o;
      assert Seen(all, s, j);
      assert i < j ==> Less(e.key, o.key);
    }
    ReadIs(SetOf(all), e.key.user, s, e);
  }

  lemma ReadsShown(all: seq<Entry>, s: nat, u: UserKey) returns (i: int)
    requires StrictlySorted(all) && Distinct(SetOf(all)) && Read(SetOf(all), u, s).Some?
    ensures Shown(all, s, i) && all[i].key.user == u && Read(SetOf(all), u, s) == Some(all[i].value)
  {
    var e :| IsNewest(SetOf(all), u, s, e);
    ReadIs(SetOf(all), u, s, e);
    i :| 0 <= i < |all| && all[i] == e;
    forall j | 0 <= j < i && all[j].key.user == u ensures !Seen(all, s, j) {
      assert Less(all[j].key, e.key);
      assert all[j] in SetOf(all);
      assert Candidate(all[j], u, s) == Seen(all, s, j);
    }
  }

  ghost predicate ShowsAs(all: seq<Entry>, s: nat, i: int, v: View) {
    v.On? && Shown(all, s, i) && v == On(all[i].key.user, all[i].value)
  }

  ghost predicate NoneShown(all: seq<Entry>, s: nat, l: Limit, lo: int, hi: int) {
    forall i :: lo <= i < hi && Shown(all, s, i) ==> !Admits(l, all[i].key.user)
  }

  lemma LeastByIndex(all: seq<Entry>, s: nat, l: Limit, r: int, v: View)
    requires StrictlySorted(all) && Distinct(SetOf(all)) && NoneShown(all, s, l, 0, r)
    requires if v.Off? then r >= |all| else ShowsAs(all, s, r, v) && Admits(l, v.user)
    ensures IsLeast(SetOf(all), s, l, v)
  {
    SortedIsOrdered(all);
    if v.On? { ShownReads(all, s, r); }
    forall u | Admits(l, u) && (v.On? ==> u < v.user) ensures Read(SetOf(all), u, s) == None {
      if Read(SetOf(all), u, s).Some? {
        var i := ReadsShown(all, s, u);
      }
    }
  }

  lemma GreatestByIndex(all: seq<Entry>, s: nat, l: Limit, r: int, v: View)
    requires StrictlySorted(all) && Distinct(SetOf(all)) && NoneShown(all, s, l, r + 1, |all|)
    requires if v.Off? then r < 0 else ShowsAs(all, s, r, v) && Admits(l, v.user)
    ensures IsGreatest(SetOf(all), s, l, v)
  {
    SortedIsOrdered(all);
    if v.On? { ShownReads(all, s, r); }
    forall u | Admits(l, u) && (v.On? ==> v.user < u) ensures Read(SetOf(all), u, s) == None {
      if Read(SetOf(all), u, s).Some? {
        var i := ReadsShown(all, s, u);
      }
    }
  }

  // ----- scanning forward -----

  function SkipLimit(skipping: bool, skip: Option<UserKey>): Limit {
    if skipping && skip.Some? then Above(skip.value) else Everything
  }

  /**
  Entries from p on belong to keys not yet decided, except for the key being skipped, which
  is the least that still has entries a reader could look at.
  */
  ghost predicate Ahead(all: seq<Entry>, s: nat, p: int, l: Limit) {
    && (forall i, j :: 0 <= i < p <= j < |all| && all[i].key.user == all[j].key.user && Seen(all, s, i) ==>
          !Admits(l, all[j].key.user))
    && (l.Above? ==> forall j :: p <= j < |all| && Seen(all, s, j) ==> l.under <= all[j].key.user)
  }

  /** Where the skipped key came from: the caller, or a deletion marker already passed. */
  ghost predicate SkipFrom(all: seq<Entry>, s: nat, r: int, l0: Limit, l: Limit) {
    && (l0.Above? ==> l.Above? && l0.under <= l.under)
    && (l == l0 || (l.Above? && exists i :: 0 <= i < r && Seen(all, s, i) && all[i].key.user == l.under))
  }

  /** A forward scan begun at p under limit l0 has reached r, now skipping under limit l. */
  ghost predicate Scanning(all: seq<Entry>, s: nat, p: int, r: int, l0: Limit, l: Limit) {
    && 0 <= p <= r <= |all| && Ordered(all) && (l0.Above? || l0.Everything?) && (l.Above? || l.Everything?)
    && Ahead(all, s, r, l) && SkipFrom(all, s, r, l0, l) && NoneShown(all, s, l0, p, r)
  }

  lemma StartScan(all: seq<Entry>, s: nat, p: int, l: Limit)
    requires StrictlySorted(all) && 0 <= p <= |all| && (l.Above? || l.Everything?) && Ahead(all, s, p, l)
    ensures Scanning(all, s, p, p, l, l)
  {
  }

  lemma PassHidden(all: seq<Entry>, s: nat, p: int, r: int, l0: Limit, l: Limit)
    requires Scanning(all, s, p, r, l0, l) && r < |all|
    requires !Seen(all, s, r) || !Admits(l, all[r].key.user)
    ensures Scanning(all, s, p, r + 1, l0, l)
  {
    if Shown(all, s, r) {
      assert l.Above? && all[r].key.user == l.under;
    }
  }

  lemma PassDeletion(all: seq<Entry>, s: nat, p: int, r: int, l0: Limit, l: Limit)
    requires Scanning(all, s, p, r, l0, l) && Seen(all, s, r) && all[r].key.kind.Deletion?
    ensures Scanning(all, s, p, r + 1, l0, Above(all[r].key.user))
  {
  }

  /** The scan has found the first shown entry within the limit. */
  ghost predicate Arrived(all: seq<Entry>, s: nat, p: int, r: int, l: Limit) {
    && 0 <= p <= r <= |all| && NoneShown(all, s, l, p, r)
    && (r < |all| ==> Shown(all, s, r) && Admits(l, all[r].key.user))
  }

  lemma StopAtShown(all: seq<Entry>, s: nat, p: int, r: int, l0: Limit, l: Limit)
    requires Scanning(all, s, p, r, l0, l)
    requires r < |all| ==> Seen(all, s, r) && all[r].key.kind.Value? && Admits(l, all[r].key.user)
    ensures Arrived(all, s, p, r, l0)
  {
  }

  // ----- scanning backward -----

  /** The merged index an invalid or valid iterator stands at when moving backward. */
  ghost function Low(at: nat, n: nat): int {
    if at < n then at else -1
  }

  /**
  A backward scan begun at q has reached r. Nothing between is shown, unless entry c holds the
  value kept so far and only hidden entries lie between r and c.
  */
  ghost predicate ScanningBack(all: seq<Entry>, s: nat, r: int, q: int, kept: Option<int>) {
    && Ordered(all) && -1 <= r <= q < |all|
    && match kept
       case None => NoneShown(all, s, Everything, r + 1, q + 1)
       case Some(c) =>
         && r < c <= q && Seen(all, s, c) && all[c].key.kind.Value?
         && (forall i :: r < i < c ==> !Seen(all, s, i))
         && NoneShown(all, s, Everything, c + 1, q + 1)
  }

  lemma BackPastHidden(all: seq<Entry>, s: nat, r: int, q: int, kept: Option<int>)
    requires ScanningBack(all, s, r, q, kept) && r >= 0 && !Seen(all, s, r)
    ensures ScanningBack(all, s, r - 1, q, kept)
  {
  }

  /** A newer entry of the key held, or a first entry of the next key down, replaces what was kept. */
  lemma BackOver(all: seq<Entry>, s: nat, r: int, q: int, kept: Option<int>)
    requires ScanningBack(all, s, r, q, kept) && r >= 0 && Seen(all, s, r)
    requires kept.Some? ==> all[kept.value].key.user <= all[r].key.user
    ensures ScanningBack(all, s, r - 1, q, if all[r].key.kind.Value? then Some(r) else None)
  {
    if kept.Some? {
      assert all[r].key.user == all[kept.value].key.user;
      assert !Shown(all, s, kept.value);
    }
  }

  /** Where a backward scan leaves the inner iterator: no later entry before the key can be seen. */
  ghost predicate JustBefore(all: seq<Entry>, s: nat, r: int, u: UserKey) {
    && (0 <= r < |all| ==> all[r].key.user < u)
    && forall i :: Seen(all, s, i) && all[i].key.user < u ==> i <= r
  }

  lemma BackStops(all: seq<Entry>, s: nat, r: int, q: int, c: int)
    requires ScanningBack(all, s, r, q, Some(c)) && (r >= 0 ==> all[r].key.user < all[c].key.user)
    ensures Shown(all, s, c) && JustBefore(all, s, r, all[c].key.user)
  {
  }

  /** What a backward scan from q found: the last shown entry at or before it. */
  ghost predicate ArrivedBack(all: seq<Entry>, s: nat, r: int, q: int, v: View) {
    match v
    case Off => NoneShown(all, s, Everything, 0, q + 1)
    case On(u, _) =>
      && JustBefore(all, s, r, u)
      && exists c :: c <= q && ShowsAs(all, s, c, v) && NoneShown(all, s, Everything, c + 1, q + 1)
  }

  class DBIter {
    const iter: MergingIterator
    const sequence: nat
    var direction: Direction
    var valid: bool
    var savedKey: Option<UserKey>
    var savedValue: Blob

    ghost function All(): seq<Entry> {
      iter.All()
    }

    ghost predicate InnerOk()
      reads this, iter
    {
      iter.Valid() && iter.at <= |All()| && StrictlySorted(All()) && Distinct(SetOf(All()))
    }

    /** What the client sees: nothing, or a key and its value. */
    ghost function View(): View
      reads this, iter
    {
      if !valid then Off
      else if direction.Forward? then
        if iter.at < |All()| then On(All()[iter.at].key.user, All()[iter.at].value) else Off
      else if savedKey.Some? then On(savedKey.value, savedValue) else Off
    }

    ghost predicate Valid()
      reads this, iter
    {
      && InnerOk()
      && (valid ==> View().On? && Read(SetOf(All()), View().user, sequence) == Some(View().value))
      && (valid && direction.Forward? ==> Shown(All(), sequence, iter.at))
      && (valid && direction.Reverse? ==> JustBefore(All(), sequence, Low(iter.at, |All()|), savedKey.value))
    }

    constructor (iter: MergingIterator, sequence: nat)
      requires iter.Valid() && Distinct(SetOf(iter.All()))
      ensures Valid() && this.iter == iter && this.sequence == sequence && !valid
    {
      this.iter, this.sequence := iter, sequence;
      direction, valid, savedKey, savedValue := Forward, false, None, [];
      MergedSorted(iter.sources);
    }

    /** key() and value(), when there is one. */
    method Current() returns (v: View)
      requires Valid()
      ensures v == View()
      ensures v.On? <==> valid
    {
      if !valid {
        return Off;
      }
      if direction.Forward? {
        var e := iter.CurrentEntry();
        return On(e.key.user, e.value);
      }
      return On(savedKey.value, savedValue);
    }

    method FindNextUserEntry(skip: bool)
      requires InnerOk() && iter.IsValid() && direction.Forward? && (skip ==> savedKey.Some?)
      requires Ahead(All(), sequence, iter.at, SkipLimit(skip, savedKey))
      modifies this`valid, this`savedKey, iter
      ensures InnerOk() && (valid <==> iter.at < |All()|)
      ensures Arrived(All(), sequence, old(iter.at), iter.at, old(SkipLimit(skip, savedKey)))
    {
      hide Merged, StrictlySorted, Distinct, Ahead, Scanning, Arrived, MergingIterator.Valid, MergingIterator.IsValid;
      ghost var all, p, l0 := All(), iter.at, SkipLimit(skip, savedKey);
      StartScan(all, sequence, p, l0);
      var skipping := skip;
      while iter.IsValid()
        invariant iter.Valid() && iter.at <= |all| && (skipping ==> savedKey.Some?)
        invariant Scanning(all, sequence, p, iter.at, l0, SkipLimit(skipping, savedKey))
        decreases |all| - iter.at
      {
        var e := iter.CurrentEntry();
        ghost var l := SkipLimit(skipping, savedKey);
        if e.key.seqno <= sequence {
          if e.key.kind.Deletion? {
            PassDeletion(all, sequence, p, iter.at, l0, l);
            savedKey, skipping := Some(e.key.user), true;
          } else if skipping && e.key.user <= savedKey.value {
            PassHidden(all, sequence, p, iter.at, l0, l);
          } else {
            StopAtShown(all, sequence, p, iter.at, l0, l);
            valid, savedKey := true, None;
            return;
          }
        } else {
          PassHidden(all, sequence, p, iter.at, l0, l);
        }
        iter.Next();
      }
      StopAtShown(all, sequence, p, iter.at, l0, SkipLimit(skipping, savedKey));
      savedKey, valid := None, false;
    }
    method Seek(target: UserKey)
      requires Valid()
      modifies this, iter
      ensures Valid() && IsLeast(SetOf(All()), sequence, AtLeast(target), View())
    {
      hide Merged, StrictlySorted, Distinct, Ahead, NoneShown, Shown, Arrived, IsLeast, Read, FirstAtOrAfter,
           MergingIterator.Valid, MergingIterator.IsValid;
      direction, savedValue, savedKey := Forward, [], None;
      iter.Seek(SeekKey(target, sequence));
      AheadOfTarget(All(), sequence, target);
      ghost var p := iter.at;
      if iter.IsValid() {
        FindNextUserEntry(false);
      } else {
        valid := false;
        NoneLeft(All(), sequence, Everything);
      }
      Wider(All(), sequence, p, iter.at, target);
      ForwardIsLeast(All(), sequence, p, iter.at, AtLeast(target), View());
    }

    method SeekToFirst()
      requires Valid()
      modifies this, iter
      ensures Valid() && IsLeast(SetOf(All()), sequence, Everything, View())
    {
      hide Merged, StrictlySorted, Distinct, Ahead, NoneShown, Shown, Arrived, ArrivedBack, JustBefore, IsLeast, IsGreatest, Read,
           FirstAtOrAfter, MergingIterator.Valid, MergingIterator.IsValid;
      direction, savedValue := Forward, [];
      iter.SeekToFirst();
      AheadAtStart(All(), sequence);
      if iter.IsValid() {
        FindNextUserEntry(false);
      } else {
        valid := false;
        NoneLeft(All(), sequence, Everything);
      }
      ForwardIsLeast(All(), sequence, 0, iter.at, Everything, View());
    }

    method SeekToLast()
      requires Valid()
      modifies this, iter
      ensures Valid() && IsGreatest(SetOf(All()), sequence, Everything, View())
    {
      hide Merged, StrictlySorted, Distinct, Ahead, NoneShown, Shown, Arrived, ArrivedBack, JustBefore, IsLeast, IsGreatest, Read,
           FirstAtOrAfter, MergingIterator.Valid, MergingIterator.IsValid;
      direction, savedValue := Reverse, [];
      iter.SeekToLast();
      ghost var q := Low(iter.at, |All()|);
      NoneBeyond(All(), sequence);
      FindPrevUserEntry();
      BackwardIsGreatest(All(), sequence, Low(iter.at, |All()|), q, Everything, View());
    }

    method Next()
      requires Valid() && valid
      modifies this, iter
      ensures Valid() && IsLeast(SetOf(All()), sequence, Above(old(View().user)), View())
    {
      hide Merged, StrictlySorted, Distinct, Ahead, NoneShown, Shown, Arrived, ArrivedBack, JustBefore, IsLeast, IsGreatest, Read,
           FirstAtOrAfter, MergingIterator.Valid, MergingIterator.IsValid;
      ghost var u := View().user;
      if direction.Reverse? {
        direction := Forward;
        AheadTurned(All(), sequence, Low(iter.at, |All()|), u);
        if !iter.IsValid() {
          iter.SeekToFirst();
        } else {
          iter.Next();
        }
      } else {
        AheadAfter(All(), sequence, iter.at);
        savedKey := Some(iter.CurrentEntry().key.user);
        iter.Next();
      }
      ghost var p := iter.at;
      if !iter.IsValid() {
        valid, savedKey := false, None;
        NoneLeft(All(), sequence, Above(u));
      } else {
        FindNextUserEntry(true);
      }
      ForwardIsLeast(All(), sequence, p, iter.at, Above(u), View());
    }

    method Prev()
      requires Valid() && valid
      modifies this, iter
      ensures Valid() && IsGreatest(SetOf(All()), sequence, Below(old(View().user)), View())
    {
      hide Merged, StrictlySorted, Distinct, Ahead, NoneShown, Shown, Arrived, ArrivedBack, JustBefore, IsLeast, IsGreatest, Read,
           FirstAtOrAfter, MergingIterator.Valid, MergingIterator.IsValid;
      ghost var u := View().user;
      if direction.Forward? {
        savedKey := Some(iter.CurrentEntry().key.user);
        while true
          invariant iter.Valid() && iter.at < |All()| && savedKey == Some(u)
          invariant u <= All()[iter.at].key.user
          decreases iter.at
        {
          ghost var before := iter.at;
          iter.Prev();
          LeftBehind(All(), sequence, before, u);
          if !iter.IsValid() {
            valid, savedKey, savedValue := false, None, [];
            NoneBack(All(), sequence);
            BackwardIsGreatest(All(), sequence, -1, -1, Below(u), View());
            return;
          }
          if iter.CurrentEntry().key.user < savedKey.value {
            break;
          }
        }
        direction := Reverse;
      } else {
        NothingAfter(All(), sequence, Low(iter.at, |All()|), u);
      }
      ghost var q := Low(iter.at, |All()|);
      UpTo(All(), q, u);
      FindPrevUserEntry();
      BackwardIsGreatest(All(), sequence, Low(iter.at, |All()|), q, Below(u), View());
    }

    method FindPrevUserEntry()
      requires InnerOk() && direction.Reverse?
      modifies this, iter
      ensures InnerOk() && (valid ==> direction.Reverse? && savedKey.Some?)
      ensures ArrivedBack(All(), sequence, Low(iter.at, |All()|), old(Low(iter.at, |All()|)), View())
    {
      hide Merged, StrictlySorted, Distinct, ScanningBack, ArrivedBack, MergingIterator.Valid, MergingIterator.IsValid;
      ghost var all, q := All(), Low(iter.at, |All()|);
      var kind := Deletion;
      ghost var kept: Option<int> := None;
      StartBack(all, sequence, iter.at);
      while iter.IsValid()
        invariant iter.Valid() && iter.at <= |all| && direction.Reverse?
        invariant ScanningBack(all, sequence, Low(iter.at, |all|), q, kept)
        invariant kept.Some? == kind.Value?
        invariant kept.Some? ==> 0 <= kept.value < |all| && savedKey == Some(all[kept.value].key.user) && savedValue == all[kept.value].value
        decreases Low(iter.at, |all|)
      {
        var e := iter.CurrentEntry();
        if e.key.seqno <= sequence {
          if kind.Value? && e.key.user < savedKey.value {
            break;
          }
          BackOver(all, sequence, iter.at, q, kept);
          kind := e.key.kind;
          if kind.Deletion? {
            savedKey, savedValue, kept := None, [], None;
          } else {
            savedKey, savedValue, kept := Some(e.key.user), e.value, Some(iter.at);
          }
        } else {
          BackPastHidden(all, sequence, iter.at, q, kept);
        }
        iter.Prev();
      }
      EndBack(all, sequence, Low(iter.at, |all|), q, kept);
      if kind.Deletion? {
        valid, savedKey, savedValue, direction := false, None, [], Forward;
      } else {
        valid := true;
      }
    }
  }

  // ----- from indices of the merged sequence to the reference cursor -----

  /** A forward scan from p yields the cursor's next place, when no earlier entry qualifies. */
  lemma ForwardIsLeast(all: seq<Entry>, s: nat, p: int, r: int, l: Limit, v: View)
    requires StrictlySorted(all) && Distinct(SetOf(all)) && Arrived(all, s, p, r, l)
    requires NoneShown(all, s, l, 0, p)
    requires v == if r < |all| then On(all[r].key.user, all[r].value) else Off
    ensures IsLeast(SetOf(all), s, l, v)
    ensures v.On? ==> Shown(all, s, r) && Read(SetOf(all), v.user, s) == Some(v.value)
  {
    LeastByIndex(all, s, l, r, v);
  }

  lemma BackwardIsGreatest(all: seq<Entry>, s: nat, r: int, q: int, l: Limit, v: View)
    requires StrictlySorted(all) && Distinct(SetOf(all)) && ArrivedBack(all, s, r, q, v)
    requires -1 <= q < |all| && NoneShown(all, s, l, q + 1, |all|)
    requires forall i :: 0 <= i <= q ==> Admits(l, all[i].key.user)
    ensures IsGreatest(SetOf(all), s, l, v)
    ensures v.On? ==> JustBefore(all, s, r, v.user) && Read(SetOf(all), v.user, s) == Some(v.value)
  {
    if v.On? {
      var c :| c <= q && ShowsAs(all, s, c, v) && NoneShown(all, s, Everything, c + 1, q + 1);
      GreatestByIndex(all, s, l, c, v);
    } else {
      GreatestByIndex(all, s, l, -1, v);
    }
  }

  /** After the shown entry of a key, skipping that key is a sound way to go on. */
  lemma AheadAfter(all: seq<Entry>, s: nat, i: int)
    requires StrictlySorted(all) && Shown(all, s, i)
    ensures Ahead(all, s, i + 1, Above(all[i].key.user)) && NoneShown(all, s, Above(all[i].key.user), 0, i + 1)
  {
    SortedIsOrdered(all);
  }

  /** Turning round: from just before a key, skipping the key is again sound. */
  lemma AheadTurned(all: seq<Entry>, s: nat, r: int, u: UserKey)
    requires StrictlySorted(all) && -1 <= r < |all| && JustBefore(all, s, r, u)
    ensures Ahead(all, s, r + 1, Above(u)) && NoneShown(all, s, Above(u), 0, r + 1)
  {
    SortedIsOrdered(all);
  }

  lemma AheadOfTarget(all: seq<Entry>, s: nat, t: UserKey)
    requires StrictlySorted(all)
    ensures Ahead(all, s, FirstAtOrAfter(all, SeekKey(t, s)), Everything)
    ensures NoneShown(all, s, AtLeast(t), 0, FirstAtOrAfter(all, SeekKey(t, s)))
    ensures forall i :: FirstAtOrAfter(all, SeekKey(t, s)) <= i < |all| ==> t <= all[i].key.user
  {
    SortedIsOrdered(all);
    var p := FirstAtOrAfter(all, SeekKey(t, s));
    forall i | 0 <= i < p && Seen(all, s, i) ensures all[i].key.user < t {
      assert Less(all[i].key, SeekKey(t, s));
    }
    if p < |all| { assert t <= all[p].key.user; }
  }

  lemma AheadAtStart(all: seq<Entry>, s: nat)
    ensures Ahead(all, s, 0, Everything) && NoneShown(all, s, Everything, 0, 0)
  {
  }

  lemma NoneBeyond(all: seq<Entry>, s: nat)
    ensures NoneShown(all, s, Everything, |all|, |all|)
  {
  }

  lemma LeftBehind(all: seq<Entry>, s: nat, i: nat, u: UserKey)
    requires StrictlySorted(all) && i < |all| && u <= all[i].key.user
    ensures NoneShown(all, s, Below(u), i, |all|)
  {
    SortedIsOrdered(all);
  }

  lemma NothingAfter(all: seq<Entry>, s: nat, r: int, u: UserKey)
    requires JustBefore(all, s, r, u)
    ensures NoneShown(all, s, Below(u), r + 1, |all|) && (0 <= r < |all| ==> all[r].key.user < u)
  {
  }

  lemma UpTo(all: seq<Entry>, q: int, u: UserKey)
    requires StrictlySorted(all) && -1 <= q < |all| && (q >= 0 ==> all[q].key.user < u)
    ensures forall i :: 0 <= i <= q ==> Admits(Below(u), all[i].key.user)
  {
    SortedIsOrdered(all);
  }

  lemma NoneBack(all: seq<Entry>, s: nat)
    ensures ArrivedBack(all, s, -1, -1, Off)
  {
  }

  lemma NoneLeft(all: seq<Entry>, s: nat, l: Limit)
    ensures Arrived(all, s, |all|, |all|, l)
  {
  }

  lemma Wider(all: seq<Entry>, s: nat, p: int, r: int, t: UserKey)
    requires Arrived(all, s, p, r, Everything)
    requires forall i :: p <= i < |all| ==> t <= all[i].key.user
    ensures Arrived(all, s, p, r, AtLeast(t))
  {
  }

  lemma StartBack(all: seq<Entry>, s: nat, at: nat)
    requires StrictlySorted(all) && at <= |all|
    ensures ScanningBack(all, s, Low(at, |all|), Low(at, |all|), None)
  {
  }

  ghost function ViewOf(all: seq<Entry>, kept: Option<int>): View {
    if kept.Some? && 0 <= kept.value < |all| then On(all[kept.value].key.user, all[kept.value].value) else Off
  }

  lemma EndBack(all: seq<Entry>, s: nat, r: int, q: int, kept: Option<int>)
    requires ScanningBack(all, s, r, q, kept)
    requires r >= 0 ==> kept.Some? && all[r].key.user < all[kept.value].key.user
    ensures ArrivedBack(all, s, r, q, ViewOf(all, kept))
  {
    if kept.Some? {
      BackStops(all, s, r, q, kept.value);
      assert ShowsAs(all, s, kept.value, ViewOf(all, kept));
    }
  }

  // ----- any sequence of calls -----

  datatype Call = ToFirst | ToLast | To(target: UserKey) | Forth | Back

  /** One call on the reference cursor; a step from nowhere goes nowhere. */
  ghost predicate CursorMoves(E: set<Entry>, s: nat, before: View, c: Call, after: View) {
    match c
    case ToFirst => IsLeast(E, s, Everything, after)
    case ToLast => IsGreatest(E, s, Everything, after)
    case To(t) => IsLeast(E, s, AtLeast(t), after)
    case Forth => if before.On? then IsLeast(E, s, Above(before.user), after) else after.Off?
    case Back => if before.On? then IsGreatest(E, s, Below(before.user), after) else after.Off?
  }

  lemma CursorIsDeterministic(E: set<Entry>, s: nat, before: View, c: Call, v: View, w: View)
    requires CursorMoves(E, s, before, c, v) && CursorMoves(E, s, before, c, w)
    ensures v == w
  {
    match c
    case ToFirst => LeastIsUnique(E, s, Everything, v, w);
    case ToLast => GreatestIsUnique(E, s, Everything, v, w);
    case To(t) => LeastIsUnique(E, s, AtLeast(t), v, w);
    case Forth => if before.On? { LeastIsUnique(E, s, Above(before.user), v, w); }
    case Back => if before.On? { GreatestIsUnique(E, s, Below(before.user), v, w); }
  }

  ghost function Union(sources: seq<seq<Entry>>): set<Entry> {
    set i, e | 0 <= i < |sources| && e in sources[i] :: e
  }

  lemma MergedIsUnion(sources: seq<seq<Entry>>)
    requires SourcesOk(sources)
    ensures SetOf(Merged(sources)) == Union(sources)
  {
    MergedSorted(sources);
    assert forall e :: e in Union(sources) <==> Holds(sources, e);
  }

  /** Opens an iterator at snapshot `s` over the sources and makes the calls in turn. */
  method Drive(sources: seq<seq<Entry>>, s: nat, calls: seq<Call>) returns (views: seq<View>)
    requires SourcesOk(sources) && Distinct(Union(sources))
    ensures |views| == |calls| + 1 && views[0] == Off
    ensures forall i :: 0 <= i < |calls| ==> CursorMoves(Union(sources), s, views[i], calls[i], views[i + 1])
  {
    hide Merged, Union, Distinct, IsLeast, IsGreatest, Read, MergingIterator.Valid, DBIter.Valid;
    MergedIsUnion(sources);
    var inner := new MergingIterator(sources);
    var it := new DBIter(inner, s);
    views := [Off];
    for n := 0 to |calls|
      invariant it.Valid() && fresh(it) && fresh(it.iter) && it.iter == inner && inner.sources == sources && it.sequence == s
      invariant |views| == n + 1 && views[0] == Off && views[n] == it.View() && (views[n].On? <==> it.valid)
      invariant forall i :: 0 <= i < n ==> CursorMoves(Union(sources), s, views[i], calls[i], views[i + 1])
    {
      match calls[n] {
        case ToFirst => it.SeekToFirst();
        case ToLast => it.SeekToLast();
        case To(t) => it.Seek(t);
        case Forth => if it.valid { it.Next(); }
        case Back => if it.valid { it.Prev(); }
      }
      var v := it.Current();
      views := views + [v];
    }
  }
}
