/**
Layered point lookup: memtable, immutable memtable, level 0 newest file first, then one
binary-searched file per deeper level, stopping at the first hit. It reads exactly what
the flat store made of all their entries would.
*/
module Lookup {
  import opened Common
  import opened Format
  import opened VersionModel

  // ----- older is deeper -----

  /** For every user key, each entry of A is newer than each entry of B. */
  ghost predicate Newer(A: set<Entry>, B: set<Entry>) {
    forall a, b :: a in A && b in B && a.key.user == b.key.user ==> a.key.seqno > b.key.seqno
  }

  /** A shallower level holds only newer entries of a user key than a deeper one. */
  ghost predicate OlderIsDeeper(v: Version)
    requires |v.levels| == NUM_LEVELS
  {
    forall i, j :: 0 <= i < j < NUM_LEVELS ==> Newer(LevelSet(v.levels[i]), LevelSet(v.levels[j]))
  }

  /** Level 0: a higher file number means newer data. */
  ghost predicate LevelZeroByNumber(files: Level) {
    && (forall f, g :: f in files && g in files && f.number > g.number ==>
         Newer(SetOf(f.entries), SetOf(g.entries)))
    && (forall f, g :: f in files && g in files && f.number == g.number ==> f == g)
  }

  ghost predicate VersionOk(v: Version) {
    LevelsOk(v) && OlderIsDeeper(v) && LevelZeroByNumber(v.levels[0])
  }

  ghost function VersionSet(v: Version): set<Entry> {
    set l, e | 0 <= l < |v.levels| && e in LevelSet(v.levels[l]) :: e
  }

  // ----- one search result against the flat store -----

  /** The search of E for `u` at `s` answered `r`. */
  ghost predicate Answers(E: set<Entry>, u: UserKey, s: nat, r: Found) {
    match r
    case Hit(e) => IsNewest(E, u, s, e)
    case NotHere => forall e :: e in E ==> !Candidate(e, u, s)
  }

  /** A hit in the newer part answers for the whole; a miss passes the question on. */
  lemma AnswerLayered(A: set<Entry>, B: set<Entry>, u: UserKey, s: nat, a: Found, b: Found)
    requires Newer(A, B) && Answers(A, u, s, a)
    requires a.NotHere? ==> Answers(B, u, s, b)
    ensures Answers(A + B, u, s, if a.Hit? then a else b)
  {
  }

  lemma SeekAnswers(es: seq<Entry>, u: UserKey, s: nat)
    requires StrictlySorted(es)
    ensures Answers(SetOf(es), u, s, SeekIn(es, u, s))
  {
    SeekFindsNewest(es, u, s);
  }

  // ----- levels 1 and up -----

  /** Entries of the files before `index` are too early; those after it come after a whole file. */
  lemma CandidateFile(files: Level, u: UserKey, s: nat, index: nat, j: nat, e: Entry)
    requires FilesOk(files) && LevelSorted(files)
    requires index <= |files| && forall i :: 0 <= i < index ==> Less(files[i].largest, SeekKey(u, s))
    requires j < |files| && e in files[j].entries && Candidate(e, u, s)
    ensures index <= j
    ensures index < j ==> Less(files[index].largest, e.key)
  {
    EntryInRange(files[j], e);
  }

  /** When a later file holds a candidate, the chosen file already ends inside `u`'s entries. */
  lemma ChosenFileHits(f: File, u: UserKey, s: nat, e: Entry)
    requires FileOk(f) && AtMost(SeekKey(u, s), f.largest)
    requires Candidate(e, u, s) && Less(f.largest, e.key)
    ensures SeekIn(f.entries, u, s).Hit? && SeekIn(f.entries, u, s).entry.key.seqno >= e.key.seqno
    ensures f.smallest.user <= u
  {
    var i := FirstAtOrAfter(f.entries, SeekKey(u, s));
    var n := |f.entries| - 1;
    assert i <= n;
    assert i < n ==> Less(f.entries[i].key, f.entries[n].key);
    RangeOk(f);
  }

  /** One file, found by binary search, answers for a whole sorted level. */
  lemma LevelAnswers(files: Level, u: UserKey, s: nat, index: nat)
    requires FilesOk(files) && LevelSorted(files)
    requires index <= |files| && forall i :: 0 <= i < index ==> Less(files[i].largest, SeekKey(u, s))
    requires forall i :: index <= i < |files| ==> AtMost(SeekKey(u, s), files[i].largest)
    ensures Answers(LevelSet(files), u, s,
              if index < |files| && files[index].smallest.user <= u
              then SeekIn(files[index].entries, u, s) else NotHere)
  {
    var r := if index < |files| && files[index].smallest.user <= u
             then SeekIn(files[index].entries, u, s) else NotHere;
    if index < |files| {
      assert files[index] in files;
      SeekFindsNewest(files[index].entries, u, s);
    }
    forall e | e in LevelSet(files) && Candidate(e, u, s)
      ensures r.Hit? && e.key.seqno <= r.entry.key.seqno
    {
      var j :| 0 <= j < |files| && e in files[j].entries;
      CandidateFile(files, u, s, index, j, e);
      if index < j {
        ChosenFileHits(files[index], u, s, e);
      } else {
        EntryInRange(files[index], e);
        assert e in SetOf(files[index].entries);
      }
    }
  }

  // ----- level 0 -----

  predicate NumberDescending(files: Level) {
    forall i, j :: 0 <= i < j < |files| ==> files[i].number >= files[j].number
  }

  lemma SpliceDescending(r: Level, k: nat, f: File)
    requires NumberDescending(r) && k <= |r|
    requires k > 0 ==> r[k - 1].number >= f.number
    requires k < |r| ==> r[k].number <= f.number
    ensures NumberDescending(r[..k] + [f] + r[k..])
  {
    var r' := r[..k] + [f] + r[k..];
    forall i, j | 0 <= i < j < |r'| ensures r'[i].number >= r'[j].number {
      var x := if i < k then r[i] else if i == k then f else r[i - 1];
      var y := if j < k then r[j] else if j == k then f else r[j - 1];
      assert r'[i] == x && r'[j] == y;
    }
  }

  method InsertNewestFirst(r: Level, f: File) returns (r': Level)
    requires NumberDescending(r)
    ensures NumberDescending(r') && |r'| == |r| + 1
    ensures forall g :: g in r' <==> g in r || g == f
  {
    var k := |r|;
    while k > 0 && r[k - 1].number < f.number
      invariant 0 <= k <= |r|
      invariant k < |r| ==> r[k].number < f.number
    {
      k := k - 1;
    }
    SpliceDescending(r, k, f);
    assert r == r[..k] + r[k..];
    r' := r[..k] + [f] + r[k..];
  }

  /** The newest-first sort of the level-0 candidates. */
  method SortNewestFirst(files: Level) returns (r: Level)
    ensures NumberDescending(r) && |r| == |files|
    ensures forall g :: g in r <==> g in files
  {
    r := [];
    for n := 0 to |files|
      invariant NumberDescending(r) && |r| == n
      invariant forall g :: g in r <==> g in files[..n]
    {
      assert files[..n + 1] == files[..n] + [files[n]];
      r := InsertNewestFirst(r, files[n]);
    }
    assert files[..|files|] == files;
  }

  predicate Covers(f: File, u: UserKey) {
    f.smallest.user <= u <= f.largest.user
  }

  ghost predicate NoCandidate(f: File, u: UserKey, s: nat) {
    forall e :: e in f.entries ==> !Candidate(e, u, s)
  }

  /** `tmp` holds exactly the files of the level whose range covers `u`. */
  ghost predicate Covering(files: Level, tmp: Level, u: UserKey) {
    forall f :: f in tmp <==> f in files && Covers(f, u)
  }

  lemma MissMeansNoCandidate(f: File, u: UserKey, s: nat)
    requires FileOk(f) && SeekIn(f.entries, u, s).NotHere?
    ensures NoCandidate(f, u, s)
  {
    SeekFindsNewest(f.entries, u, s);
    forall e | e in f.entries ensures !Candidate(e, u, s) {
      assert e in SetOf(f.entries);
    }
  }

  /** A candidate's level-0 file is among the covering ones. */
  lemma CandidateCovered(files: Level, tmp: Level, u: UserKey, s: nat, e: Entry) returns (j: nat)
    requires FilesOk(files) && Covering(files, tmp, u)
    requires e in LevelSet(files) && Candidate(e, u, s)
    ensures j < |tmp| && e in tmp[j].entries
  {
    var g :| g in files && e in g.entries;
    EntryInRange(g, e);
    assert g in tmp;
    j :| 0 <= j < |tmp| && tmp[j] == g;
  }

  /** A hit in one level-0 file, with no candidate in any newer one, answers for level 0. */
  lemma LevelZeroHit(files: Level, tmp: Level, u: UserKey, s: nat, n: nat)
    requires FilesOk(files) && LevelZeroByNumber(files) && Covering(files, tmp, u)
    requires NumberDescending(tmp) && n < |tmp|
    requires forall i :: 0 <= i < n ==> NoCandidate(tmp[i], u, s)
    requires SeekIn(tmp[n].entries, u, s).Hit?
    ensures Answers(LevelSet(files), u, s, SeekIn(tmp[n].entries, u, s))
  {
    var f := tmp[n];
    assert f in tmp && f in files;
    SeekFindsNewest(f.entries, u, s);
    var h := SeekIn(f.entries, u, s).entry;
    forall e | e in LevelSet(files) && Candidate(e, u, s)
      ensures e.key.seqno <= h.key.seqno
    {
      var j := CandidateCovered(files, tmp, u, s, e);
      var g := tmp[j];
      assert g in tmp && g in files;
      assert e in SetOf(g.entries) && h in SetOf(f.entries);
      if g.number < f.number {
        assert Newer(SetOf(f.entries), SetOf(g.entries));
      } else {
        assert j <= n || g == f;
      }
    }
  }

  lemma LevelZeroMiss(files: Level, tmp: Level, u: UserKey, s: nat)
    requires FilesOk(files) && Covering(files, tmp, u)
    requires forall i :: 0 <= i < |tmp| ==> NoCandidate(tmp[i], u, s)
    ensures Answers(LevelSet(files), u, s, NotHere)
  {
    forall e | e in LevelSet(files) ensures !Candidate(e, u, s) {
      if Candidate(e, u, s) {
        var j := CandidateCovered(files, tmp, u, s, e);
      }
    }
  }

  /** The level-0 files covering `u`, newest first. */
  method CoveringNewestFirst(files: Level, u: UserKey) returns (sorted: Level)
    ensures Covering(files, sorted, u) && NumberDescending(sorted)
  {
    var tmp: Level := [];
    for i := 0 to |files|
      invariant Covering(files[..i], tmp, u)
    {
      assert files[..i + 1] == files[..i] + [files[i]];
      if files[i].smallest.user <= u && u <= files[i].largest.user {
        tmp := tmp + [files[i]];
      }
    }
    assert files[..|files|] == files;
    sorted := SortNewestFirst(tmp);
  }

  method SearchLevelZero(files: Level, u: UserKey, s: nat) returns (r: Found)
    requires FilesOk(files) && LevelZeroByNumber(files)
    ensures Answers(LevelSet(files), u, s, r)
  {
    var sorted := CoveringNewestFirst(files, u);
    for i := 0 to |sorted|
      invariant forall k :: 0 <= k < i ==> NoCandidate(sorted[k], u, s)
    {
      assert sorted[i] in sorted && sorted[i] in files;
      r := SeekIn(sorted[i].entries, u, s);
      if r.Hit? {
        LevelZeroHit(files, sorted, u, s, i);
        return;
      }
      MissMeansNoCandidate(sorted[i], u, s);
    }
    LevelZeroMiss(files, sorted, u, s);
    r := NotHere;
  }

  /** One level below 0: binary search for the one file that can answer. */
  method SearchSortedLevel(files: Level, u: UserKey, s: nat) returns (r: Found)
    requires FilesOk(files) && LevelSorted(files)
    ensures Answers(LevelSet(files), u, s, r)
  {
    var index := FindFile(files, SeekKey(u, s));
    LevelAnswers(files, u, s, index);
    r := NotHere;
    if index < |files| {
      var f := files[index];
      if f.smallest.user <= u {
        r := SeekIn(f.entries, u, s);
      }
    }
  }

  // ----- a whole version, then the whole store -----

  ghost function LevelsBelow(v: Version, n: nat): set<Entry>
    requires n <= |v.levels|
  {
    set l, e | 0 <= l < n && e in LevelSet(v.levels[l]) :: e
  }

  lemma LevelsBelowStep(v: Version, n: nat)
    requires VersionOk(v) && n < NUM_LEVELS
    ensures LevelsBelow(v, n + 1) == LevelsBelow(v, n) + LevelSet(v.levels[n])
    ensures Newer(LevelsBelow(v, n), LevelSet(v.levels[n]))
  {
    forall a, b | a in LevelsBelow(v, n) && b in LevelSet(v.levels[n]) && a.key.user == b.key.user
      ensures a.key.seqno > b.key.seqno
    {
      var l :| 0 <= l < n && a in LevelSet(v.levels[l]);
      assert Newer(LevelSet(v.levels[l]), LevelSet(v.levels[n]));
    }
  }

  lemma HitCarriesDown(v: Version, n: nat, u: UserKey, s: nat, r: Found)
    requires VersionOk(v) && n <= NUM_LEVELS
    requires r.Hit? && Answers(LevelsBelow(v, n), u, s, r)
    ensures Answers(VersionSet(v), u, s, r)
    decreases NUM_LEVELS - n
  {
    if n < NUM_LEVELS {
      LevelsBelowStep(v, n);
      AnswerLayered(LevelsBelow(v, n), LevelSet(v.levels[n]), u, s, r, r);
      HitCarriesDown(v, n + 1, u, s, r);
    } else {
      assert LevelsBelow(v, n) == VersionSet(v);
    }
  }

  lemma AnswerOneMoreLevel(v: Version, n: nat, u: UserKey, s: nat, r: Found)
    requires VersionOk(v) && n < NUM_LEVELS
    requires Answers(LevelsBelow(v, n), u, s, NotHere) && Answers(LevelSet(v.levels[n]), u, s, r)
    ensures Answers(LevelsBelow(v, n + 1), u, s, r)
  {
    LevelsBelowStep(v, n);
    AnswerLayered(LevelsBelow(v, n), LevelSet(v.levels[n]), u, s, NotHere, r);
  }

  /** Levels 1 and up in order, after level 0 missed. */
  method SearchDeeperLevels(v: Version, u: UserKey, s: nat) returns (r: Found)
    requires VersionOk(v) && Answers(LevelsBelow(v, 1), u, s, NotHere)
    ensures Answers(VersionSet(v), u, s, r)
  {
    var level := 1;
    r := NotHere;
    while level < NUM_LEVELS
      invariant 1 <= level <= NUM_LEVELS
      invariant r.NotHere? && Answers(LevelsBelow(v, level), u, s, NotHere)
    {
      r := SearchSortedLevel(v.levels[level], u, s);
      AnswerOneMoreLevel(v, level, u, s, r);
      level := level + 1;
      if r.Hit? {
        HitCarriesDown(v, level, u, s, r);
        return;
      }
    }
    assert LevelsBelow(v, NUM_LEVELS) == VersionSet(v);
  }

  /** Version::Get. */
  method SearchVersion(v: Version, u: UserKey, s: nat) returns (r: Found)
    requires VersionOk(v)
    ensures Answers(VersionSet(v), u, s, r)
  {
    r := SearchLevelZero(v.levels[0], u, s);
    assert LevelsBelow(v, 1) == LevelSet(v.levels[0]);
    if r.Hit? {
      HitCarriesDown(v, 1, u, s, r);
    } else {
      r := SearchDeeperLevels(v, u, s);
    }
  }

  /** Everything a reader can reach. */
  ghost function Contents(mem: seq<Entry>, imm: Option<seq<Entry>>, v: Version): set<Entry> {
    SetOf(mem) + (if imm.Some? then SetOf(imm.value) else {}) + VersionSet(v)
  }

  ghost predicate LayersOk(mem: seq<Entry>, imm: Option<seq<Entry>>, v: Version) {
    && VersionOk(v)
    && StrictlySorted(mem) && (imm.Some? ==> StrictlySorted(imm.value))
    && Newer(SetOf(mem), VersionSet(v))
    && (imm.Some? ==> Newer(SetOf(mem), SetOf(imm.value)) && Newer(SetOf(imm.value), VersionSet(v)))
  }

  lemma AnswerReads(E: set<Entry>, u: UserKey, s: nat, r: Found)
    requires Distinct(E) && Answers(E, u, s, r)
    ensures Read(E, u, s) == if r.Hit? then Outcome(r.entry) else None
  {
    if r.Hit? {
      ReadIs(E, u, s, r.entry);
    } else {
      ReadNone(E, u, s);
    }
  }

  /** DBImpl::Get: the layered search refines the flat store. */
  method Get(mem: seq<Entry>, imm: Option<seq<Entry>>, v: Version, u: UserKey, s: nat) returns (r: Option<Blob>)
    requires LayersOk(mem, imm, v) && Distinct(Contents(mem, imm, v))
    ensures r == Read(Contents(mem, imm, v), u, s)
  {
    var E := SetOf(mem);
    var found := SeekIn(mem, u, s);
    SeekAnswers(mem, u, s);
    if imm.Some? {
      if found.NotHere? {
        found := SeekIn(imm.value, u, s);
      }
      SeekAnswers(imm.value, u, s);
      AnswerLayered(SetOf(mem), SetOf(imm.value), u, s, SeekIn(mem, u, s), SeekIn(imm.value, u, s));
      E := E + SetOf(imm.value);
    }
    ghost var shallow := found;
    if found.NotHere? {
      found := SearchVersion(v, u, s);
    }
    AnswerLayered(E, VersionSet(v), u, s, shallow, found);
    assert Contents(mem, imm, v) == E + VersionSet(v);
    AnswerReads(Contents(mem, imm, v), u, s, found);
    r := if found.Hit? then Outcome(found.entry) else None;
  }
}
