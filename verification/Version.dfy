/**
Table files, the level structure of one version, and the range queries over it.
*/
module VersionModel {
  import opened Common
  import opened Format

  const MAX_MEM_COMPACT_LEVEL: nat := 2

  /** A table file: its metadata and the sorted entries it holds. */
  datatype File = File(number: nat, size: nat, smallest: IKey, largest: IKey, entries: seq<Entry>)

  type Level = seq<File>

  datatype Version = Version(levels: seq<Level>)

  function NumbersOf(files: Level): set<nat> {
    set f | f in files :: f.number
  }

  ghost predicate FileOk(f: File) {
    && f.entries != []
    && StrictlySorted(f.entries)
    && f.smallest == f.entries[0].key
    && f.largest == f.entries[|f.entries| - 1].key
    && forall e :: e in f.entries ==> e.key.seqno <= MAX_SEQUENCE
  }

  ghost predicate FilesOk(files: Level) {
    forall f :: f in files ==> FileOk(f)
  }

  /** Levels 1 and up: files in key order, no two sharing an internal key. */
  ghost predicate LevelSorted(files: Level) {
    forall i, j :: 0 <= i < j < |files| ==> Less(files[i].largest, files[j].smallest)
  }

  ghost function LevelSet(files: Level): set<Entry> {
    set f, e | f in files && e in f.entries :: e
  }

  /** The keys of a file lie between its smallest and largest key. */
  lemma EntryInRange(f: File, e: Entry)
    requires FileOk(f) && e in f.entries
    ensures AtMost(f.smallest, e.key) && AtMost(e.key, f.largest)
    ensures f.smallest.user <= e.key.user <= f.largest.user
    ensures AtMost(f.smallest, f.largest)
  {
    var i :| 0 <= i < |f.entries| && f.entries[i] == e;
    assert i > 0 ==> Less(f.entries[0].key, f.entries[i].key);
    assert i < |f.entries| - 1 ==> Less(f.entries[i].key, f.entries[|f.entries| - 1].key);
  }

  lemma RangeOk(f: File)
    requires FileOk(f)
    ensures AtMost(f.smallest, f.largest) && f.smallest.user <= f.largest.user
    ensures f.smallest.seqno <= MAX_SEQUENCE && f.largest.seqno <= MAX_SEQUENCE
  {
    EntryInRange(f, f.entries[0]);
    assert f.entries[|f.entries| - 1] in f.entries;
  }

  // ----- overlap with a user-key range; None is an open end -----

  predicate AfterFile(lo: Option<UserKey>, f: File) {
    lo.Some? && lo.value > f.largest.user
  }

  predicate BeforeFile(hi: Option<UserKey>, f: File) {
    hi.Some? && hi.value < f.smallest.user
  }

  predicate Overlaps(f: File, lo: Option<UserKey>, hi: Option<UserKey>) {
    !AfterFile(lo, f) && !BeforeFile(hi, f)
  }

  /** The files of a level that overlap a range, in level order. */
  function Overlapping(files: Level, lo: Option<UserKey>, hi: Option<UserKey>): (r: Level)
    ensures forall f :: f in r <==> f in files && Overlaps(f, lo, hi)
    ensures |r| <= |files|
  {
    if files == [] then []
    else
      var rest := Overlapping(files[..|files| - 1], lo, hi);
      var f := files[|files| - 1];
      assert files == files[..|files| - 1] + [f];
      if Overlaps(f, lo, hi) then rest + [f] else rest
  }

  function TotalSize(files: Level): nat {
    if files == [] then 0 else files[0].size + TotalSize(files[1..])
  }

  /** Binary search for the first file whose largest key is at or after `key`. */
  method FindFile(files: Level, key: IKey) returns (index: nat)
    requires FilesOk(files) && LevelSorted(files)
    ensures index <= |files|
    ensures forall i :: 0 <= i < index ==> Less(files[i].largest, key)
    ensures forall i :: index <= i < |files| ==> AtMost(key, files[i].largest)
  {
    var left, right := 0, |files|;
    while left < right
      invariant 0 <= left <= right <= |files|
      invariant forall i :: 0 <= i < left ==> Less(files[i].largest, key)
      invariant forall i :: right <= i < |files| ==> AtMost(key, files[i].largest)
    {
      var mid := (left + right) / 2;
      if Less(files[mid].largest, key) {
        forall i | 0 <= i < mid ensures Less(files[i].largest, key) {
          RangeOk(files[mid]);
        }
        left := mid + 1;
      } else {
        forall i | mid < i < |files| ensures AtMost(key, files[i].largest) {
          RangeOk(files[i]);
        }
        right := mid;
      }
    }
    index := right;
  }

  /** Linear scan for overlapping levels, one binary search for sorted ones: the same answer. */
  method SomeFileOverlapsRange(disjointSorted: bool, files: Level,
                               lo: Option<UserKey>, hi: Option<UserKey>) returns (overlap: bool)
    requires FilesOk(files)
    requires disjointSorted ==> LevelSorted(files)
    ensures overlap <==> exists f :: f in files && Overlaps(f, lo, hi)
  {
    if !disjointSorted {
      for i := 0 to |files|
        invariant forall j :: 0 <= j < i ==> !Overlaps(files[j], lo, hi)
      {
        if !(AfterFile(lo, files[i]) || BeforeFile(hi, files[i])) {
          assert files[i] in files && Overlaps(files[i], lo, hi);
          return true;
        }
      }
      return false;
    }
    var index := 0;
    if lo.Some? {
      index := FindFile(files, IKey(lo.value, MAX_SEQUENCE, Value));
    }
    forall i | 0 <= i < |files| ensures AfterFile(lo, files[i]) <==> i < index {
      RangeOk(files[i]);
    }
    if index >= |files| {
      return false;
    }
    assert files[index] in files;
    forall i | index <= i < |files| && BeforeFile(hi, files[index]) ensures BeforeFile(hi, files[i]) {
      RangeOk(files[index]);
    }
    overlap := !BeforeFile(hi, files[index]);
  }

  // ----- GetOverlappingInputs -----

  /** A range that every file overlapping it lies inside of. */
  ghost predicate ClosedRange(files: Level, lo: Option<UserKey>, hi: Option<UserKey>) {
    forall f :: f in files && Overlaps(f, lo, hi) ==>
      (lo.Some? ==> lo.value <= f.smallest.user) && (hi.Some? ==> f.largest.user <= hi.value)
  }

  predicate RangeContains(lo: Option<UserKey>, hi: Option<UserKey>, lo': Option<UserKey>, hi': Option<UserKey>) {
    && (lo.Some? ==> lo'.Some? && lo.value <= lo'.value)
    && (hi.Some? ==> hi'.Some? && hi'.value <= hi.value)
  }

  /** How many file ends stick out of a range: the restart count of the widening loop. */
  function Sticking(files: Level, lo: Option<UserKey>, hi: Option<UserKey>): nat {
    if files == [] then 0
    else
      (if lo.Some? && files[0].smallest.user < lo.value then 1 else 0) +
      (if hi.Some? && files[0].largest.user > hi.value then 1 else 0) +
      Sticking(files[1..], lo, hi)
  }

  lemma {:induction false} WideningShrinksSticking(files: Level, lo: Option<UserKey>, hi: Option<UserKey>,
                                lo': Option<UserKey>, hi': Option<UserKey>)
    requires lo.Some? == lo'.Some? && hi.Some? == hi'.Some?
    requires RangeContains(lo', hi', lo, hi)
    ensures Sticking(files, lo', hi') <= Sticking(files, lo, hi)
    ensures (exists f :: f in files && lo.Some? && lo'.value <= f.smallest.user < lo.value) ==>
              Sticking(files, lo', hi') < Sticking(files, lo, hi)
    ensures (exists f :: f in files && hi.Some? && hi.value < f.largest.user <= hi'.value) ==>
              Sticking(files, lo', hi') < Sticking(files, lo, hi)
  {
    if files != [] {
      assert files == [files[0]] + files[1..];
      WideningShrinksSticking(files[1..], lo, hi, lo', hi');
    }
  }

  /** Every closed range around the request contains [lo, hi]. */
  ghost predicate NoWiderThanNeeded(files: Level, begin: Option<UserKey>, end: Option<UserKey>,
                                    lo: Option<UserKey>, hi: Option<UserKey>) {
    forall lo', hi' :: ClosedRange(files, lo', hi') && RangeContains(lo', hi', begin, end) ==>
      RangeContains(lo', hi', lo, hi)
  }

  /** Widening to an overlapping file that sticks out keeps the range least and makes progress. */
  lemma WidenTo(files: Level, begin: Option<UserKey>, end: Option<UserKey>,
                lo: Option<UserKey>, hi: Option<UserKey>, f: File)
    requires f in files && Overlaps(f, lo, hi)
    requires NoWiderThanNeeded(files, begin, end, lo, hi)
    ensures lo.Some? && f.smallest.user < lo.value ==>
              && NoWiderThanNeeded(files, begin, end, Some(f.smallest.user), hi)
              && Sticking(files, Some(f.smallest.user), hi) < Sticking(files, lo, hi)
    ensures hi.Some? && f.largest.user > hi.value ==>
              && NoWiderThanNeeded(files, begin, end, lo, Some(f.largest.user))
              && Sticking(files, lo, Some(f.largest.user)) < Sticking(files, lo, hi)
  {
    forall lo', hi' | ClosedRange(files, lo', hi') && RangeContains(lo', hi', begin, end)
      ensures lo'.Some? ==> lo'.value <= f.smallest.user
      ensures hi'.Some? ==> f.largest.user <= hi'.value
    {
      assert RangeContains(lo', hi', lo, hi);
      assert Overlaps(f, lo', hi');
    }
    if lo.Some? && f.smallest.user < lo.value {
      WideningShrinksSticking(files, lo, hi, Some(f.smallest.user), hi);
    }
    if hi.Some? && f.largest.user > hi.value {
      WideningShrinksSticking(files, lo, hi, lo, Some(f.largest.user));
    }
  }

  /** [lo, hi] is around the request and open where the request is open. */
  predicate WithinRequest(begin: Option<UserKey>, end: Option<UserKey>, lo: Option<UserKey>, hi: Option<UserKey>) {
    RangeContains(lo, hi, begin, end) && lo.Some? == begin.Some? && hi.Some? == end.Some?
  }

  /** The state of the scan after the first `i` files. */
  ghost predicate Scanned(files: Level, i: nat, levelZero: bool, lo: Option<UserKey>, hi: Option<UserKey>, inputs: Level)
    requires i <= |files|
  {
    inputs == Overlapping(files[..i], lo, hi) && (levelZero ==> ClosedRange(files[..i], lo, hi))
  }

  lemma ScanOne(files: Level, i: nat, levelZero: bool, lo: Option<UserKey>, hi: Option<UserKey>, inputs: Level)
    requires i < |files| && Scanned(files, i, levelZero, lo, hi, inputs)
    ensures !Overlaps(files[i], lo, hi) ==> Scanned(files, i + 1, levelZero, lo, hi, inputs)
    ensures Overlaps(files[i], lo, hi) &&
            (levelZero ==> (lo.Some? ==> lo.value <= files[i].smallest.user) && (hi.Some? ==> files[i].largest.user <= hi.value)) ==>
              Scanned(files, i + 1, levelZero, lo, hi, inputs + [files[i]])
  {
    assert files[..i + 1] == files[..i] + [files[i]];
    assert files[..i + 1][..i] == files[..i];
  }

  /**
  All files of a level overlapping [begin, end]. At level 0 files overlap each other, so
  a chosen file that sticks out widens the range and restarts the scan; the result is
  the least closed range around the request, and exactly the files overlapping it.
  */
  method GetOverlappingInputs(levelZero: bool, files: Level, begin: Option<UserKey>, end: Option<UserKey>)
      returns (inputs: Level, lo: Option<UserKey>, hi: Option<UserKey>)
    ensures inputs == Overlapping(files, lo, hi)
    ensures WithinRequest(begin, end, lo, hi)
    ensures !levelZero ==> lo == begin && hi == end
    ensures levelZero ==> ClosedRange(files, lo, hi)
    ensures NoWiderThanNeeded(files, begin, end, lo, hi)
  {
    var userBegin, userEnd := begin, end;
    var i := 0;
    inputs := [];
    while i < |files|
      invariant 0 <= i <= |files|
      invariant WithinRequest(begin, end, userBegin, userEnd) && (!levelZero ==> userBegin == begin && userEnd == end)
      invariant Scanned(files, i, levelZero, userBegin, userEnd, inputs)
      invariant NoWiderThanNeeded(files, begin, end, userBegin, userEnd)
      decreases Sticking(files, userBegin, userEnd), |files| - i
    {
      var f := files[i];
      ScanOne(files, i, levelZero, userBegin, userEnd, inputs);
      i := i + 1;
      if !AfterFile(userBegin, f) && !BeforeFile(userEnd, f) {
        inputs := inputs + [f];
        if levelZero {
          WidenTo(files, begin, end, userBegin, userEnd, f);
          if userBegin.Some? && f.smallest.user < userBegin.value {
            userBegin := Some(f.smallest.user);
            inputs, i := [], 0;
          } else if userEnd.Some? && f.largest.user > userEnd.value {
            userEnd := Some(f.largest.user);
            inputs, i := [], 0;
          }
        }
      }
    }
    assert files[..i] == files;
    lo, hi := userBegin, userEnd;
  }

  // ----- PickLevelForMemTableOutput -----

  /** No file of the first `n` levels overlaps the range. */
  ghost predicate ClearAbove(v: Version, n: nat, lo: UserKey, hi: UserKey)
    requires n <= |v.levels|
  {
    forall l, f :: 0 <= l < n && f in v.levels[l] ==> !Overlaps(f, Some(lo), Some(hi))
  }

  ghost predicate LevelsOk(v: Version) {
    && |v.levels| == NUM_LEVELS
    && (forall l :: 0 <= l < NUM_LEVELS ==> FilesOk(v.levels[l]))
    && (forall l :: 1 <= l < NUM_LEVELS ==> LevelSorted(v.levels[l]))
  }

  /** Where a flushed memtable may go: level 0, or a level it overlaps nothing down to. */
  ghost predicate FlushLevelOk(v: Version, level: nat, lo: UserKey, hi: UserKey)
    requires |v.levels| == NUM_LEVELS
  {
    && level <= MAX_MEM_COMPACT_LEVEL
    && (level > 0 ==> ClearAbove(v, level + 1, lo, hi))
  }

  method PickLevelForMemTableOutput(v: Version, lo: UserKey, hi: UserKey, maxFileSize: nat) returns (level: nat)
    requires LevelsOk(v)
    ensures FlushLevelOk(v, level, lo, hi)
    ensures level < MAX_MEM_COMPACT_LEVEL ==>
              || !ClearAbove(v, level + 2, lo, hi)
              || TotalSize(Overlapping(v.levels[level + 2], Some(lo), Some(hi))) > 10 * maxFileSize
  {
    level := 0;
    var overlap := SomeFileOverlapsRange(false, v.levels[0], Some(lo), Some(hi));
    if !overlap {
      while level < MAX_MEM_COMPACT_LEVEL
        invariant 0 <= level <= MAX_MEM_COMPACT_LEVEL
        invariant ClearAbove(v, level + 1, lo, hi)
      {
        overlap := SomeFileOverlapsRange(true, v.levels[level + 1], Some(lo), Some(hi));
        if overlap {
          break;
        }
        if level + 2 < NUM_LEVELS {
          var overlaps, _, _ := GetOverlappingInputs(false, v.levels[level + 2], Some(lo), Some(hi));
          if TotalSize(overlaps) > 10 * maxFileSize {
            break;
          }
        }
        level := level + 1;
      }
    }
  }
}
