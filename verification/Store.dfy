/**
The whole store as a state machine: writes, memtable switches, flushes, snapshots, trivial
moves and compactions, with flushes allowed while a compaction is in flight. A run keeps the
store sorted and reading like the flat store that forgets nothing exactly as long as every
compaction it installs is sound.
*/
module Store {
  import opened Common
  import opened Format
  import opened VersionModel
  import opened Lookup
  import opened Selection
  import opened CompactionModel
  import opened Builder
  import opened Install
  import opened Flush

  datatype Op = Op(user: UserKey, kind: Kind, value: Blob)

  /**
  `history` is every entry ever written; the store itself never reads it.
  `snaps` is the snapshot list, oldest first.
  */
  datatype State = State(
    mem: seq<Entry>, imm: Option<seq<Entry>>, v: Version,
    lastSequence: nat, snaps: seq<nat>, nextFile: nat, job: Option<Job>,
    history: set<Entry>)

  ghost function Stored(st: State): set<Entry> {
    Contents(st.mem, st.imm, st.v)
  }

  /** The oldest sequence number any reader may still ask for. */
  function Horizon(st: State): nat {
    if st.snaps == [] then st.lastSequence else st.snaps[0]
  }

  // ----- the invariant -----

  ghost predicate UniqueNumbers(files: Level) {
    forall f, g :: f in files && g in files && f.number == g.number ==> f == g
  }

  ghost predicate NumbersApart(files: Level, others: Level) {
    forall f, g :: f in files && g in others ==> f.number != g.number
  }

  ghost predicate NumberedOk(v: Version, nextFile: nat)
    requires |v.levels| == NUM_LEVELS
  {
    && NumbersBelow(v, nextFile)
    && (forall l :: 0 <= l < NUM_LEVELS ==> UniqueNumbers(v.levels[l]) && InFileOrder(v.levels[l]))
    && (forall l, m :: 0 <= l < m < NUM_LEVELS ==> NumbersApart(v.levels[l], v.levels[m]))
  }

  ghost predicate SnapshotsOk(snaps: seq<nat>, lastSequence: nat) {
    && (forall i, j :: 0 <= i < j < |snaps| ==> snaps[i] <= snaps[j])
    && (forall i :: 0 <= i < |snaps| ==> snaps[i] <= lastSequence)
  }

  ghost predicate HistoryOk(st: State) {
    && Distinct(st.history) && Stored(st) <= st.history
    && (forall e :: e in st.history ==> e.key.seqno <= st.lastSequence)
    && st.lastSequence < MAX_SEQUENCE
  }

  /** Every reader at or above the horizon sees what the full history says. */
  ghost predicate Faithful(stored: set<Entry>, history: set<Entry>, horizon: nat) {
    forall u, s :: horizon <= s ==> Read(stored, u, s) == Read(history, u, s)
  }

  ghost predicate JobStateOk(st: State)
    requires |st.v.levels| == NUM_LEVELS
  {
    st.job.Some? ==>
      && JobOk(st.v, st.job.value) && st.job.value.snap <= Horizon(st)
      && (!st.job.value.manual ==> Gapless(st.job.value.in0 + st.job.value.in1))
  }

  ghost predicate Inv(st: State) {
    && LayersOk(st.mem, st.imm, st.v)
    && NumberedOk(st.v, st.nextFile)
    && SnapshotsOk(st.snaps, st.lastSequence)
    && HistoryOk(st)
    && JobStateOk(st)
    && Faithful(Stored(st), st.history, Horizon(st))
  }

  // ----- the steps -----

  ghost predicate Init(st: State) {
    && st.mem == [] && st.imm == None && st.v == Version(seq(NUM_LEVELS, _ => []))
    && st.lastSequence == 0 && st.snaps == [] && st.job == None && st.history == {}
  }

  function BatchEntry(ops: seq<Op>, first: nat, i: nat): Entry
    requires i < |ops|
  {
    Entry(IKey(ops[i].user, first + i, ops[i].kind), ops[i].value)
  }

  /** The entries of a batch: consecutive sequence numbers from `first`. */
  ghost function BatchEntries(ops: seq<Op>, first: nat): set<Entry> {
    set i | 0 <= i < |ops| :: BatchEntry(ops, first, i)
  }

  ghost predicate Write(st: State, st': State, ops: seq<Op>) {
    var batch := BatchEntries(ops, st.lastSequence + 1);
    && st.lastSequence + |ops| < MAX_SEQUENCE
    && StrictlySorted(st'.mem) && SetOf(st'.mem) == SetOf(st.mem) + batch
    && st' == st.(mem := st'.mem, lastSequence := st.lastSequence + |ops|, history := st.history + batch)
  }

  ghost predicate SwitchMemtable(st: State, st': State) {
    st.imm.None? && st' == st.(mem := [], imm := Some(st.mem))
  }

  ghost predicate FlushMemtable(st: State, st': State, level: nat, g: File)
    requires |st.v.levels| == NUM_LEVELS
  {
    && st.imm.Some?
    && if st.imm.value == [] then st' == st.(imm := None)
       else
         && FileOk(g) && g.entries == st.imm.value && st.nextFile <= g.number < st'.nextFile
         && FlushLevelOk(st.v, level, g.smallest.user, g.largest.user)
         && Added(st.v, level, g, st'.v)
         && st' == st.(imm := None, v := st'.v, nextFile := st'.nextFile)
  }

  ghost predicate TakeSnapshot(st: State, st': State) {
    st' == st.(snaps := st.snaps + [st.lastSequence])
  }

  ghost predicate ReleaseSnapshot(st: State, st': State, i: nat) {
    i < |st.snaps| && st' == st.(snaps := st.snaps[..i] + st.snaps[i + 1..])
  }

  ghost predicate TrivialMove(st: State, st': State, level: nat, f: File)
    requires |st.v.levels| == NUM_LEVELS
  {
    && st.job.None? && level + 1 < NUM_LEVELS && GoodSelection(st.v, level, [f], [])
    && Replaced(st.v, level, [f], [], [f], st'.v)
    && st' == st.(v := st'.v)
  }

  /** A picked compaction has gapless inputs; a manual one need not. */
  ghost predicate StartCompaction(st: State, st': State, level: nat, in0: Level, in1: Level, manual: bool)
    requires |st.v.levels| == NUM_LEVELS
  {
    && st.job.None? && level + 1 < NUM_LEVELS && GoodSelection(st.v, level, in0, in1)
    && (!manual ==> Gapless(in0 + in1))
    && st' == st.(job := Some(Job(level, in0, in1, Horizon(st), st.v, manual)))
  }

  /** New file numbers: unused, pairwise distinct, below the next one. */
  ghost predicate FreshNumbers(v: Version, outs: Level, next: nat)
    requires |v.levels| == NUM_LEVELS
  {
    && (forall o :: o in outs ==> o.number < next)
    && (forall l :: 0 <= l < NUM_LEVELS ==> NumbersApart(v.levels[l], outs))
    && UniqueNumbers(outs)
  }

  ghost predicate InstallCompaction(st: State, st': State, outs: Level)
    requires |st.v.levels| == NUM_LEVELS
  {
    && st.job.Some? && st.job.value.level + 1 < NUM_LEVELS && |st.job.value.base.levels| == NUM_LEVELS
    && OutputsFor(st.job.value, outs)
    && st.nextFile <= st'.nextFile && FreshNumbers(st.v, outs, st'.nextFile)
    && Replaced(st.v, st.job.value.level, st.job.value.in0, st.job.value.in1, outs, st'.v)
    && st' == st.(v := st'.v, nextFile := st'.nextFile, job := None)
  }

  ghost predicate AbortCompaction(st: State, st': State) {
    st.job.Some? && st' == st.(job := None)
  }

  datatype Action =
    | DoWrite(ops: seq<Op>)
    | DoSwitch
    | DoFlush(flushLevel: nat, file: File)
    | DoSnapshot
    | DoRelease(index: nat)
    | DoMove(moveLevel: nat, moved: File)
    | DoStart(startLevel: nat, in0: Level, in1: Level, manual: bool)
    | DoInstall(outs: Level)
    | DoAbort

  ghost predicate Step(st: State, a: Action, st': State)
    requires |st.v.levels| == NUM_LEVELS
  {
    match a
    case DoWrite(ops) => Write(st, st', ops)
    case DoSwitch => SwitchMemtable(st, st')
    case DoFlush(level, g) => FlushMemtable(st, st', level, g)
    case DoSnapshot => TakeSnapshot(st, st')
    case DoRelease(i) => ReleaseSnapshot(st, st', i)
    case DoMove(level, f) => TrivialMove(st, st', level, f)
    case DoStart(level, in0, in1, manual) => StartCompaction(st, st', level, in0, in1, manual)
    case DoInstall(outs) => InstallCompaction(st, st', outs)
    case DoAbort => AbortCompaction(st, st')
  }

  // ----- writes -----

  lemma BatchIsNew(st: State, ops: seq<Op>)
    requires HistoryOk(st)
    ensures forall e :: e in BatchEntries(ops, st.lastSequence + 1) ==>
              st.lastSequence < e.key.seqno <= st.lastSequence + |ops|
    ensures Distinct(BatchEntries(ops, st.lastSequence + 1))
  {
  }

  /** Newer entries on top: a reader sees them, or else exactly what was below. */
  lemma ReadLayered(B: set<Entry>, E: set<Entry>, u: UserKey, s: nat)
    requires Distinct(B + E) && Newer(B, E)
    ensures Read(B + E, u, s) == if exists b :: b in B && Candidate(b, u, s) then Read(B, u, s) else Read(E, u, s)
  {
    assert forall e :: e in B ==> e in B + E;
    assert forall e :: e in E ==> e in B + E;
    if b :| b in B && Candidate(b, u, s) {
      var m := NewestExists(B, u, s, b);
      ReadIs(B, u, s, m);
      assert IsNewest(B + E, u, s, m);
      ReadIs(B + E, u, s, m);
    } else {
      ReadCongruence(B + E, E, u, s);
    }
  }

  lemma WriteFaithful(E: set<Entry>, H: set<Entry>, B: set<Entry>, horizon: nat, horizon': nat)
    requires Faithful(E, H, horizon) && horizon <= horizon' && E <= H
    requires Distinct(B + H) && Newer(B, H)
    ensures Faithful(B + E, B + H, horizon')
  {
    assert Distinct(B + E) by {
      assert forall e :: e in B + E ==> e in B + H;
    }
    forall u, s | horizon' <= s ensures Read(B + E, u, s) == Read(B + H, u, s) {
      ReadLayered(B, E, u, s);
      ReadLayered(B, H, u, s);
    }
  }

  lemma DistinctWithBatch(st: State, B: set<Entry>)
    requires HistoryOk(st) && Distinct(B) && forall e :: e in B ==> st.lastSequence < e.key.seqno
    ensures Distinct(B + st.history) && Newer(B, st.history)
  {
  }

  lemma WriteLayers(st: State, st': State, ops: seq<Op>)
    requires Inv(st) && Write(st, st', ops)
    ensures LayersOk(st'.mem, st'.imm, st'.v)
  {
    BatchIsNew(st, ops);
    var B := BatchEntries(ops, st.lastSequence + 1);
    assert VersionSet(st.v) <= Stored(st);
    assert st.imm.Some? ==> SetOf(st.imm.value) <= Stored(st);
    NewerUnion(SetOf(st.mem), B, VersionSet(st.v), st.lastSequence);
    if st.imm.Some? {
      NewerUnion(SetOf(st.mem), B, SetOf(st.imm.value), st.lastSequence);
    }
  }

  lemma NewerUnion(A: set<Entry>, B: set<Entry>, C: set<Entry>, last: nat)
    requires Newer(A, C) && (forall e :: e in B ==> last < e.key.seqno) && (forall e :: e in C ==> e.key.seqno <= last)
    ensures Newer(A + B, C)
  {
  }

  lemma WriteKeepsInv(st: State, st': State, ops: seq<Op>)
    requires Inv(st) && Write(st, st', ops)
    ensures Inv(st')
  {
    BatchIsNew(st, ops);
    var B := BatchEntries(ops, st.lastSequence + 1);
    DistinctWithBatch(st, B);
    WriteLayers(st, st', ops);
    assert Stored(st') == B + Stored(st);
    assert st'.history == B + st.history;
    WriteFaithful(Stored(st), st.history, B, Horizon(st), Horizon(st'));
  }

  // ----- the memtable switch, snapshots, starts and aborts -----

  lemma SwitchKeepsInv(st: State, st': State)
    requires Inv(st) && SwitchMemtable(st, st')
    ensures Inv(st')
  {
    assert Stored(st') == Stored(st);
  }

  lemma SnapshotKeepsInv(st: State, st': State)
    requires Inv(st) && TakeSnapshot(st, st')
    ensures Inv(st')
  {
    assert Horizon(st') == Horizon(st);
  }

  lemma ReleaseKeepsInv(st: State, st': State, i: nat)
    requires Inv(st) && ReleaseSnapshot(st, st', i)
    ensures Inv(st')
  {
    assert Horizon(st) <= Horizon(st');
  }

  lemma StartKeepsInv(st: State, st': State, level: nat, in0: Level, in1: Level, manual: bool)
    requires Inv(st) && StartCompaction(st, st', level, in0, in1, manual)
    ensures Inv(st')
  {
    SelectionGivesJob(st.v, level, in0, in1, Horizon(st), manual);
    StartedInv(st, st');
  }

  lemma StartedInv(st: State, st': State)
    requires Inv(st) && st' == st.(job := st'.job) && JobStateOk(st')
    ensures Inv(st')
  {
  }

  lemma StoredLevelDistinct(st: State, l: nat)
    requires |st.v.levels| == NUM_LEVELS && HistoryOk(st) && l < NUM_LEVELS
    ensures Distinct(LevelSet(st.v.levels[l])) && LevelSet(st.v.levels[l]) <= st.history
  {
    assert LevelSet(st.v.levels[l]) <= VersionSet(st.v);
    assert VersionSet(st.v) <= Stored(st);
  }

  // ----- flushes -----

  lemma AddedNumbered(v: Version, level: nat, g: File, v': Version, next: nat, next': nat)
    requires |v.levels| == NUM_LEVELS && level < NUM_LEVELS && NumberedOk(v, next) && Added(v, level, g, v')
    requires next <= g.number < next'
    ensures NumberedOk(v', next')
  {
    forall l, m | 0 <= l < m < NUM_LEVELS ensures NumbersApart(v'.levels[l], v'.levels[m]) {
      assert NumbersApart(v.levels[l], v.levels[m]);
    }
  }

  lemma FlushLayers(st: State, st': State, level: nat, g: File)
    requires Inv(st) && FlushMemtable(st, st', level, g) && st.imm.value != []
    ensures LayersOk(st'.mem, st'.imm, st'.v) && Stored(st') == Stored(st)
  {
    assert NumbersBelow(st.v, g.number);
    FlushKeepsVersionOk(st.v, level, g, st'.v);
    AddedContents(st.v, level, g, st'.v);
    GrownLayers(st.mem, st.imm.value, st.v, st'.v);
  }

  lemma GrownLayers(mem: seq<Entry>, imm: seq<Entry>, v: Version, v': Version)
    requires LayersOk(mem, Some(imm), v) && VersionOk(v') && VersionSet(v') == VersionSet(v) + SetOf(imm)
    ensures LayersOk(mem, None, v') && Contents(mem, None, v') == Contents(mem, Some(imm), v)
  {
  }

  lemma FlushKeepsInv(st: State, st': State, level: nat, g: File)
    requires Inv(st) && FlushMemtable(st, st', level, g)
    ensures Inv(st')
  {
    if st.imm.value == [] {
      assert Stored(st') == Stored(st);
    } else {
      FlushLayers(st, st', level, g);
      AddedNumbered(st.v, level, g, st'.v, st.nextFile, st'.nextFile);
      if st.job.Some? {
        FlushKeepsJob(st.v, level, g, st'.v, st.job.value);
      }
      RearrangedInv(st, st');
    }
  }

  // ----- trivial moves and compactions -----

  lemma ReplacedNumbered(v: Version, level: nat, in0: Level, in1: Level, outs: Level, v': Version, next: nat, next': nat)
    requires |v.levels| == NUM_LEVELS && level + 1 < NUM_LEVELS && NumberedOk(v, next)
    requires Replaced(v, level, in0, in1, outs, v') && next <= next' && FreshNumbers(v, outs, next')
    ensures NumberedOk(v', next')
  {
    forall l, m | 0 <= l < m < NUM_LEVELS ensures NumbersApart(v'.levels[l], v'.levels[m]) {
      assert NumbersApart(v.levels[l], v.levels[m]);
      assert NumbersApart(v.levels[l], outs) && NumbersApart(v.levels[m], outs);
    }
    forall l | 0 <= l < NUM_LEVELS ensures UniqueNumbers(v'.levels[l]) && InFileOrder(v'.levels[l]) {
      assert UniqueNumbers(v.levels[l]) && NumbersApart(v.levels[l], outs);
    }
  }

  lemma MovedNumbered(v: Version, level: nat, f: File, v': Version, next: nat)
    requires |v.levels| == NUM_LEVELS && level + 1 < NUM_LEVELS && NumberedOk(v, next)
    requires f in v.levels[level] && Replaced(v, level, [f], [], [f], v')
    ensures NumberedOk(v', next)
  {
    forall l, m | 0 <= l < m < NUM_LEVELS ensures NumbersApart(v'.levels[l], v'.levels[m]) {
      assert NumbersApart(v.levels[l], v.levels[m]);
      assert UniqueNumbers(v.levels[level]);
      if l != level + 1 && l != level {
        assert l < level ==> NumbersApart(v.levels[l], v.levels[level]);
        assert level < l ==> NumbersApart(v.levels[level], v.levels[l]);
      }
      if m != level + 1 && m != level {
        assert m < level ==> NumbersApart(v.levels[m], v.levels[level]);
        assert level < m ==> NumbersApart(v.levels[level], v.levels[m]);
      }
    }
    assert NumbersApart(v.levels[level], v.levels[level + 1]);
  }

  /** Fewer entries below keep the layers in order. */
  lemma ShrunkLayers(mem: seq<Entry>, imm: Option<seq<Entry>>, v: Version, v': Version)
    requires LayersOk(mem, imm, v) && VersionOk(v') && VersionSet(v') <= VersionSet(v)
    ensures LayersOk(mem, imm, v')
  {
  }

  /** A moved file is its own output, and fits. */
  lemma MovedFits(v: Version, level: nat, f: File)
    requires LevelsOk(v) && level + 1 < NUM_LEVELS && InputsOk(v, level, [f], [])
    requires RoomBelow(v, level, [], InputSet([f], []))
    ensures OutputsOk([f], [], [f]) && OutputsFit(v, level, [], [f])
    ensures InputSet([f], []) == LevelSet([f])
  {
    assert f in [f] && FileOk(f);
    assert InputSet([f], []) == LevelSet([f]);
    BesideFits(v, level, [], [f], InputSet([f], []));
  }

  lemma MoveContents(v: Version, level: nat, f: File, v': Version)
    requires VersionOk(v) && level + 1 < NUM_LEVELS && GoodSelection(v, level, [f], [])
    requires Replaced(v, level, [f], [], [f], v')
    ensures VersionOk(v') && VersionSet(v') == VersionSet(v)
  {
    hide InputsOk, OutputsOk, OutputsFit, RoomBelow, LevelSet, VersionSet, InputSet, GoodSelection, Replaced, OlderIsDeeper;
    SelectionGivesInputsOk(v, level, [f], []);
    MovedFits(v, level, f);
    ReplacedVersionOk(v, level, [f], [], [f], v');
    ReplacedContents(v, level, [f], [], [f], v');
    InputsInVersion(v, level, [f], []);
  }

  lemma MovedIsThere(v: Version, level: nat, f: File)
    requires |v.levels| == NUM_LEVELS && level + 1 < NUM_LEVELS && GoodSelection(v, level, [f], [])
    ensures f in v.levels[level]
  {
    assert f in [f];
  }

  /** A step that only rearranges what is stored. */
  lemma RearrangedInv(st: State, st': State)
    requires Inv(st) && st' == st.(imm := st'.imm, v := st'.v, nextFile := st'.nextFile)
    requires LayersOk(st'.mem, st'.imm, st'.v) && NumberedOk(st'.v, st'.nextFile) && JobStateOk(st')
    requires Stored(st') == Stored(st)
    ensures Inv(st')
  {
  }

  lemma SameVersionSetLayers(mem: seq<Entry>, imm: Option<seq<Entry>>, v: Version, v': Version)
    requires LayersOk(mem, imm, v) && VersionOk(v') && VersionSet(v') == VersionSet(v)
    ensures LayersOk(mem, imm, v') && Contents(mem, imm, v') == Contents(mem, imm, v)
  {
  }

  lemma MoveResult(mem: seq<Entry>, imm: Option<seq<Entry>>, v: Version, level: nat, f: File, v': Version, next: nat)
    requires LayersOk(mem, imm, v) && NumberedOk(v, next) && level + 1 < NUM_LEVELS
    requires GoodSelection(v, level, [f], []) && Replaced(v, level, [f], [], [f], v')
    ensures LayersOk(mem, imm, v') && Contents(mem, imm, v') == Contents(mem, imm, v) && NumberedOk(v', next)
  {
    MoveContents(v, level, f, v');
    MovedIsThere(v, level, f);
    MovedNumbered(v, level, f, v', next);
    SameVersionSetLayers(mem, imm, v, v');
  }

  lemma MoveKeepsInv(st: State, st': State, level: nat, f: File)
    requires Inv(st) && TrivialMove(st, st', level, f)
    ensures Inv(st')
  {
    MoveResult(st.mem, st.imm, st.v, level, f, st'.v, st.nextFile);
    RearrangedInv(st, st');
  }

  /** What no compaction touches: everything stored that is not an input. */
  ghost function Rest(st: State): set<Entry>
    requires st.job.Some?
  {
    Stored(st) - JobInputs(st.job.value)
  }

  lemma OlderRestInVersion(v: Version, job: Job, e: Entry, o: Entry)
    requires VersionOk(v) && JobOk(v, job) && JobClean(v, job) && e in JobInputs(job) && BaseLevel(job.base, job.level, e.key.user)
    requires o in VersionSet(v) && o !in JobInputs(job) && o.key.user == e.key.user
    ensures o.key.seqno > e.key.seqno
  {
    var l, g := Locate(v, o);
    NotInputNotSelected(job, l, g, o);
    NoOlderOutside(v, job, l, g, e, o);
  }

  lemma OlderRestImpossible(mem: seq<Entry>, imm: Option<seq<Entry>>, v: Version, job: Job, e: Entry, o: Entry)
    requires LayersOk(mem, imm, v) && JobOk(v, job) && JobClean(v, job)
    requires e in JobInputs(job) && e in VersionSet(v) && BaseLevel(job.base, job.level, e.key.user)
    requires o in Contents(mem, imm, v) && o !in JobInputs(job) && o.key.user == e.key.user
    ensures o.key.seqno > e.key.seqno
  {
    if o in VersionSet(v) {
      OlderRestInVersion(v, job, e, o);
    }
  }

  /** A reader at the horizon would see something the compaction uncovers. */
  ghost predicate Uncovers(st: State, horizon: nat, u: UserKey)
    requires st.job.Some? && |st.job.value.base.levels| == NUM_LEVELS
  {
    Exposed(st.job.value.base, st.job.value.level, JobInputs(st.job.value), Rest(st), st.job.value.snap, horizon, u)
  }

  /**
  An install is sound: no output reaches across a file of the output level that stays, and no
  dropped tombstone uncovers an entry left behind.
  */
  ghost predicate SoundInstall(st: State, outs: Level)
    requires |st.v.levels| == NUM_LEVELS && st.job.Some?
    requires st.job.value.level + 1 < NUM_LEVELS && |st.job.value.base.levels| == NUM_LEVELS
  {
    && OutputsFit(st.v, st.job.value.level, st.job.value.in1, outs)
    && forall u :: !Uncovers(st, Horizon(st), u)
  }

  /**
  What can be tested from file ranges: an install uncovers a key only where a chosen file of
  the output level and one left behind meet in that key.
  */
  lemma UncoversOnlyAtBoundary(st: State, horizon: nat, u: UserKey)
    requires Inv(st) && st.job.Some? && Uncovers(st, horizon, u)
    ensures exists f, g :: f in st.job.value.in1 && g in st.v.levels[st.job.value.level + 1] && g !in st.job.value.in1 &&
              f.largest.user == u && BoundaryFile(g, f.largest)
  {
    hide LayersOk, NumberedOk, JobOk, Faithful, Distinct, Exposed, Gapless, SnapshotsOk, LevelSet, BaseLevel, Contents;
    var job, I, R := st.job.value, JobInputs(st.job.value), Rest(st);
    InvLevels(st);
    JobInputsStored(st);
    StoredDistinct(st);
    assert I + R == Stored(st);
    var e, o := ExposedPair(job.base, job.level, I, R, job.snap, horizon, u);
    NotAboveVersion(st.mem, st.imm, st.v, e, o);
    var f, g := ExposedFiles(st.v, job, e, o);
    assert BoundaryFile(g, f.largest);
  }

  lemma JobInputsStored(st: State)
    requires Inv(st) && st.job.Some?
    ensures JobInputs(st.job.value) <= VersionSet(st.v) <= Stored(st)
  {
    InputsInVersion(st.v, st.job.value.level, st.job.value.in0, st.job.value.in1);
  }

  /** Nothing in the memtables is older than an entry of the version. */
  lemma NotAboveVersion(mem: seq<Entry>, imm: Option<seq<Entry>>, v: Version, e: Entry, o: Entry)
    requires LayersOk(mem, imm, v) && e in VersionSet(v) && o in Contents(mem, imm, v)
    requires o.key.user == e.key.user && o.key.seqno <= e.key.seqno
    ensures VersionOk(v) && o in VersionSet(v)
  {
  }

  lemma InstallContents(st: State, st': State, outs: Level)
    requires Inv(st) && InstallCompaction(st, st', outs)
    ensures OutputsOk(st.job.value.in0, st.job.value.in1, outs)
    ensures VersionSet(st'.v) <= VersionSet(st.v)
    ensures Stored(st') == JobKept(st.job.value) + Rest(st)
    ensures JobInputs(st.job.value) <= Stored(st)
  {
    var job := st.job.value;
    ReplacedContents(st.v, job.level, job.in0, job.in1, outs, st'.v);
    InputsInVersion(st.v, job.level, job.in0, job.in1);
    MemtablesHoldNoInputs(st);
  }

  lemma MemtablesHoldNoInputs(st: State)
    requires Inv(st) && st.job.Some?
    ensures SetOf(st.mem) !! JobInputs(st.job.value)
    ensures st.imm.Some? ==> SetOf(st.imm.value) !! JobInputs(st.job.value)
  {
    InputsInVersion(st.v, st.job.value.level, st.job.value.in0, st.job.value.in1);
    NewerDisjoint(SetOf(st.mem), VersionSet(st.v));
    if st.imm.Some? {
      NewerDisjoint(SetOf(st.imm.value), VersionSet(st.v));
    }
  }

  /**
  Installing a compaction changes no read at or above a horizon no older than its start's
  if and only if it uncovers nothing there, whatever ran since it started.
  */
  lemma InstallInvisibleIff(st: State, st': State, outs: Level, horizon: nat)
    requires Inv(st) && InstallCompaction(st, st', outs) && st.job.value.snap <= horizon
    ensures (forall u, s :: horizon <= s ==> Read(Stored(st'), u, s) == Read(Stored(st), u, s))
       <==> (forall u :: !Uncovers(st, horizon, u))
  {
    hide LayersOk, NumberedOk, JobOk, Faithful, Distinct, Exposed, OutputsFor, Replaced, FreshNumbers, Gapless, Kept, SnapshotsOk;
    var job, I, R := st.job.value, JobInputs(st.job.value), Rest(st);
    InstallContents(st, st', outs);
    StoredDistinct(st);
    assert Stored(st) == I + R;
    InvisibleIffNothingExposed(job.base, job.level, I, R, job.snap, horizon);
    assert Stored(st') == Kept(job.base, job.level, I, job.snap) + R;
    assert forall u :: Uncovers(st, horizon, u) <==> Exposed(job.base, job.level, I, R, job.snap, horizon, u);
  }

  lemma FaithfulIffSame(E: set<Entry>, E': set<Entry>, H: set<Entry>, horizon: nat)
    requires Faithful(E, H, horizon)
    ensures Faithful(E', H, horizon) <==> forall u, s :: horizon <= s ==> Read(E', u, s) == Read(E, u, s)
  {
  }

  lemma InstallLayersIff(st: State, st': State, outs: Level)
    requires Inv(st) && InstallCompaction(st, st', outs)
    ensures LayersOk(st'.mem, st'.imm, st'.v) <==> OutputsFit(st.v, st.job.value.level, st.job.value.in1, outs)
  {
    var job := st.job.value;
    InstallContents(st, st', outs);
    ReplacedVersionOk(st.v, job.level, job.in0, job.in1, outs, st'.v);
    if VersionOk(st'.v) {
      ShrunkLayers(st.mem, st.imm, st.v, st'.v);
    }
  }

  /** The invariant survives an install exactly when the install is sound. */
  lemma InstallKeepsInvIff(st: State, st': State, outs: Level)
    requires Inv(st) && InstallCompaction(st, st', outs)
    ensures Inv(st') <==> SoundInstall(st, outs)
  {
    hide LayersOk, NumberedOk, OutputsFit, OutputsOk, OutputsFor, Replaced, Faithful, JobOk, Gapless, Uncovers, FreshNumbers;
    var job := st.job.value;
    InvLevels(st);
    InstallLayersIff(st, st', outs);
    InstallContents(st, st', outs);
    ReplacedNumbered(st.v, job.level, job.in0, job.in1, outs, st'.v, st.nextFile, st'.nextFile);
    InstallInvisibleIff(st, st', outs, Horizon(st));
    FaithfulIffSame(Stored(st), Stored(st'), st.history, Horizon(st));
    InstalledHistory(st, st', outs);
  }

  lemma InvLevels(st: State)
    requires Inv(st)
    ensures |st.v.levels| == NUM_LEVELS
    ensures st.job.Some? ==> st.job.value.level + 1 < NUM_LEVELS && |st.job.value.base.levels| == NUM_LEVELS
  {
  }

  lemma InstalledHistory(st: State, st': State, outs: Level)
    requires Inv(st) && InstallCompaction(st, st', outs)
    ensures HistoryOk(st')
  {
    InstallContents(st, st', outs);
  }

  // ----- what makes every install sound -----

  ghost predicate Clean(st: State)
    requires |st.v.levels| == NUM_LEVELS
  {
    st.job.Some? && st.job.value.level + 1 < NUM_LEVELS && |st.job.value.base.levels| == NUM_LEVELS ==>
      JobClean(st.v, st.job.value)
  }

  lemma CleanUncoversNothing(st: State, u: UserKey)
    requires Inv(st) && st.job.Some? && Clean(st)
    ensures !Uncovers(st, Horizon(st), u)
  {
    var job, I, R, h := st.job.value, JobInputs(st.job.value), Rest(st), Horizon(st);
    forall e | e in I && IsNewest(I + R, u, h, e) && ObsoleteTombstone(job.base, job.level, job.snap, e)
      ensures Read(R, u, h) == None
    {
      forall o | o in R ensures !Candidate(o, u, h) {
        if o.key.user == u {
          InputsInVersion(st.v, job.level, job.in0, job.in1);
          OlderRestImpossible(st.mem, st.imm, st.v, job, e, o);
          assert o in I + R;
        }
      }
      ReadNone(R, u, h);
    }
  }

  lemma CleanInstallIsSound(st: State, st': State, outs: Level)
    requires Inv(st) && InstallCompaction(st, st', outs) && Clean(st)
    ensures SoundInstall(st, outs)
  {
    BesideFits(st.v, st.job.value.level, st.job.value.in1, outs, JobKept(st.job.value));
    forall u ensures !Uncovers(st, Horizon(st), u) {
      CleanUncoversNothing(st, u);
    }
  }

  // ----- every run -----

  lemma EmptyVersionOk(v: Version)
    requires |v.levels| == NUM_LEVELS && forall l :: 0 <= l < NUM_LEVELS ==> v.levels[l] == []
    ensures VersionOk(v) && VersionSet(v) == {} && NumberedOk(v, 0)
  {
    assert forall l :: 0 <= l < NUM_LEVELS ==> LevelSet(v.levels[l]) == {};
  }

  lemma InitInv(st: State)
    requires Init(st)
    ensures Inv(st)
  {
    EmptyVersionOk(st.v);
    assert SetOf(st.mem) == {} && Stored(st) == {};
  }

  /** Only an install can be unsound. */
  ghost predicate SoundStep(st: State, a: Action)
    requires |st.v.levels| == NUM_LEVELS
  {
    a.DoInstall? && st.job.Some? && st.job.value.level + 1 < NUM_LEVELS && |st.job.value.base.levels| == NUM_LEVELS ==>
      SoundInstall(st, a.outs)
  }

  lemma StepKeepsInvIff(st: State, a: Action, st': State)
    requires Inv(st) && Step(st, a, st')
    ensures Inv(st') <==> SoundStep(st, a)
  {
    hide SoundInstall, FlushMemtable, Write, OutputsFor, Replaced, FreshNumbers;
    match a
    case DoWrite(ops) => WriteKeepsInv(st, st', ops);
    case DoSwitch => SwitchKeepsInv(st, st');
    case DoFlush(level, g) => FlushKeepsInv(st, st', level, g);
    case DoSnapshot => SnapshotKeepsInv(st, st');
    case DoRelease(i) => ReleaseKeepsInv(st, st', i);
    case DoMove(level, f) => MoveKeepsInv(st, st', level, f);
    case DoStart(level, in0, in1, manual) => StartKeepsInv(st, st', level, in0, in1, manual);
    case DoInstall(outs) => InstallKeepsInvIff(st, st', outs);
    case DoAbort => AbortKeepsInv(st, st');
  }

  lemma AbortKeepsInv(st: State, st': State)
    requires Inv(st) && AbortCompaction(st, st')
    ensures Inv(st')
  {
  }

  /** A run: states linked by actions, from any state. */
  ghost predicate Run(states: seq<State>, actions: seq<Action>) {
    && |states| == |actions| + 1
    && (forall i :: 0 <= i < |states| ==> |states[i].v.levels| == NUM_LEVELS)
    && forall i :: 0 <= i < |actions| ==> Step(states[i], actions[i], states[i + 1])
  }

  ghost predicate SoundUpTo(states: seq<State>, actions: seq<Action>, n: nat)
    requires Run(states, actions) && n < |states|
  {
    forall k :: 0 <= k < n ==> SoundStep(states[k], actions[k])
  }

  ghost predicate InvUpTo(states: seq<State>, n: nat)
    requires n < |states|
  {
    forall k :: 0 <= k <= n ==> Inv(states[k])
  }

  /** The invariant holds all along a run exactly when every install on it is sound. */
  lemma {:induction false} RunKeepsInvIff(states: seq<State>, actions: seq<Action>, n: nat)
    requires Run(states, actions) && Inv(states[0]) && n < |states|
    ensures InvUpTo(states, n) <==> SoundUpTo(states, actions, n)
  {
    hide Inv, Step, SoundStep;
    if n > 0 {
      RunKeepsInvIff(states, actions, n - 1);
      assert InvUpTo(states, n) <==> InvUpTo(states, n - 1) && Inv(states[n]);
      assert SoundUpTo(states, actions, n) <==> SoundUpTo(states, actions, n - 1) && SoundStep(states[n - 1], actions[n - 1]);
      if Inv(states[n - 1]) {
        StepKeepsInvIff(states[n - 1], actions[n - 1], states[n]);
      }
    }
  }

  // ----- runs that stay clear -----

  /**
  A start leaves no boundary file of the next level behind, and no flush lands between the
  entries a manual compaction will write.
  */
  ghost predicate ClearStep(st: State, a: Action)
    requires |st.v.levels| == NUM_LEVELS
  {
    && (a.DoStart? && a.startLevel + 1 < NUM_LEVELS ==> CleanCut(st.v, a.startLevel, a.in1))
    && (a.DoFlush? && st.job.Some? && st.job.value.manual && |st.job.value.base.levels| == NUM_LEVELS ==>
          FlushClear(st.job.value, a.flushLevel, a.file))
  }

  lemma FlushKeepsClean(st: State, st': State, level: nat, g: File)
    requires Inv(st) && FlushMemtable(st, st', level, g) && Clean(st) && ClearStep(st, DoFlush(level, g))
    ensures Clean(st')
  {
    if st.imm.value != [] && st.job.Some? {
      var job := st.job.value;
      assert NumbersBelow(st.v, g.number);
      if !job.manual {
        GaplessFlushClear(st.v, level, g, job);
      }
      FlushKeepsJobCleanIff(st.v, level, g, st'.v, job);
    }
  }

  lemma StartIsClean(st: State, st': State, level: nat, in0: Level, in1: Level, manual: bool)
    requires Inv(st) && StartCompaction(st, st', level, in0, in1, manual) && CleanCut(st.v, level, in1)
    ensures Clean(st')
  {
    StoredLevelDistinct(st, level + 1);
    CleanSelectionGivesCleanJob(st.v, level, in0, in1, Horizon(st), manual);
  }

  lemma StepKeepsClean(st: State, a: Action, st': State)
    requires Inv(st) && Clean(st) && Step(st, a, st') && ClearStep(st, a)
    ensures |st'.v.levels| == NUM_LEVELS && Clean(st') && SoundStep(st, a)
  {
    hide Inv, JobClean, SoundInstall;
    InvLevels(st);
    if a.DoInstall? {
      CleanInstallIsSound(st, st', a.outs);
    } else if a.DoFlush? {
      FlushKeepsClean(st, st', a.flushLevel, a.file);
    } else if a.DoStart? {
      StartIsClean(st, st', a.startLevel, a.in0, a.in1, a.manual);
    }
    StepKeepsLevels(st, a, st');
  }

  lemma StepKeepsLevels(st: State, a: Action, st': State)
    requires |st.v.levels| == NUM_LEVELS && Step(st, a, st')
    ensures |st'.v.levels| == NUM_LEVELS
  {
  }

  /** Clear starts and flushes make every install of a run sound. */
  lemma {:induction false} ClearRunIsSound(states: seq<State>, actions: seq<Action>, n: nat)
    requires Run(states, actions) && Inv(states[0]) && Clean(states[0]) && n < |states|
    requires forall k :: 0 <= k < n ==> ClearStep(states[k], actions[k])
    ensures SoundUpTo(states, actions, n) && InvUpTo(states, n) && Clean(states[n])
  {
    hide Inv, Clean, ClearStep, Step, SoundStep;
    if n > 0 {
      ClearRunIsSound(states, actions, n - 1);
      StepKeepsClean(states[n - 1], actions[n - 1], states[n]);
      RunKeepsInvIff(states, actions, n);
    }
  }

  // ----- the edits behind the steps -----

  /** DBImpl::InstallCompactionResults: the edit deletes the inputs and adds the outputs one level down. */
  method InstallEdit(v: Version, level: nat, in0: Level, in1: Level, outs: Level, ghost next: nat) returns (v': Version)
    requires |v.levels| == NUM_LEVELS && level + 1 < NUM_LEVELS && NumberedOk(v, next)
    requires (forall f :: f in in0 ==> f in v.levels[level]) && (forall f :: f in in1 ==> f in v.levels[level + 1])
    requires InFileOrder(outs) && NumbersApart(v.levels[level + 1], outs)
    ensures Replaced(v, level, in0, in1, outs, v')
  {
    var none: set<nat> := {};
    var deleted := seq(NUM_LEVELS, l => if l == level then NumbersOf(in0) else if l == level + 1 then NumbersOf(in1) else none);
    var added := seq(NUM_LEVELS, l => if l == level + 1 then outs else []);
    v' := ApplyEdit(v, deleted, added);
    SavedIsRebuilt(v.levels[level], in0, [], NumbersOf(in0), v'.levels[level]);
    SavedIsRebuilt(v.levels[level + 1], in1, outs, NumbersOf(in1), v'.levels[level + 1]);
    forall l | 0 <= l < NUM_LEVELS && l != level && l != level + 1 ensures v'.levels[l] == v.levels[l] {
      assert SavedLevel(v.levels[l], added[l], deleted[l], v'.levels[l]);
    }
  }

  /** DBImpl::WriteLevel0Table: the edit adds the flushed file at the chosen level. */
  method FlushEdit(v: Version, level: nat, g: File, ghost next: nat) returns (v': Version)
    requires |v.levels| == NUM_LEVELS && level < NUM_LEVELS && NumberedOk(v, next) && next <= g.number
    ensures Added(v, level, g, v')
  {
    var none: set<nat> := {};
    var deleted := seq(NUM_LEVELS, _ => none);
    var added := seq(NUM_LEVELS, l => if l == level then [g] else []);
    v' := ApplyEdit(v, deleted, added);
    forall l | 0 <= l < NUM_LEVELS && l != level ensures v'.levels[l] == v.levels[l] {
      assert SavedLevel(v.levels[l], added[l], deleted[l], v'.levels[l]);
    }
    assert SavedLevel(v.levels[level], [g], {}, v'.levels[level]);
  }

  // ----- what a reader gets -----

  lemma SnapshotAboveHorizon(st: State, q: nat)
    requires SnapshotsOk(st.snaps, st.lastSequence) && q in st.snaps
    ensures Horizon(st) <= q <= st.lastSequence
  {
  }

  /**
  In every state of every run whose installs so far were sound, the store reads like the
  full history at any live snapshot or above.
  */
  lemma EveryRunReadsHistory(states: seq<State>, actions: seq<Action>, i: nat, u: UserKey, s: nat)
    requires Run(states, actions) && Init(states[0]) && i < |states| && SoundUpTo(states, actions, i)
    requires s in states[i].snaps || states[i].lastSequence <= s
    ensures Read(Stored(states[i]), u, s) == Read(states[i].history, u, s)
  {
    InitInv(states[0]);
    RunKeepsInvIff(states, actions, i);
    var st := states[i];
    if s in st.snaps {
      SnapshotAboveHorizon(st, s);
    }
    assert Horizon(st) <= s;
  }

  /** DBImpl::Get on a state of the machine. */
  method GetAt(st: State, u: UserKey, s: nat) returns (r: Option<Blob>)
    requires Inv(st) && Horizon(st) <= s
    ensures r == Read(st.history, u, s)
  {
    StoredDistinct(st);
    r := Get(st.mem, st.imm, st.v, u, s);
  }

  lemma StoredDistinct(st: State)
    requires HistoryOk(st)
    ensures Distinct(Stored(st))
  {
  }

  /** What a step adds to the history is numbered past every earlier write. */
  ghost predicate HistoryGrew(st: State, st': State) {
    && st.lastSequence <= st'.lastSequence && st.history <= st'.history
    && forall e :: e in st'.history && e !in st.history ==> st.lastSequence < e.key.seqno
  }

  lemma StepGrowsHistory(st: State, a: Action, st': State)
    requires Inv(st) && Step(st, a, st')
    ensures HistoryGrew(st, st')
  {
    if a.DoWrite? {
      BatchIsNew(st, a.ops);
    }
  }

  lemma {:induction false} RunGrowsHistory(states: seq<State>, actions: seq<Action>, i: nat, j: nat)
    requires Run(states, actions) && i <= j < |states| && InvUpTo(states, j)
    ensures HistoryGrew(states[i], states[j])
  {
    hide Inv, Step;
    if i < j {
      RunGrowsHistory(states, actions, i, j - 1);
      StepGrowsHistory(states[j - 1], actions[j - 1], states[j]);
    }
  }

  /**
  Snapshot isolation: while a snapshot taken at or before state i is still held at state j,
  reads through it at j give what the history at i says, whatever ran in between.
  */
  lemma SnapshotIsolation(states: seq<State>, actions: seq<Action>, i: nat, j: nat, u: UserKey, q: nat)
    requires Run(states, actions) && Init(states[0]) && i <= j < |states| && SoundUpTo(states, actions, j)
    requires q <= states[i].lastSequence && q in states[j].snaps
    ensures Read(Stored(states[j]), u, q) == Read(states[i].history, u, q)
  {
    InitInv(states[0]);
    RunKeepsInvIff(states, actions, j);
    RunGrowsHistory(states, actions, i, j);
    SnapshotAboveHorizon(states[j], q);
    OldReadsStay(states[i], states[j], u, q);
  }

  lemma OldReadsStay(st: State, st': State, u: UserKey, q: nat)
    requires HistoryOk(st) && HistoryOk(st') && HistoryGrew(st, st') && q <= st.lastSequence
    ensures Read(st'.history, u, q) == Read(st.history, u, q)
  {
    ReadCongruence(st'.history, st.history, u, q);
  }

  /**
  A reader takes references to the memtables and the version, then reads without the lock.
  The memtable may have grown since; the answer is still the one of the moment of capture.
  */
  lemma CapturedRead(st: State, mem: seq<Entry>, added: set<Entry>, u: UserKey, s: nat)
    requires Inv(st) && Horizon(st) <= s <= st.lastSequence
    requires StrictlySorted(mem) && SetOf(mem) == SetOf(st.mem) + added && Distinct(added)
    requires forall e :: e in added ==> st.lastSequence < e.key.seqno
    ensures LayersOk(mem, st.imm, st.v) && Distinct(Contents(mem, st.imm, st.v))
    ensures Read(Contents(mem, st.imm, st.v), u, s) == Read(st.history, u, s)
  {
    NewerUnion(SetOf(st.mem), added, VersionSet(st.v), st.lastSequence);
    if st.imm.Some? {
      NewerUnion(SetOf(st.mem), added, SetOf(st.imm.value), st.lastSequence);
    }
    DistinctWithBatch(st, added);
    assert Contents(mem, st.imm, st.v) == Stored(st) + added;
    assert Distinct(Stored(st) + added) by {
      assert forall e :: e in Stored(st) + added ==> e in added + st.history;
    }
    StoredDistinct(st);
    ReadCongruence(Contents(mem, st.imm, st.v), Stored(st), u, s);
  }
}
