/**
Which files exist, who needs them, and what RemoveObsoleteFiles deletes: the foreground (writes,
memtable switches, readers taking and dropping versions) interleaved with the one background
worker (memtable flushes, compactions with flushes inside them, garbage collection that
unlocks while it deletes).
*/
module FileGc {
  import opened Common

  /** A committed update, told apart by its sequence number. */
  type Update = nat
  type Files = set<nat>

  /** A flush: its table is being written, or is written and waits for the edit that sets the log number. */
  datatype Flush = Building(number: nat, base: Files) | Ready(number: nat, log: nat)

  /** A compaction: the version it reads, its inputs, the outputs it has written, and whether they are installed. */
  datatype Job = Job(version: Files, inputs: Files, outputs: Files, installed: bool)

  datatype Gc = Gc(tables: Files, logs: Files)

  /**
  `tables` and `logs` are the files on disk; `held` the versions readers hold, by holder.
  `logged` and `contents` are what each log file and each table contains; `mem` and `imm` what is
  only in memory. `written` records every update ever made and `discarded` those a compaction
  dropped as obsolete; no step reads either.
  */
  datatype State = State(
    tables: Files, logs: Files, nextFile: nat,
    current: Files, held: map<nat, Files>, pending: Files,
    logNumber: nat, logFile: nat, immLog: Option<nat>, mem: set<Update>, imm: set<Update>, logged: map<nat, set<Update>>,
    flush: Option<Flush>, job: Option<Job>, gc: Option<Gc>, bgError: bool,
    contents: map<nat, set<Update>>, written: set<Update>, discarded: set<Update>)

  /** The updates in any of the tables. */
  ghost function UpdatesIn(contents: map<nat, set<Update>>, files: Files): set<Update> {
    set n, u | n in files && n in contents && u in contents[n] :: u
  }

  // ----- what is needed -----

  /** The tables of every version in the list: the current one and all that are still referenced. */
  ghost predicate InVersion(st: State, n: nat) {
    || n in st.current
    || (exists r :: r in st.held && n in st.held[r])
    || (st.job.Some? && n in st.job.value.version)
    || (st.flush.Some? && st.flush.value.Building? && n in st.flush.value.base)
  }

  /** Tables that no one may delete: those of a version, and finished or unfinished outputs. */
  ghost predicate Needed(st: State, n: nat) {
    || InVersion(st, n)
    || (st.job.Some? && n in st.job.value.outputs)
    || (st.flush.Some? && n == st.flush.value.number)
  }

  // ----- the steps -----

  ghost predicate Init(st: State) {
    && st.tables == {} && st.current == {} && st.held == map[] && st.pending == {}
    && st.logFile == st.logNumber < st.nextFile && st.logs == {st.logFile} && st.logged == map[st.logFile := {}]
    && st.mem == {} && st.imm == {} && st.immLog == None
    && st.flush == None && st.job == None && st.gc == None && !st.bgError
    && st.contents == map[] && st.written == {} && st.discarded == {}
  }

  ghost predicate Write(st: State, st': State, updates: set<Update>) {
    && st.logFile in st.logged
    && st' == st.(mem := st.mem + updates, written := st.written + updates,
                  logged := st.logged[st.logFile := st.logged[st.logFile] + updates])
  }

  ghost predicate SwitchMemtable(st: State, st': State) {
    && st.immLog.None?
    && st' == st.(logs := st.logs + {st.nextFile}, logged := st.logged[st.nextFile := {}], nextFile := st.nextFile + 1,
                  immLog := Some(st.logFile), imm := st.mem, mem := {}, logFile := st.nextFile)
  }

  ghost predicate Hold(st: State, st': State, r: nat) {
    r !in st.held && st' == st.(held := st.held[r := st.current])
  }

  ghost predicate Drop(st: State, st': State, r: nat) {
    r in st.held && st' == st.(held := st.held - {r})
  }

  ghost predicate StartFlush(st: State, st': State) {
    && st.immLog.Some? && st.flush.None? && st.gc.None?
    && st' == st.(flush := Some(Building(st.nextFile, st.current)), pending := st.pending + {st.nextFile}, nextFile := st.nextFile + 1)
  }

  /** The table, with all of the memtable, is on disk; its number leaves the pending set before the edit is applied. */
  ghost predicate BuiltFlush(st: State, st': State) {
    && st.flush.Some? && st.flush.value.Building?
    && var n := st.flush.value.number;
       st' == st.(tables := st.tables + {n}, pending := st.pending - {n}, contents := st.contents[n := st.imm],
                  flush := Some(Ready(n, st.logFile)))
  }

  /** LogAndApply: the table joins the current version unless it is empty; earlier logs are no longer needed. */
  ghost predicate CommitFlush(st: State, st': State, empty: bool) {
    && st.flush.Some? && st.flush.value.Ready? && empty == (st.imm == {})
    && st' == st.(current := if empty then st.current else st.current + {st.flush.value.number}, logNumber := st.flush.value.log,
                  immLog := None, imm := {}, flush := None)
  }

  ghost predicate FailFlush(st: State, st': State) {
    && st.flush.Some?
    && st' == st.(flush := None, pending := st.pending - {st.flush.value.number}, bgError := true)
  }

  ghost predicate StartJob(st: State, st': State, inputs: Files) {
    && st.job.None? && st.flush.None? && st.gc.None? && inputs <= st.current
    && st' == st.(job := Some(Job(st.current, inputs, {}, false)))
  }

  /** One more output, with part of what the inputs hold. */
  ghost predicate OpenOutput(st: State, st': State, kept: set<Update>) {
    && st.job.Some? && !st.job.value.installed && st.flush.None? && st.gc.None?
    && kept <= UpdatesIn(st.contents, st.job.value.inputs)
    && var n := st.nextFile;
       st' == st.(pending := st.pending + {n}, tables := st.tables + {n}, nextFile := n + 1, contents := st.contents[n := kept],
                  job := Some(st.job.value.(outputs := st.job.value.outputs + {n})))
  }

  /** Once every input entry is in an output or was dropped, the outputs take the place of the inputs. */
  ghost predicate InstallJob(st: State, st': State) {
    && st.job.Some? && !st.job.value.installed && st.flush.None? && st.gc.None?
    && var dropped := UpdatesIn(st.contents, st.job.value.inputs) - UpdatesIn(st.contents, st.job.value.outputs);
       st' == st.(current := (st.current - st.job.value.inputs) + st.job.value.outputs,
                  discarded := st.discarded + dropped, job := Some(st.job.value.(installed := true)))
  }

  ghost predicate FailJob(st: State, st': State) {
    st.job.Some? && st.flush.None? && st.gc.None? && st' == st.(bgError := true)
  }

  /** CleanupCompaction and ReleaseInputs. */
  ghost predicate EndJob(st: State, st': State) {
    && st.job.Some? && st.flush.None? && st.gc.None?
    && st' == st.(job := None, pending := st.pending - st.job.value.outputs)
  }

  /** What RemoveObsoleteFiles marks: tables neither pending nor in a version, logs below the log number. */
  ghost function Garbage(st: State): Gc {
    Gc(set n | n in st.tables && n !in st.pending && !InVersion(st, n), set l | l in st.logs && l < st.logNumber)
  }

  /** RemoveObsoleteFiles decides under the mutex what to delete. */
  ghost predicate StartGc(st: State, st': State) {
    && st.flush.None? && st.gc.None? && !st.bgError
    && st' == st.(gc := Some(Garbage(st)))
  }

  /** Deleting without the mutex, one file at a time. */
  ghost predicate DeleteTable(st: State, st': State, n: nat) {
    st.gc.Some? && n in st.gc.value.tables && st' == st.(tables := st.tables - {n})
  }

  ghost predicate DeleteLog(st: State, st': State, l: nat) {
    st.gc.Some? && l in st.gc.value.logs && st' == st.(logs := st.logs - {l})
  }

  ghost predicate EndGc(st: State, st': State) {
    st.gc.Some? && st' == st.(gc := None)
  }

  datatype Action =
    | DoWrite(updates: set<Update>) | DoSwitch | DoHold(r: nat) | DoDrop(r: nat)
    | DoStartFlush | DoBuilt | DoCommitFlush(empty: bool) | DoFailFlush
    | DoStartJob(inputs: Files) | DoOpen(kept: set<Update>) | DoInstall | DoFailJob | DoEndJob
    | DoStartGc | DoDeleteTable(n: nat) | DoDeleteLog(l: nat) | DoEndGc

  ghost predicate Step(st: State, st': State, a: Action) {
    match a
    case DoWrite(u) => Write(st, st', u)
    case DoSwitch => SwitchMemtable(st, st')
    case DoHold(r) => Hold(st, st', r)
    case DoDrop(r) => Drop(st, st', r)
    case DoStartFlush => StartFlush(st, st')
    case DoBuilt => BuiltFlush(st, st')
    case DoCommitFlush(empty) => CommitFlush(st, st', empty)
    case DoFailFlush => FailFlush(st, st')
    case DoStartJob(inputs) => StartJob(st, st', inputs)
    case DoOpen(kept) => OpenOutput(st, st', kept)
    case DoInstall => InstallJob(st, st')
    case DoFailJob => FailJob(st, st')
    case DoEndJob => EndJob(st, st')
    case DoStartGc => StartGc(st, st')
    case DoDeleteTable(n) => DeleteTable(st, st', n)
    case DoDeleteLog(l) => DeleteLog(st, st', l)
    case DoEndGc => EndGc(st, st')
  }

  // ----- the invariant -----

  ghost predicate TablesOk(st: State) {
    && (forall n :: InVersion(st, n) ==> n in st.tables)
    && (forall n: nat :: n in st.tables || n in st.pending || Needed(st, n) ==> n < st.nextFile)
    && (forall n :: n in st.pending ==>
          (st.job.Some? && n in st.job.value.outputs) || (st.flush.Some? && st.flush.value.Building? && n == st.flush.value.number))
    && (st.job.Some? ==> st.job.value.outputs <= st.pending && st.job.value.outputs <= st.tables)
    && (st.flush.Some? && st.flush.value.Building? ==> st.flush.value.number in st.pending)
    && (st.flush.Some? && st.flush.value.Ready? ==> st.flush.value.number in st.tables && st.flush.value.number !in st.pending)
    && (st.flush.Some? ==> !InVersion(st, st.flush.value.number))
    && (st.job.Some? && st.flush.Some? ==> st.flush.value.number !in st.job.value.outputs)
  }

  /** Nothing marked for deletion is needed, or can become needed. */
  ghost predicate GcOk(st: State) {
    st.gc.Some? ==>
      && st.flush.None?
      && (forall n :: n in st.gc.value.tables ==> n < st.nextFile && !Needed(st, n))
      && (forall l :: l in st.gc.value.logs ==> l < st.logNumber)
  }

  /** What is only in memory is in a log file that is on disk and not below the log number. */
  ghost predicate LogsOk(st: State) {
    && st.logFile in st.logs && st.logNumber <= st.logFile < st.nextFile
    && st.logFile in st.logged && st.mem <= st.logged[st.logFile]
    && (st.immLog.None? ==> st.imm == {})
    && (st.immLog.Some? ==>
          && st.immLog.value in st.logs && st.logNumber <= st.immLog.value < st.logFile
          && st.immLog.value in st.logged && st.imm <= st.logged[st.immLog.value])
    && (st.flush.Some? ==> st.immLog.Some? && (st.flush.value.Ready? ==> st.flush.value.log == st.logFile))
  }

  /** A job reads its inputs from the version it holds; until it is installed they are current and its outputs in no version. */
  ghost predicate JobOk(st: State) {
    && (st.job.Some? ==> st.job.value.inputs <= st.job.value.version)
    && (st.job.Some? && !st.job.value.installed ==>
          && st.job.value.inputs <= st.current
          && forall n :: n in st.job.value.outputs ==> !InVersion(st, n))
  }

  /** No update is anywhere but in memory, in a current table, or discarded. */
  ghost predicate DataOk(st: State) {
    && (forall u :: u in st.written ==> u in st.mem || u in st.imm || u in UpdatesIn(st.contents, st.current) || u in st.discarded)
    && (st.flush.Some? && st.flush.value.Ready? ==>
          st.flush.value.number in st.contents && st.contents[st.flush.value.number] == st.imm)
  }

  ghost predicate Inv(st: State) {
    TablesOk(st) && GcOk(st) && LogsOk(st) && JobOk(st) && DataOk(st)
  }

  lemma StepKeepsTables(st: State, st': State, a: Action)
    requires Inv(st) && Step(st, st', a)
    ensures TablesOk(st')
  {
    hide LogsOk, DataOk, UpdatesIn;
    forall n | InVersion(st', n) ensures n in st'.tables {
      assert a.DoHold? ==> forall r :: r in st'.held ==> r == a.r || (r in st.held && st'.held[r] == st.held[r]);
      assert Needed(st, n);
      assert a.DoDeleteTable? ==> n != a.n;
    }
  }

  lemma StepKeepsGc(st: State, st': State, a: Action)
    requires Inv(st) && Step(st, st', a)
    ensures GcOk(st')
  {
    hide LogsOk, DataOk, UpdatesIn;
  }

  lemma StepKeepsLogs(st: State, st': State, a: Action)
    requires Inv(st) && Step(st, st', a)
    ensures LogsOk(st')
  {
    hide TablesOk, InVersion, Needed, DataOk, UpdatesIn, JobOk;
  }

  lemma StepKeepsJob(st: State, st': State, a: Action)
    requires Inv(st) && Step(st, st', a)
    ensures JobOk(st')
  {
    hide LogsOk, DataOk, UpdatesIn, GcOk;
    if st'.job.Some? && !st'.job.value.installed {
      forall n | n in st'.job.value.outputs ensures !InVersion(st', n) {
        assert InVersion(st, n) ==> Needed(st, n);
        assert a.DoHold? ==> forall r :: r in st'.held ==> r == a.r || (r in st.held && st'.held[r] == st.held[r]);
      }
    }
  }

  // ----- where the updates are -----

  lemma SameTables(c: map<nat, set<Update>>, n: nat, us: set<Update>, files: Files)
    requires n !in files
    ensures UpdatesIn(c[n := us], files) == UpdatesIn(c, files)
  {
    assert forall m :: m in files ==> (m in c[n := us] <==> m in c) && (m in c ==> c[n := us][m] == c[m]);
  }

  lemma MoreTables(c: map<nat, set<Update>>, files: Files, n: nat)
    ensures UpdatesIn(c, files) <= UpdatesIn(c, files + {n})
    ensures n in c ==> c[n] <= UpdatesIn(c, files + {n})
  {
  }

  lemma ReplacedTables(c: map<nat, set<Update>>, files: Files, minus: Files, plus: Files)
    ensures UpdatesIn(c, files) <= UpdatesIn(c, (files - minus) + plus) + (UpdatesIn(c, minus) - UpdatesIn(c, plus))
  {
    forall u | u in UpdatesIn(c, files) && u !in UpdatesIn(c, minus) - UpdatesIn(c, plus)
      ensures u in UpdatesIn(c, (files - minus) + plus)
    {
      if u in UpdatesIn(c, plus) {
        var n :| n in plus && n in c && u in c[n];
        assert n in (files - minus) + plus;
      } else {
        var n :| n in files && n in c && u in c[n];
        assert n in (files - minus) + plus;
      }
    }
  }

  /** A table number not handed out yet is in no version. */
  lemma FreshNumber(st: State)
    requires TablesOk(st)
    ensures st.nextFile !in st.current
    ensures st.flush.Some? ==> st.flush.value.number !in st.current
  {
    assert Needed(st, st.nextFile) ==> st.nextFile < st.nextFile;
    if st.flush.Some? {
      assert !InVersion(st, st.flush.value.number);
    }
  }

  lemma StepKeepsData(st: State, st': State, a: Action)
    requires Inv(st) && Step(st, st', a)
    ensures DataOk(st')
  {
    hide TablesOk, GcOk, JobOk, InVersion, Needed, UpdatesIn, LogsOk;
    FreshNumber(st);
    ImmEmpty(st);
    if a.DoBuilt? {
      SameTables(st.contents, st.flush.value.number, st.imm, st.current);
    } else if a.DoOpen? {
      SameTables(st.contents, st.nextFile, a.kept, st.current);
    } else if a.DoCommitFlush? && !a.empty {
      MoreTables(st.contents, st.current, st.flush.value.number);
    } else if a.DoInstall? {
      ReplacedTables(st.contents, st.current, st.job.value.inputs, st.job.value.outputs);
    }
  }

  lemma ImmEmpty(st: State)
    requires LogsOk(st)
    ensures st.immLog.None? ==> st.imm == {} && st.flush.None?
  {
  }

  lemma StepKeepsInv(st: State, st': State, a: Action)
    requires Inv(st) && Step(st, st', a)
    ensures Inv(st')
  {
    hide TablesOk, GcOk, LogsOk, JobOk, DataOk, Step;
    StepKeepsJob(st, st', a);
    StepKeepsData(st, st', a);
    StepKeepsTables(st, st', a);
    StepKeepsGc(st, st', a);
    StepKeepsLogs(st, st', a);
  }

  // ----- every run -----

  ghost predicate IsRun(run: seq<State>, acts: seq<Action>) {
    && |run| == |acts| + 1 && Init(run[0])
    && forall i :: 0 <= i < |acts| ==> Step(run[i], run[i + 1], acts[i])
  }

  lemma {:induction false} RunKeepsInv(run: seq<State>, acts: seq<Action>, i: nat)
    requires IsRun(run, acts) && i < |run|
    ensures Inv(run[i])
  {
    if i > 0 {
      hide Inv, Step;
      RunKeepsInv(run, acts, i - 1);
      StepKeepsInv(run[i - 1], run[i], acts[i - 1]);
    }
  }

  /** At every moment of every run, the tables of every version still referenced are on disk. */
  lemma NoReferencedTableIsDeleted(run: seq<State>, acts: seq<Action>, i: nat, n: nat)
    requires IsRun(run, acts) && i < |run|
    ensures InVersion(run[i], n) ==> n in run[i].tables
    ensures i < |acts| && acts[i].DoDeleteTable? && n == acts[i].n ==> !Needed(run[i], n)
  {
    RunKeepsInv(run, acts, i);
    assert i < |acts| ==> Step(run[i], run[i + 1], acts[i]);
  }

  /** A compaction's outputs and a flushed table stay on disk from the moment they are written until they are installed. */
  lemma NoOutputIsDeleted(run: seq<State>, acts: seq<Action>, i: nat)
    requires IsRun(run, acts) && i < |run|
    ensures run[i].job.Some? ==> run[i].job.value.outputs <= run[i].tables
    ensures run[i].flush.Some? && run[i].flush.value.Ready? ==> run[i].flush.value.number in run[i].tables
  {
    RunKeepsInv(run, acts, i);
  }

  /** From the moment a reader takes the current version until it drops it, all the version's tables are on disk. */
  lemma {:induction false} ReaderKeepsItsTables(run: seq<State>, acts: seq<Action>, i: nat, j: nat, r: nat)
    requires IsRun(run, acts) && i < j < |run| && acts[i] == DoHold(r)
    requires forall k :: i < k < j ==> acts[k] != DoDrop(r)
    ensures r in run[j].held && run[j].held[r] == run[i].current && run[i].current <= run[j].tables
  {
    hide Inv;
    if i + 1 < j {
      ReaderKeepsItsTables(run, acts, i, j - 1, r);
      assert acts[j - 1] != DoDrop(r);
    }
    assert Step(run[j - 1], run[j], acts[j - 1]);
    forall n | n in run[i].current ensures n in run[j].tables {
      assert InVersion(run[j], n);
      NoReferencedTableIsDeleted(run, acts, j, n);
    }
  }

  /** A compaction's inputs are on disk for as long as it is open, also after its outputs are installed. */
  lemma InputsStay(run: seq<State>, acts: seq<Action>, i: nat)
    requires IsRun(run, acts) && i < |run| && run[i].job.Some?
    ensures run[i].job.value.inputs <= run[i].tables
  {
    RunKeepsInv(run, acts, i);
    assert forall n :: n in run[i].job.value.version ==> InVersion(run[i], n);
  }

  /** Committing a flush leaves only the current log needed: every older one is garbage. */
  lemma CommitFreesLogs(run: seq<State>, acts: seq<Action>, i: nat, l: nat)
    requires IsRun(run, acts) && i < |acts| && acts[i].DoCommitFlush?
    ensures run[i + 1].imm == {} && run[i + 1].logNumber == run[i + 1].logFile
    ensures l in run[i + 1].logs && l < run[i + 1].logFile ==> l in Garbage(run[i + 1]).logs
  {
    RunKeepsInv(run, acts, i);
    assert CommitFlush(run[i], run[i + 1], acts[i].empty);
  }

  /** An install makes every output current and no input that is not one. */
  lemma InstallTakesEffect(run: seq<State>, acts: seq<Action>, i: nat)
    requires IsRun(run, acts) && i < |acts| && acts[i].DoInstall?
    ensures run[i].job.Some? && run[i].job.value.outputs <= run[i + 1].current
    ensures run[i].job.value.inputs <= run[i].current && run[i].job.value.inputs !! run[i + 1].current
  {
    RunKeepsInv(run, acts, i);
    assert InstallJob(run[i], run[i + 1]);
    assert forall n :: n in run[i].job.value.inputs ==> InVersion(run[i], n);
  }

  /** A current table stays current, and on disk, until a compaction that has it among its inputs is installed. */
  lemma {:induction false} CurrentStays(run: seq<State>, acts: seq<Action>, i: nat, j: nat, n: nat)
    requires IsRun(run, acts) && i <= j < |run| && n in run[i].current
    requires forall k :: i <= k < j && acts[k].DoInstall? && run[k].job.Some? ==> n !in run[k].job.value.inputs
    ensures n in run[j].current && n in run[j].tables
  {
    hide Inv;
    if i < j {
      CurrentStays(run, acts, i, j - 1, n);
      assert Step(run[j - 1], run[j], acts[j - 1]);
    }
    NoReferencedTableIsDeleted(run, acts, j, n);
  }

  /** So an installed output is in the current version and on disk from then on, until it is compacted itself. */
  lemma InstalledOutputStays(run: seq<State>, acts: seq<Action>, i: nat, j: nat, n: nat)
    requires IsRun(run, acts) && i < j < |run| && acts[i].DoInstall? && run[i].job.Some? && n in run[i].job.value.outputs
    requires forall k :: i < k < j && acts[k].DoInstall? && run[k].job.Some? ==> n !in run[k].job.value.inputs
    ensures n in run[j].current && n in run[j].tables
  {
    InstallTakesEffect(run, acts, i);
    CurrentStays(run, acts, i + 1, j, n);
  }

  /**
  Nothing written is ever lost: at every moment of every run each update is in memory and in a
  log on disk that recovery would replay, or in a table of the current version on disk, or
  was dropped by a compaction.
  */
  lemma NothingIsLost(run: seq<State>, acts: seq<Action>, i: nat, u: Update)
    requires IsRun(run, acts) && i < |run| && u in run[i].written && u !in run[i].discarded
    ensures
      || (exists l :: l in run[i].logs && run[i].logNumber <= l && l in run[i].logged && u in run[i].logged[l])
      || (exists n :: n in run[i].current && n in run[i].tables && n in run[i].contents && u in run[i].contents[n])
  {
    hide Inv;
    RunKeepsInv(run, acts, i);
    var st := run[i];
    assert DataOk(st) by { DataIsOk(st); }
    if u in st.mem || u in st.imm {
      NoUpdateIsLost(run, acts, i, u);
    } else {
      var n :| n in st.current && n in st.contents && u in st.contents[n];
      NoReferencedTableIsDeleted(run, acts, i, n);
    }
  }

  lemma DataIsOk(st: State)
    requires Inv(st)
    ensures DataOk(st)
  {
  }

  /** Only an install discards anything, and only what was in its inputs and is in none of its outputs. */
  lemma OnlyInstallsDiscard(run: seq<State>, acts: seq<Action>, i: nat, u: Update)
    requires IsRun(run, acts) && i < |acts| && u in run[i + 1].discarded && u !in run[i].discarded
    ensures acts[i].DoInstall? && run[i].job.Some?
    ensures u in UpdatesIn(run[i].contents, run[i].job.value.inputs) && u !in UpdatesIn(run[i].contents, run[i].job.value.outputs)
  {
    assert Step(run[i], run[i + 1], acts[i]);
  }

  /** At every moment, each update held only in memory is in a log file on disk that recovery would replay. */
  lemma NoUpdateIsLost(run: seq<State>, acts: seq<Action>, i: nat, u: Update)
    requires IsRun(run, acts) && i < |run| && (u in run[i].mem || u in run[i].imm)
    ensures exists l :: l in run[i].logs && run[i].logNumber <= l && l in run[i].logged && u in run[i].logged[l]
  {
    RunKeepsInv(run, acts, i);
    var st := run[i];
    if u in st.mem {
      assert st.logFile in st.logs && u in st.logged[st.logFile];
    } else {
      assert st.immLog.value in st.logs && u in st.logged[st.immLog.value];
    }
  }

  /** A collection marks exactly the tables nobody needs and the logs below the log number: no garbage is kept either. */
  lemma CollectsExactlyTheGarbage(run: seq<State>, acts: seq<Action>, i: nat)
    requires IsRun(run, acts) && i < |acts| && acts[i].DoStartGc?
    ensures run[i + 1].gc.Some?
    ensures forall n :: n in run[i + 1].gc.value.tables <==> n in run[i].tables && !Needed(run[i], n)
    ensures forall l :: l in run[i + 1].gc.value.logs <==> l in run[i].logs && l < run[i].logNumber
  {
    RunKeepsInv(run, acts, i);
    assert StartGc(run[i], run[i + 1]);
  }

  /**
  Why only the flushing thread itself may collect: a collection in the middle of a flush takes
  the flushed table exactly when the table is written and its edit not yet applied, because its
  number has left the pending set by then. Deleting it and committing the flush would leave a
  current version whose table is gone.
  */
  lemma CollectingDuringAFlushLosesItIff(st: State)
    requires Inv(st) && st.flush.Some?
    ensures st.flush.value.number in Garbage(st).tables <==> st.flush.value.Ready?
    ensures forall st1, st2 :: DeleteTable(st.(gc := Some(Garbage(st))), st1, st.flush.value.number) && CommitFlush(st1, st2, false) ==>
              st.flush.value.number in st2.current && st.flush.value.number !in st2.tables && !Inv(st2)
  {
    var n := st.flush.value.number;
    forall st1, st2 | DeleteTable(st.(gc := Some(Garbage(st))), st1, n) && CommitFlush(st1, st2, false)
      ensures n in st2.current && n !in st2.tables && !Inv(st2)
    {
      assert InVersion(st2, n);
    }
  }
}
