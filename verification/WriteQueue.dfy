/**
Every interleaving of concurrent writers through the group commit of db/db_impl.cc. Sections
under the mutex are single steps; the leader's logging, syncing and memtable inserts, made
without the mutex, are steps of their own that arrivals and snapshots interleave with.
*/
module WriteQueue {
  import opened Common
  import opened Crc
  import opened Coding
  import opened WriteBatch
  import opened GroupCommit
  import L = Log

  type Id = nat

  datatype Record = Record(first: nat, ops: seq<Op>)

  /**
  A log file. `records` are those whose append was reported as done, and `synced` how many
  leading ones a successful sync has covered. `bytes` is what the file holds, `offset` the
  writer's own block offset, `syncedBytes` how much of it was synced. `faulty` says that some
  write to the file has failed, and `intact` how many records were appended before that.
  */
  datatype LogFile = LogFile(
    records: seq<Record>, synced: nat,
    bytes: seq<Byte>, offset: nat, syncedBytes: nat, faulty: bool, intact: nat)

  const NewLog := LogFile([], 0, [], 0, 0, false, 0)

  /** The log record of a group: its batch, numbered. */
  function BytesOf(r: Record): seq<Byte> {
    if r.first < TWO32 * TWO32 then Rep(r.first, r.ops) else []
  }

  function AllBytes(rs: seq<Record>): (b: seq<seq<Byte>>)
    ensures |b| == |rs|
  {
    seq(|rs|, i requires 0 <= i < |rs| => BytesOf(rs[i]))
  }

  datatype Place = Place(file: nat, index: nat)

  /**
  A group: its writers, the sequence numbers it consumed, where its record is, how many updates
  reached the memtable, and how it ended.
  */
  datatype Group = Group(
    ids: seq<Id>, first: nat, ops: seq<Op>, at: Option<Place>,
    inserted: nat, syncFailed: bool, ok: bool)

  datatype Stage = Idle | Logging | Syncing | Inserting | Finishing

  /**
  `calls` and `arrivals` record every Write call made and their order of joining the queue;
  `groups` records the finished groups. None of the three is read by a step's guard except
  through the queue.
  */
  datatype State = State(
    calls: map<Id, Call>, arrivals: seq<Id>, queue: seq<Id>,
    stage: Stage, cur: Group, groups: seq<Group>,
    lastSequence: nat, logs: seq<LogFile>, mem: seq<Placed>, bgError: bool)

  function CallsOf(calls: map<Id, Call>, ids: seq<Id>): seq<Call> {
    seq(|ids|, i requires 0 <= i < |ids| => if ids[i] in calls then calls[ids[i]] else Call(None, false))
  }

  // ----- the steps -----

  ghost predicate Init(st: State) {
    && st.calls == map[] && st.arrivals == [] && st.queue == [] && st.stage == Idle && st.groups == []
    && st.lastSequence == 0 && st.logs == [NewLog] && st.mem == []
  }

  ghost predicate Arrive(st: State, st': State, id: Id, c: Call) {
    && id !in st.calls
    && st' == st.(calls := st.calls[id := c], arrivals := st.arrivals + [id], queue := st.queue + [id])
  }

  /** MakeRoomForWrite moves the front writer on to a new log file and memtable. */
  ghost predicate SwitchLog(st: State, st': State) {
    st.stage.Idle? && st.queue != [] && !st.bgError && st' == st.(logs := st.logs + [NewLog])
  }

  /** MakeRoomForWrite fails, or the front writer's batch is null: it leaves alone. */
  ghost predicate LeaveAlone(st: State, st': State, ok: bool) {
    && st.stage.Idle? && st.queue != [] && st.queue[0] in st.calls
    && (ok ==> !st.bgError && st.calls[st.queue[0]].batch.None?)
    && st' == st.(queue := st.queue[1..],
                  groups := st.groups + [Group([st.queue[0]], st.lastSequence + 1, [], None, 0, false, ok)])
  }

  ghost predicate Begin(st: State, st': State, n: nat) {
    && st.stage.Idle? && !st.bgError && n <= |st.queue| && IsGroup(CallsOf(st.calls, st.queue), n)
    && st' == st.(stage := Logging,
                  cur := Group(st.queue[..n], st.lastSequence + 1, OpsOf(CallsOf(st.calls, st.queue)[..n]), None, 0, false, false))
  }

  predicate LeaderSyncs(st: State) {
    st.cur.ids != [] && st.cur.ids[0] in st.calls && st.calls[st.cur.ids[0]].sync
  }

  /** The log file after the writer has appended a record, as far as the file let it. */
  function Appended(file: LogFile, r: Record, w: L.Written): LogFile {
    file.(records := if w.ok then file.records + [r] else file.records,
          bytes := file.bytes + w.bytes, offset := w.offset,
          faulty := file.faulty || w.faulty,
          intact := if w.ok && !w.faulty && !file.faulty then file.intact + 1 else file.intact)
  }

  /** A failed append is reported to the group, and the next group goes on with the same file. */
  ghost predicate Append(st: State, st': State, fates: seq<L.Fate>) {
    && st.stage.Logging? && st.logs != []
    && var f := |st.logs| - 1;
       var file, r := st.logs[f], Record(st.cur.first, st.cur.ops);
       var w := L.Writing(file.offset, BytesOf(r), true, fates);
       var logs := st.logs[f := Appended(file, r, w)];
       if !w.ok then st' == st.(stage := Finishing, logs := logs)
       else
         st' == st.(logs := logs, cur := st.cur.(at := Some(Place(f, |file.records|))),
                    stage := if LeaderSyncs(st) then Syncing else Inserting)
  }

  function SyncedFile(file: LogFile): LogFile {
    file.(synced := |file.records|, syncedBytes := |file.bytes|)
  }

  ghost predicate Sync(st: State, st': State, ok: bool) {
    && st.stage.Syncing? && st.logs != []
    && if !ok then st' == st.(stage := Finishing, cur := st.cur.(syncFailed := true))
       else
         var f := |st.logs| - 1;
         st' == st.(stage := Inserting, logs := st.logs[f := SyncedFile(st.logs[f])])
  }

  ghost predicate InsertOne(st: State, st': State) {
    && st.stage.Inserting? && st.cur.inserted < |st.cur.ops|
    && var k := st.cur.inserted;
       st' == st.(mem := st.mem + [Placed(st.cur.first + k, st.cur.ops[k])], cur := st.cur.(inserted := k + 1))
  }

  ghost predicate InsertEnds(st: State, st': State, ok: bool) {
    && st.stage.Inserting? && (ok ==> st.cur.inserted == |st.cur.ops|)
    && st' == st.(stage := Finishing, cur := st.cur.(ok := ok))
  }

  /** With the mutex again: publish the last sequence number and wake the group. */
  ghost predicate Finish(st: State, st': State) {
    && st.stage.Finishing? && |st.cur.ids| <= |st.queue|
    && st' == st.(stage := Idle, queue := st.queue[|st.cur.ids|..], groups := st.groups + [st.cur],
                  lastSequence := st.lastSequence + |st.cur.ops|, bgError := st.bgError || st.cur.syncFailed)
  }

  /** Background work may fail at any time. */
  ghost predicate BackgroundFails(st: State, st': State) {
    st' == st.(bgError := true)
  }

  datatype Action =
    | Arrives(id: Id, c: Call) | Switches | Leaves(left: bool) | Begins(n: nat) | Appends(fates: seq<L.Fate>)
    | Syncs(synced: bool) | Inserts | EndsInsert(all: bool) | Finishes | Breaks

  ghost predicate Step(st: State, st': State, a: Action) {
    match a
    case Arrives(id, c) => Arrive(st, st', id, c)
    case Switches => SwitchLog(st, st')
    case Leaves(ok) => LeaveAlone(st, st', ok)
    case Begins(n) => Begin(st, st', n)
    case Appends(fates) => Append(st, st', fates)
    case Syncs(ok) => Sync(st, st', ok)
    case Inserts => InsertOne(st, st')
    case EndsInsert(ok) => InsertEnds(st, st', ok)
    case Finishes => Finish(st, st')
    case Breaks => BackgroundFails(st, st')
  }

  // ----- the invariant -----

  function IdsOf(gs: seq<Group>): seq<Id> {
    if gs == [] then [] else IdsOf(gs[..|gs| - 1]) + gs[|gs| - 1].ids
  }

  function Consumed(gs: seq<Group>): nat {
    if gs == [] then 0 else Consumed(gs[..|gs| - 1]) + |gs[|gs| - 1].ops|
  }

  function InsertedBy(g: Group): seq<Placed> {
    if g.inserted <= |g.ops| then PlacedAt(g.first, g.ops)[..g.inserted] else []
  }

  function InsertedOf(gs: seq<Group>): seq<Placed> {
    if gs == [] then [] else InsertedOf(gs[..|gs| - 1]) + InsertedBy(gs[|gs| - 1])
  }

  function RecordOf(g: Group): seq<Record> {
    if g.at.Some? then [Record(g.first, g.ops)] else []
  }

  function RecordsOf(gs: seq<Group>): seq<Record> {
    if gs == [] then [] else RecordsOf(gs[..|gs| - 1]) + RecordOf(gs[|gs| - 1])
  }

  function AllRecords(logs: seq<LogFile>): seq<Record> {
    if logs == [] then [] else AllRecords(logs[..|logs| - 1]) + logs[|logs| - 1].records
  }

  /** Groups and the one in flight. */
  function Open(st: State): seq<Group> {
    if st.stage.Idle? then st.groups else st.groups + [st.cur]
  }

  /** One group against the calls and the logs. */
  ghost predicate GroupOk(g: Group, calls: map<Id, Call>, logs: seq<LogFile>) {
    && g.ids != [] && (forall i :: 0 <= i < |g.ids| ==> g.ids[i] in calls)
    && (forall i :: 0 <= i < |g.ids| && calls[g.ids[i]].sync ==> calls[g.ids[0]].sync)
    && g.inserted <= |g.ops|
    && (g.ops == OpsOf(CallsOf(calls, g.ids)) || (g.ops == [] && g.at.None? && !g.ok))
    && (g.at.Some? ==> InLog(g, logs))
    && (g.ok ==> g.inserted == |g.ops| && (g.at.Some? || (|g.ids| == 1 && calls[g.ids[0]].batch.None?)))
    && (g.ok && g.at.Some? && calls[g.ids[0]].sync ==> g.at.value.index < logs[g.at.value.file].synced)
  }

  ghost predicate InLog(g: Group, logs: seq<LogFile>)
    requires g.at.Some?
  {
    && g.at.value.file < |logs| && g.at.value.index < |logs[g.at.value.file].records|
    && logs[g.at.value.file].records[g.at.value.index] == Record(g.first, g.ops)
  }

  ghost predicate GroupsOk(gs: seq<Group>, calls: map<Id, Call>, logs: seq<LogFile>) {
    && (forall i :: 0 <= i < |gs| ==> GroupOk(gs[i], calls, logs))
    && Tiled(gs) && FailStop(gs)
  }

  /** Each group's sequence numbers start right after those of the groups before it. */
  ghost predicate Tiled(gs: seq<Group>) {
    gs == [] || (Tiled(gs[..|gs| - 1]) && gs[|gs| - 1].first == 1 + Consumed(gs[..|gs| - 1]))
  }

  /** Once a sync has failed, no later group succeeds. */
  ghost predicate FailStop(gs: seq<Group>) {
    forall i, j :: 0 <= i < j < |gs| && gs[i].syncFailed ==> !gs[j].ok
  }

  ghost predicate StageOk(st: State) {
    !st.stage.Idle? ==>
      && |st.cur.ids| <= |st.queue| && st.cur.ids == st.queue[..|st.cur.ids|]
      && st.cur.ops == OpsOf(CallsOf(st.calls, st.cur.ids))
      && (forall i :: 0 <= i < |st.groups| ==> !st.groups[i].syncFailed)
      && (st.stage.Logging? ==> st.cur.at.None? && !st.cur.syncFailed && !st.cur.ok && st.cur.inserted == 0)
      && (st.stage.Syncing? || st.stage.Inserting? ==>
            && st.cur.at.Some? && !st.cur.syncFailed && !st.cur.ok
            && st.cur.at.value.file == |st.logs| - 1)
      && (st.stage.Syncing? ==> st.cur.inserted == 0)
      && (st.stage.Inserting? && st.cur.ids != [] && st.cur.ids[0] in st.calls && st.calls[st.cur.ids[0]].sync ==>
            st.cur.at.value.index < st.logs[|st.logs| - 1].synced)
      && (st.stage.Finishing? && st.cur.syncFailed ==> !st.cur.ok)
  }

  ghost predicate ArrivalsOk(arrivals: seq<Id>, calls: map<Id, Call>) {
    && NoRepeats(arrivals)
    && (forall i :: 0 <= i < |arrivals| ==> arrivals[i] in calls)
    && (forall id :: id in calls ==> id in arrivals)
  }

  /** The bytes of a record sequence, written to a new file that never fails. */
  function Encoded(rs: seq<Record>): seq<Byte> {
    L.EncodeAll(0, AllBytes(rs))
  }

  /**
  The file begins with the records appended before any write to it failed, those of them that
  were synced within its synced part. If none failed it holds all its records and nothing
  else, and the writer's offset is in step with it.
  */
  ghost predicate LogOk(file: LogFile) {
    && file.synced <= |file.records| && file.intact <= |file.records| && file.syncedBytes <= |file.bytes|
    && Encoded(file.records[..file.intact]) <= file.bytes
    && |Encoded(file.records[..L.Min(file.synced, file.intact)])| <= file.syncedBytes
    && (!file.faulty ==>
          && file.intact == |file.records| && file.bytes == Encoded(file.records)
          && file.offset % L.BLOCK_SIZE == |file.bytes| % L.BLOCK_SIZE)
  }

  ghost predicate LogsOk(logs: seq<LogFile>) {
    forall f :: 0 <= f < |logs| ==> LogOk(logs[f])
  }

  ghost predicate Inv(st: State) {
    && st.arrivals == IdsOf(st.groups) + st.queue && ArrivalsOk(st.arrivals, st.calls)
    && st.logs != [] && LogsOk(st.logs)
    && GroupsOk(Open(st), st.calls, st.logs)
    && st.lastSequence == Consumed(st.groups)
    && AllRecords(st.logs) == RecordsOf(Open(st))
    && st.mem == InsertedOf(Open(st))
    && (!st.bgError ==> forall i :: 0 <= i < |st.groups| ==> !st.groups[i].syncFailed)
    && StageOk(st)
  }

  // ----- groups stay as they are while calls arrive and logs grow -----

  ghost predicate LogsGrow(logs: seq<LogFile>, logs': seq<LogFile>) {
    && |logs| <= |logs'|
    && forall f :: 0 <= f < |logs| ==> logs[f].records <= logs'[f].records && logs[f].synced <= logs'[f].synced
  }

  ghost predicate CallsGrow(calls: map<Id, Call>, calls': map<Id, Call>) {
    forall id :: id in calls ==> id in calls' && calls'[id] == calls[id]
  }

  lemma GroupStays(g: Group, calls: map<Id, Call>, logs: seq<LogFile>, calls': map<Id, Call>, logs': seq<LogFile>)
    requires GroupOk(g, calls, logs) && CallsGrow(calls, calls') && LogsGrow(logs, logs')
    ensures GroupOk(g, calls', logs')
  {
    assert CallsOf(calls', g.ids) == CallsOf(calls, g.ids);
  }

  lemma GroupsStay(gs: seq<Group>, calls: map<Id, Call>, logs: seq<LogFile>, calls': map<Id, Call>, logs': seq<LogFile>)
    requires GroupsOk(gs, calls, logs) && CallsGrow(calls, calls') && LogsGrow(logs, logs')
    ensures GroupsOk(gs, calls', logs')
  {
    forall i | 0 <= i < |gs| ensures GroupOk(gs[i], calls', logs') {
      GroupStays(gs[i], calls, logs, calls', logs');
    }
  }

  /** Adding a group at the end. */
  lemma GroupsSnoc(gs: seq<Group>, g: Group, calls: map<Id, Call>, logs: seq<LogFile>)
    requires GroupsOk(gs, calls, logs) && GroupOk(g, calls, logs) && g.first == 1 + Consumed(gs)
    requires g.ok ==> forall i :: 0 <= i < |gs| ==> !gs[i].syncFailed
    ensures GroupsOk(gs + [g], calls, logs)
  {
    hide GroupOk, Consumed, LogOk;
    assert (gs + [g])[..|gs|] == gs;
  }

  lemma GroupsPrefix(gs: seq<Group>, g: Group, calls: map<Id, Call>, logs: seq<LogFile>)
    requires GroupsOk(gs + [g], calls, logs)
    ensures GroupsOk(gs, calls, logs) && GroupOk(g, calls, logs) && g.first == 1 + Consumed(gs)
    ensures g.ok ==> forall i :: 0 <= i < |gs| ==> !gs[i].syncFailed
  {
    hide GroupOk, Consumed, FailStop, LogOk;
    var r := gs + [g];
    assert r[..|gs|] == gs && r[|gs|] == g;
    assert forall i :: 0 <= i < |gs| ==> r[i] == gs[i];
    FailStopPrefix(gs, g);
  }

  lemma FailStopPrefix(gs: seq<Group>, g: Group)
    requires FailStop(gs + [g])
    ensures FailStop(gs) && (g.ok ==> forall i :: 0 <= i < |gs| ==> !gs[i].syncFailed)
  {
    var r := gs + [g];
    assert r[|gs|] == g && forall i :: 0 <= i < |gs| ==> r[i] == gs[i];
  }

  lemma FinishedOk(st: State)
    requires Inv(st)
    ensures GroupsOk(st.groups, st.calls, st.logs)
  {
    hide GroupsOk, StageOk, ArrivalsOk, IdsOf, Consumed, InsertedOf, RecordsOf, AllRecords, LogOk;
    if !st.stage.Idle? { GroupsPrefix(st.groups, st.cur, st.calls, st.logs); }
  }

  lemma FoldSnoc(gs: seq<Group>, g: Group)
    ensures IdsOf(gs + [g]) == IdsOf(gs) + g.ids && Consumed(gs + [g]) == Consumed(gs) + |g.ops|
    ensures InsertedOf(gs + [g]) == InsertedOf(gs) + InsertedBy(g) && RecordsOf(gs + [g]) == RecordsOf(gs) + RecordOf(g)
  {
    assert (gs + [g])[..|gs + [g]| - 1] == gs;
  }

  // ----- every step keeps the invariant -----

  lemma ArriveKeepsInv(st: State, st': State, id: Id, c: Call)
    requires Inv(st) && Arrive(st, st', id, c)
    ensures Inv(st')
  {
    hide ArrivalsOk, GroupOk, GroupsOk, IdsOf, Consumed, InsertedOf, RecordsOf, AllRecords, LogOk;
    GroupsStay(Open(st), st.calls, st.logs, st'.calls, st'.logs);
    if !st.stage.Idle? {
      CurFacts(st);
      assert CallsOf(st'.calls, st.cur.ids) == CallsOf(st.calls, st.cur.ids) by { ArrivedCalls(st.cur, st.calls, st.logs, st'.calls); }
    }
    assert st'.arrivals == IdsOf(st'.groups) + st'.queue;
    ArrivalSnoc(st.arrivals, st.calls, id, c);
  }

  lemma ArrivalSnoc(arrivals: seq<Id>, calls: map<Id, Call>, id: Id, c: Call)
    requires ArrivalsOk(arrivals, calls) && id !in calls
    ensures ArrivalsOk(arrivals + [id], calls[id := c])
  {
  }

  lemma ArrivedCalls(g: Group, calls: map<Id, Call>, logs: seq<LogFile>, calls': map<Id, Call>)
    requires GroupOk(g, calls, logs) && CallsGrow(calls, calls')
    ensures CallsOf(calls', g.ids) == CallsOf(calls, g.ids)
  {
  }

  lemma NewLogOk()
    ensures LogOk(NewLog)
  {
  }

  lemma SwitchKeepsInv(st: State, st': State)
    requires Inv(st) && SwitchLog(st, st')
    ensures Inv(st')
  {
    hide ArrivalsOk, GroupOk, GroupsOk, IdsOf, Consumed, InsertedOf, RecordsOf, LogOk;
    GroupsStay(Open(st), st.calls, st.logs, st'.calls, st'.logs);
    assert LogOk(NewLog) by { NewLogOk(); }
    assert st'.logs[..|st'.logs| - 1] == st.logs;
    assert AllRecords(st'.logs) == AllRecords(st.logs);
  }

  lemma LeaveKeepsInv(st: State, st': State, ok: bool)
    requires Inv(st) && LeaveAlone(st, st', ok)
    ensures Inv(st')
  {
    hide ArrivalsOk, GroupOk, GroupsOk, IdsOf, Consumed, InsertedOf, RecordsOf, AllRecords, OpsOf, CallsOf, PlacedAt, LogOk;
    var g := st'.groups[|st.groups|];
    NullGroupOk(g, st.calls, st.logs);
    GroupsSnoc(st.groups, g, st.calls, st.logs);
    FoldSnoc(st.groups, g);
    assert st.queue == g.ids + st'.queue;
    assert st'.arrivals == IdsOf(st'.groups) + st'.queue;
    assert InsertedBy(g) == [];
  }

  lemma NullGroupOk(g: Group, calls: map<Id, Call>, logs: seq<LogFile>)
    requires |g.ids| == 1 && g.ids[0] in calls && g.ops == [] && g.at.None? && g.inserted == 0
    requires g.ok ==> calls[g.ids[0]].batch.None?
    ensures GroupOk(g, calls, logs)
  {
    var cs := CallsOf(calls, g.ids);
    assert cs[..|cs| - 1] == [] && OpsOf([]) == [];
  }

  lemma BeginKeepsInv(st: State, st': State, n: nat)
    requires Inv(st) && Begin(st, st', n)
    ensures Inv(st')
  {
    hide ArrivalsOk, GroupOk, GroupsOk, IdsOf, Consumed, InsertedOf, RecordsOf, AllRecords, OpsOf, LogOk;
    BegunGroupOk(st, st', n);
    GroupsSnoc(st.groups, st'.cur, st.calls, st.logs);
    FoldSnoc(st.groups, st'.cur);
    assert InsertedBy(st'.cur) == [];
  }

  lemma BegunGroupOk(st: State, st': State, n: nat)
    requires Inv(st) && Begin(st, st', n)
    ensures GroupOk(st'.cur, st.calls, st.logs) && st'.cur.ops == OpsOf(CallsOf(st.calls, st'.cur.ids))
  {
    hide OpsOf, IdsOf, Consumed, InsertedOf, RecordsOf, AllRecords, GroupsOk, GroupOk, TotalSize, LogOk;
    assert forall i :: 0 <= i < |st.queue| ==> st.queue[i] == st.arrivals[|IdsOf(st.groups)| + i];
    PrefixGroupOk(st.calls, st.logs, st.queue, n, st'.cur);
  }

  lemma PrefixGroupOk(calls: map<Id, Call>, logs: seq<LogFile>, queue: seq<Id>, n: nat, g: Group)
    requires n <= |queue| && (forall i :: 0 <= i < |queue| ==> queue[i] in calls) && IsGroup(CallsOf(calls, queue), n)
    requires g.ids == queue[..n] && g.ops == OpsOf(CallsOf(calls, queue)[..n]) && g.at.None? && !g.ok && g.inserted == 0
    ensures GroupOk(g, calls, logs) && g.ops == OpsOf(CallsOf(calls, g.ids))
  {
    hide OpsOf, TotalSize;
    var cs := CallsOf(calls, queue);
    assert cs[..n] == CallsOf(calls, queue[..n]);
    assert forall i :: 0 <= i < n ==> cs[i] == calls[queue[i]];
  }

  /** Only the group in flight changes. */
  lemma CurKeepsInv(st: State, st': State)
    requires Inv(st) && !st.stage.Idle? && !st'.stage.Idle?
    requires st' == st.(stage := st'.stage, cur := st'.cur, logs := st'.logs, mem := st'.mem)
    requires LogsGrow(st.logs, st'.logs) && LogsOk(st'.logs)
    requires st'.cur.ids == st.cur.ids && st'.cur.first == st.cur.first && st'.cur.ops == st.cur.ops
    requires GroupOk(st'.cur, st'.calls, st'.logs) && StageOk(st')
    requires AllRecords(st'.logs) == RecordsOf(st.groups) + RecordOf(st'.cur)
    requires st'.mem == InsertedOf(st.groups) + InsertedBy(st'.cur)
    ensures Inv(st')
  {
    hide ArrivalsOk, GroupOk, GroupsOk, IdsOf, Consumed, InsertedOf, RecordsOf, AllRecords, LogOk;
    GroupsPrefix(st.groups, st.cur, st.calls, st.logs);
    GroupsStay(st.groups, st.calls, st.logs, st'.calls, st'.logs);
    GroupsSnoc(st.groups, st'.cur, st'.calls, st'.logs);
    FoldSnoc(st.groups, st'.cur);
  }

  lemma CurFacts(st: State)
    requires Inv(st) && !st.stage.Idle?
    ensures GroupOk(st.cur, st.calls, st.logs) && st.cur.first == 1 + Consumed(st.groups)
    ensures AllRecords(st.logs) == RecordsOf(st.groups) + RecordOf(st.cur)
    ensures st.mem == InsertedOf(st.groups) + InsertedBy(st.cur)
  {
    GroupsPrefix(st.groups, st.cur, st.calls, st.logs);
    FoldSnoc(st.groups, st.cur);
  }

  lemma LastReplaced(logs: seq<LogFile>, file: LogFile)
    requires logs != [] && LogsOk(logs) && LogOk(file)
    requires logs[|logs| - 1].records <= file.records && logs[|logs| - 1].synced <= file.synced
    ensures LogsOk(logs[|logs| - 1 := file]) && LogsGrow(logs, logs[|logs| - 1 := file])
    ensures AllRecords(logs[|logs| - 1 := file]) == AllRecords(logs[..|logs| - 1]) + file.records
    ensures AllRecords(logs) == AllRecords(logs[..|logs| - 1]) + logs[|logs| - 1].records
  {
    hide LogOk;
    assert logs[|logs| - 1 := file][..|logs| - 1] == logs[..|logs| - 1];
  }

  lemma EncodedSnoc(rs: seq<Record>, r: Record)
    ensures Encoded(rs + [r]) == Encoded(rs) + L.Encode(|Encoded(rs)|, BytesOf(r), true)
  {
    hide BytesOf, L.EncodeAll, L.Encode;
    assert AllBytes(rs + [r]) == AllBytes(rs) + [BytesOf(r)];
    L.EncodeAllSnoc(0, AllBytes(rs), BytesOf(r));
  }

  lemma PrefixGrows(a: seq<Byte>, b: seq<Byte>, c: seq<Byte>)
    requires a <= b
    ensures a <= b + c
  {
  }

  /** Whatever the file does to an append, the intact records stay where they are. */
  lemma AppendedOk(file: LogFile, r: Record, fates: seq<L.Fate>)
    requires LogOk(file)
    ensures LogOk(Appended(file, r, L.Writing(file.offset, BytesOf(r), true, fates)))
  {
    hide BytesOf, Encoded, L.Writing, L.Encode;
    var w := L.Writing(file.offset, BytesOf(r), true, fates);
    var file' := Appended(file, r, w);
    PrefixGrows(Encoded(file.records[..file.intact]), file.bytes, w.bytes);
    if !w.faulty && !file.faulty {
      L.WritingWorks(|file.bytes|, file.offset, BytesOf(r), true, fates);
      EncodedSnoc(file.records, r);
      assert file'.records[..file'.intact] == file'.records;
    } else {
      assert file'.records[..file.intact] == file.records[..file.intact];
    }
    var m := L.Min(file.synced, file.intact);
    assert L.Min(file'.synced, file'.intact) == m && file'.records[..m] == file.records[..m];
  }

  lemma AppendKeepsInv(st: State, st': State, fates: seq<L.Fate>)
    requires Inv(st) && Append(st, st', fates)
    ensures Inv(st')
  {
    hide IdsOf, Consumed, InsertedOf, RecordsOf, AllRecords, GroupsOk, OpsOf, LogOk, BytesOf, L.Writing, CallsOf, ArrivalsOk, PlacedAt;
    CurFacts(st);
    var file, r := st.logs[|st.logs| - 1], Record(st.cur.first, st.cur.ops);
    AppendedOk(file, r, fates);
    LastReplaced(st.logs, Appended(file, r, L.Writing(file.offset, BytesOf(r), true, fates)));
    assert RecordOf(st.cur) == [];
    assert RecordsOf(st.groups) + RecordOf(st'.cur) == RecordsOf(st.groups) + RecordOf(st.cur) + RecordOf(st'.cur);
    assert InsertedBy(st'.cur) == InsertedBy(st.cur);
    CurKeepsInv(st, st');
  }

  lemma SyncedOk(file: LogFile)
    requires LogOk(file)
    ensures LogOk(SyncedFile(file)) && file.synced <= SyncedFile(file).synced
  {
    hide Encoded;
  }

  lemma SyncKeepsInv(st: State, st': State, ok: bool)
    requires Inv(st) && Sync(st, st', ok)
    ensures Inv(st')
  {
    hide IdsOf, Consumed, InsertedOf, RecordsOf, AllRecords, GroupsOk, OpsOf, LogOk;
    CurFacts(st);
    if ok {
      SyncedOk(st.logs[|st.logs| - 1]);
      LastReplaced(st.logs, SyncedFile(st.logs[|st.logs| - 1]));
    }
    CurKeepsInv(st, st');
  }

  lemma InsertKeepsInv(st: State, st': State)
    requires Inv(st) && InsertOne(st, st')
    ensures Inv(st')
  {
    hide IdsOf, Consumed, InsertedOf, RecordsOf, AllRecords, GroupsOk, OpsOf, LogOk;
    CurFacts(st);
    var all, k := PlacedAt(st.cur.first, st.cur.ops), st.cur.inserted;
    assert all[..k + 1] == all[..k] + [all[k]];
    CurKeepsInv(st, st');
  }

  lemma EndInsertKeepsInv(st: State, st': State, ok: bool)
    requires Inv(st) && InsertEnds(st, st', ok)
    ensures Inv(st')
  {
    hide IdsOf, Consumed, InsertedOf, RecordsOf, AllRecords, GroupsOk, OpsOf, LogOk;
    CurFacts(st);
    CurKeepsInv(st, st');
  }

  lemma FinishKeepsInv(st: State, st': State)
    requires Inv(st) && Finish(st, st')
    ensures Inv(st')
  {
    hide IdsOf, Consumed, InsertedOf, RecordsOf, AllRecords, GroupsOk, GroupOk, OpsOf, ArrivalsOk, InsertedBy, RecordOf, CallsOf, LogOk;
    FoldSnoc(st.groups, st.cur);
    assert st.queue == st.cur.ids + st'.queue;
    assert st'.arrivals == IdsOf(st'.groups) + st'.queue;
  }

  lemma StepKeepsInv(st: State, st': State, a: Action)
    requires Inv(st) && Step(st, st', a)
    ensures Inv(st')
  {
    hide Inv;
    match a
    case Arrives(id, c) => ArriveKeepsInv(st, st', id, c);
    case Switches => SwitchKeepsInv(st, st');
    case Leaves(ok) => LeaveKeepsInv(st, st', ok);
    case Begins(n) => BeginKeepsInv(st, st', n);
    case Appends(fates) => AppendKeepsInv(st, st', fates);
    case Syncs(ok) => SyncKeepsInv(st, st', ok);
    case Inserts => InsertKeepsInv(st, st');
    case EndsInsert(ok) => EndInsertKeepsInv(st, st', ok);
    case Finishes => FinishKeepsInv(st, st');
    case Breaks => BreakKeepsInv(st, st');
  }

  lemma BreakKeepsInv(st: State, st': State)
    requires Inv(st) && BackgroundFails(st, st')
    ensures Inv(st')
  {
    hide ArrivalsOk, GroupOk, GroupsOk, IdsOf, Consumed, InsertedOf, RecordsOf, AllRecords, OpsOf, LogOk;
  }

  // ----- every run -----

  ghost predicate IsRun(run: seq<State>, acts: seq<Action>) {
    && |run| == |acts| + 1 && Init(run[0])
    && forall i :: 0 <= i < |acts| ==> Step(run[i], run[i + 1], acts[i])
  }

  lemma InitInv(st: State)
    requires Init(st)
    ensures Inv(st)
  {
    hide OpsOf;
    assert st.logs[..0] == [] && AllRecords([]) == [];
    assert RecordsOf(Open(st)) == [] && InsertedOf(Open(st)) == [] && IdsOf(st.groups) == [];
  }

  lemma {:induction false} RunKeepsInv(run: seq<State>, acts: seq<Action>, i: nat)
    requires IsRun(run, acts) && i < |run|
    ensures Inv(run[i])
  {
    hide Inv, Init, Step;
    if i == 0 {
      InitInv(run[0]);
    } else {
      RunKeepsInv(run, acts, i - 1);
      StepKeepsInv(run[i - 1], run[i], acts[i - 1]);
    }
  }

  /** Finished groups and known calls never change. */
  ghost predicate Extends(st: State, st': State) {
    st.groups <= st'.groups && CallsGrow(st.calls, st'.calls)
  }

  lemma {:induction false} RunExtends(run: seq<State>, acts: seq<Action>, i: nat, j: nat)
    requires IsRun(run, acts) && i <= j < |run|
    ensures Extends(run[i], run[j])
    decreases j
  {
    hide Init;
    if i < j {
      RunExtends(run, acts, i, j - 1);
      assert Step(run[j - 1], run[j], acts[j - 1]);
      assert Extends(run[j - 1], run[j]);
    }
  }

  // ----- sequence numbers -----

  lemma {:induction false} TiledAt(gs: seq<Group>, i: nat)
    requires Tiled(gs) && i < |gs|
    ensures gs[i].first == 1 + Consumed(gs[..i])
  {
    hide Consumed, LogOk;
    var p := gs[..|gs| - 1];
    if i < |p| {
      TiledAt(p, i);
      assert p[..i] == gs[..i];
    } else {
      assert gs[..i] == p;
    }
  }

  lemma {:induction false} ConsumedGrows(gs: seq<Group>, i: nat)
    requires i <= |gs|
    ensures Consumed(gs[..i]) <= Consumed(gs)
    ensures i < |gs| ==> Consumed(gs[..i]) + |gs[i].ops| <= Consumed(gs)
    decreases |gs|
  {
    if i == |gs| {
      assert gs[..i] == gs;
    } else {
      var p := gs[..|gs| - 1];
      if i < |p| {
        ConsumedGrows(p, i);
        assert p[..i] == gs[..i];
      } else {
        assert gs[..i] == p;
      }
    }
  }

  /** Committed groups take consecutive, disjoint ranges of sequence numbers, in commit order. */
  lemma RangesAreContiguous(st: State, i: nat, j: nat)
    requires Inv(st) && i < j < |st.groups|
    ensures st.groups[i].first + |st.groups[i].ops| <= st.groups[j].first
    ensures j == i + 1 ==> st.groups[i].first + |st.groups[i].ops| == st.groups[j].first
    ensures st.groups[j].first + |st.groups[j].ops| <= st.lastSequence + 1
  {
    hide GroupOk, Consumed, StageOk, ArrivalsOk, FailStop, Tiled, IdsOf, InsertedOf, RecordsOf, AllRecords, Open, LogOk;
    FinishedOk(st);
    TiledAt(st.groups, i);
    TiledAt(st.groups, j);
    ConsumedGrows(st.groups[..j], i);
    assert st.groups[..j][..i] == st.groups[..i];
    ConsumedGrows(st.groups, j);
    if j == i + 1 {
      FoldSnoc(st.groups[..i], st.groups[i]);
      assert st.groups[..i] + [st.groups[i]] == st.groups[..j];
    }
  }

  lemma {:induction false} InsertedRange(gs: seq<Group>)
    requires Tiled(gs)
    ensures forall a :: 0 <= a < |InsertedOf(gs)| ==> 1 <= InsertedOf(gs)[a].sequence <= Consumed(gs)
    ensures forall a, b :: 0 <= a < b < |InsertedOf(gs)| ==> InsertedOf(gs)[a].sequence < InsertedOf(gs)[b].sequence
  {
    if gs != [] {
      InsertedRange(gs[..|gs| - 1]);
    }
  }

  /** No two updates in memory share a sequence number: they go in in increasing order. */
  lemma MemoryIncreases(st: State)
    requires Inv(st)
    ensures forall a, b :: 0 <= a < b < |st.mem| ==> st.mem[a].sequence < st.mem[b].sequence
  {
    hide GroupOk, Consumed, StageOk, ArrivalsOk, InsertedOf, Tiled, LogOk;
    InsertedRange(Open(st));
  }

  // ----- snapshots -----

  lemma {:induction false} OpsSlice(cs: seq<Call>, k: nat)
    requires k < |cs| && cs[k].batch.Some?
    ensures |OpsOf(cs[..k])| + |cs[k].batch.value| <= |OpsOf(cs)|
    ensures OpsOf(cs)[|OpsOf(cs[..k])|..][..|cs[k].batch.value|] == cs[k].batch.value
    decreases |cs|
  {
    var n := |cs| - 1;
    if k == n {
      assert OpsOf(cs) == OpsOf(cs[..n]) + cs[k].batch.value;
    } else {
      OpsSlice(cs[..n], k);
      assert cs[..n][..k] == cs[..k];
      assert OpsOf(cs)[..|OpsOf(cs[..n])|] == OpsOf(cs[..n]);
    }
  }

  /** The first sequence number of the k-th writer's batch in a group. */
  function BatchStart(g: Group, calls: map<Id, Call>, k: nat): nat
    requires k < |g.ids|
  {
    g.first + |OpsOf(CallsOf(calls, g.ids)[..k])|
  }

  /** A batch that committed as the k-th of group m. */
  ghost predicate Committed(st: State, m: nat, k: nat) {
    && m < |st.groups| && st.groups[m].ok && k < |st.groups[m].ids|
    && st.groups[m].ids[k] in st.calls && st.calls[st.groups[m].ids[k]].batch.Some?
  }

  ghost predicate AllInserted(mem: seq<Placed>, first: nat, ops: seq<Op>) {
    forall x :: 0 <= x < |ops| ==> Placed(first + x, ops[x]) in mem
  }

  lemma {:induction false} InsertedHas(gs: seq<Group>, m: nat, p: Placed)
    requires m < |gs| && p in InsertedBy(gs[m])
    ensures p in InsertedOf(gs)
  {
    if m < |gs| - 1 {
      InsertedHas(gs[..|gs| - 1], m, p);
    }
  }

  /** The memory of a state that has finished group m holds all of a batch that committed in it. */
  lemma CommittedIsInserted(st: State, m: nat, k: nat)
    requires Inv(st) && Committed(st, m, k)
    ensures AllInserted(st.mem, BatchStart(st.groups[m], st.calls, k), st.calls[st.groups[m].ids[k]].batch.value)
    ensures BatchStart(st.groups[m], st.calls, k) + |st.calls[st.groups[m].ids[k]].batch.value| <= st.lastSequence + 1
  {
    hide Consumed, StageOk, ArrivalsOk, InsertedOf, OpsOf, RecordsOf, AllRecords, IdsOf, Tiled, LogOk;
    FinishedOk(st);
    var g := st.groups[m];
    assert GroupOk(g, st.calls, st.logs);
    var cs := CallsOf(st.calls, g.ids);
    var ops, off := st.calls[g.ids[k]].batch.value, |OpsOf(cs[..k])|;
    OpsSlice(cs, k);
    TiledAt(st.groups, m);
    ConsumedGrows(st.groups, m);
    forall x | 0 <= x < |ops| ensures Placed(g.first + off + x, ops[x]) in st.mem {
      assert g.ops[off..][..|ops|][x] == g.ops[off + x];
      assert InsertedBy(g)[off + x] == Placed(g.first + off + x, ops[x]);
      InsertedHas(Open(st), m, Placed(g.first + off + x, ops[x]));
    }
  }

  /**
  A snapshot taken as the last sequence number of any state sees all of a batch that committed,
  or none of it, whenever in the run the snapshot was taken.
  */
  lemma SnapshotSeesAllOrNothing(run: seq<State>, acts: seq<Action>, i: nat, j: nat, m: nat, k: nat)
    requires IsRun(run, acts) && i < |run| && j < |run| && Committed(run[j], m, k)
    ensures
      var first := BatchStart(run[j].groups[m], run[j].calls, k);
      var ops := run[j].calls[run[j].groups[m].ids[k]].batch.value;
      || run[i].lastSequence < first
      || (first + |ops| <= run[i].lastSequence + 1 && AllInserted(run[i].mem, first, ops))
  {
    hide Inv, Init, Step, OpsOf, AllInserted, Extends;
    RunKeepsInv(run, acts, i);
    RunKeepsInv(run, acts, j);
    if i <= j { RunExtends(run, acts, i, j); } else { RunExtends(run, acts, j, i); }
    if m < |run[i].groups| {
      SameCommit(run[i], run[j], m, k);
      CommittedIsInserted(run[i], m, k);
    } else {
      NotYet(run[i], run[j], m);
    }
  }

  lemma SameCommit(st: State, st': State, m: nat, k: nat)
    requires Inv(st) && Inv(st') && (Extends(st, st') || Extends(st', st))
    requires Committed(st', m, k) && m < |st.groups|
    ensures Committed(st, m, k) && st.groups[m] == st'.groups[m]
    ensures st.calls[st.groups[m].ids[k]] == st'.calls[st.groups[m].ids[k]]
    ensures CallsOf(st.calls, st.groups[m].ids) == CallsOf(st'.calls, st.groups[m].ids)
  {
    hide Consumed, StageOk, ArrivalsOk, InsertedOf, OpsOf, RecordsOf, AllRecords, IdsOf, Tiled, LogOk;
    FinishedOk(st);
    FinishedOk(st');
    assert GroupOk(st.groups[m], st.calls, st.logs) && GroupOk(st'.groups[m], st'.calls, st'.logs);
  }

  lemma NotYet(st: State, st': State, m: nat)
    requires Inv(st) && Inv(st') && (Extends(st, st') || Extends(st', st)) && |st.groups| <= m < |st'.groups|
    ensures st.lastSequence < st'.groups[m].first
  {
    hide Consumed, StageOk, ArrivalsOk, InsertedOf, OpsOf, RecordsOf, AllRecords, IdsOf, Tiled, GroupOk, LogOk;
    FinishedOk(st');
    var n := |st.groups|;
    TiledAt(st'.groups, m);
    ConsumedGrows(st'.groups[..m], n);
    assert st'.groups[..m][..n] == st.groups;
  }

  // ----- the log -----

  /** `a` is `b` with some elements left out. */
  ghost predicate Subsequence(a: seq<Id>, b: seq<Id>) {
    if a == [] then true
    else if b == [] then false
    else (a[|a| - 1] == b[|b| - 1] && Subsequence(a[..|a| - 1], b[..|b| - 1])) || Subsequence(a, b[..|b| - 1])
  }

  lemma {:induction false} SubsequenceSkips(a: seq<Id>, b: seq<Id>, c: seq<Id>)
    requires Subsequence(a, b)
    ensures Subsequence(a, b + c)
    decreases |c|
  {
    if c == [] {
      assert b + c == b;
    } else {
      SubsequenceSkips(a, b, c[..|c| - 1]);
      assert (b + c)[..|b + c| - 1] == b + c[..|c| - 1];
    }
  }

  lemma {:induction false} SubsequenceTakes(a: seq<Id>, b: seq<Id>, c: seq<Id>)
    requires Subsequence(a, b)
    ensures Subsequence(a + c, b + c)
    decreases |c|
  {
    if c == [] {
      assert a + c == a && b + c == b;
    } else {
      SubsequenceTakes(a, b, c[..|c| - 1]);
      assert (a + c)[..|a + c| - 1] == a + c[..|c| - 1] && (b + c)[..|b + c| - 1] == b + c[..|c| - 1];
    }
  }

  /** The writers whose batches the log holds. */
  function LoggedIds(gs: seq<Group>): seq<Id> {
    if gs == [] then []
    else LoggedIds(gs[..|gs| - 1]) + if gs[|gs| - 1].at.Some? then gs[|gs| - 1].ids else []
  }

  function LoggedOps(rs: seq<Record>): seq<Op> {
    if rs == [] then [] else LoggedOps(rs[..|rs| - 1]) + rs[|rs| - 1].ops
  }

  lemma {:induction false} OpsOfConcat(a: seq<Call>, b: seq<Call>)
    ensures OpsOf(a + b) == OpsOf(a) + OpsOf(b)
    decreases |b|
  {
    if b == [] {
      assert a + b == a;
    } else {
      OpsOfConcat(a, b[..|b| - 1]);
      assert (a + b)[..|a + b| - 1] == a + b[..|b| - 1];
    }
  }

  lemma {:induction false} LoggedInOrder(gs: seq<Group>, calls: map<Id, Call>, logs: seq<LogFile>)
    requires forall i :: 0 <= i < |gs| ==> GroupOk(gs[i], calls, logs)
    ensures Subsequence(LoggedIds(gs), IdsOf(gs))
    ensures LoggedOps(RecordsOf(gs)) == OpsOf(CallsOf(calls, LoggedIds(gs)))
  {
    hide GroupOk, Subsequence, OpsOf, CallsOf, LoggedOps;
    if gs == [] {
      LoggedNothing(calls);
    } else {
      var p, g := gs[..|gs| - 1], gs[|gs| - 1];
      LoggedInOrder(p, calls, logs);
      if g.at.Some? {
        SubsequenceTakes(LoggedIds(p), IdsOf(p), g.ids);
        LoggedGroupOps(g, calls, logs);
        LoggedMore(calls, RecordsOf(p), LoggedIds(p), g);
      } else {
        SubsequenceSkips(LoggedIds(p), IdsOf(p), g.ids);
        assert RecordsOf(gs) == RecordsOf(p) && LoggedIds(gs) == LoggedIds(p);
      }
    }
  }

  lemma LoggedMore(calls: map<Id, Call>, rs: seq<Record>, ids: seq<Id>, g: Group)
    requires LoggedOps(rs) == OpsOf(CallsOf(calls, ids)) && g.ops == OpsOf(CallsOf(calls, g.ids))
    ensures LoggedOps(rs + [Record(g.first, g.ops)]) == OpsOf(CallsOf(calls, ids + g.ids))
  {
    hide OpsOf;
    assert CallsOf(calls, ids + g.ids) == CallsOf(calls, ids) + CallsOf(calls, g.ids);
    OpsOfConcat(CallsOf(calls, ids), CallsOf(calls, g.ids));
    assert (rs + [Record(g.first, g.ops)])[..|rs|] == rs;
  }

  lemma LoggedNothing(calls: map<Id, Call>)
    ensures Subsequence([], []) && OpsOf(CallsOf(calls, [])) == [] && LoggedOps([]) == []
  {
  }

  lemma LoggedGroupOps(g: Group, calls: map<Id, Call>, logs: seq<LogFile>)
    requires GroupOk(g, calls, logs) && g.at.Some?
    ensures g.ops == OpsOf(CallsOf(calls, g.ids))
  {
  }

  lemma {:induction false} LoggedIdsHas(gs: seq<Group>, m: nat, id: Id)
    requires m < |gs| && gs[m].at.Some? && id in gs[m].ids
    ensures id in LoggedIds(gs)
  {
    if m < |gs| - 1 {
      LoggedIdsHas(gs[..|gs| - 1], m, id);
    }
  }

  lemma {:induction false} SubsequenceNoRepeats(a: seq<Id>, b: seq<Id>)
    requires Subsequence(a, b) && NoRepeats(b)
    ensures NoRepeats(a) && forall x :: x in a ==> x in b
    decreases |b|
  {
    if a != [] {
      var b' := b[..|b| - 1];
      assert b == b' + [b[|b| - 1]];
      if a[|a| - 1] == b[|b| - 1] && Subsequence(a[..|a| - 1], b') {
        SubsequenceNoRepeats(a[..|a| - 1], b');
        assert a == a[..|a| - 1] + [a[|a| - 1]];
        assert b[|b| - 1] !in b';
      } else {
        SubsequenceNoRepeats(a, b');
      }
    }
  }

  /**
  Reading all log files in order gives the batches of a subsequence of the queue order, each
  writer at most once, and every committed batch is among them.
  */
  lemma LogFollowsQueue(st: State) returns (ids: seq<Id>)
    requires Inv(st)
    ensures Subsequence(ids, st.arrivals) && NoRepeats(ids)
    ensures LoggedOps(AllRecords(st.logs)) == OpsOf(CallsOf(st.calls, ids))
    ensures forall m: nat, k: nat :: Committed(st, m, k) ==> st.groups[m].ids[k] in ids
  {
    hide GroupOk, StageOk, Consumed, InsertedOf, IdsOf, OpsOf, AllRecords, Subsequence, Tiled, FailStop, LoggedIds, RecordsOf, LogOk;
    var gs := Open(st);
    ids := LoggedIds(gs);
    LoggedInOrder(gs, st.calls, st.logs);
    var rest := OpenIds(st);
    SubsequenceSkips(ids, IdsOf(gs), rest);
    SubsequenceNoRepeats(ids, st.arrivals);
    forall m: nat, k: nat | Committed(st, m, k) ensures st.groups[m].ids[k] in ids {
      FinishedOk(st);
      CommittedIsLogged(st, m, k);
      LoggedIdsHas(gs, m, st.groups[m].ids[k]);
    }
  }

  lemma OpenIds(st: State) returns (rest: seq<Id>)
    requires Inv(st)
    ensures IdsOf(Open(st)) + rest == st.arrivals
  {
    hide GroupsOk, ArrivalsOk, Consumed, InsertedOf, IdsOf, AllRecords, RecordsOf, OpsOf, LogOk;
    rest := st.queue;
    if !st.stage.Idle? {
      rest := st.queue[|st.cur.ids|..];
      FoldSnoc(st.groups, st.cur);
      assert st.queue == st.cur.ids + rest;
    }
  }

  lemma CommittedIsLogged(st: State, m: nat, k: nat)
    requires GroupsOk(st.groups, st.calls, st.logs) && Committed(st, m, k)
    ensures st.groups[m].at.Some? && InLog(st.groups[m], st.logs)
  {
    assert GroupOk(st.groups[m], st.calls, st.logs);
  }

  /** `ops` stands in `all` from `offset` on. */
  ghost predicate Holds(all: seq<Op>, offset: int, ops: seq<Op>) {
    0 <= offset && offset + |ops| <= |all| && forall x :: 0 <= x < |ops| ==> all[offset + x] == ops[x]
  }

  /** A write that asked for a sync and succeeded has its record in the synced part of its log file. */
  lemma SyncedWriteIsDurable(st: State, m: nat, k: nat)
    requires Inv(st) && Committed(st, m, k) && st.calls[st.groups[m].ids[k]].sync
    ensures
      var g := st.groups[m];
      var ops := st.calls[g.ids[k]].batch.value;
      var offset := BatchStart(g, st.calls, k) - g.first;
      && g.at.Some? && InLog(g, st.logs) && g.at.value.index < st.logs[g.at.value.file].synced
      && Holds(g.ops, offset, ops)
  {
    hide StageOk, ArrivalsOk, Consumed, InsertedOf, IdsOf, OpsOf, AllRecords, Tiled, FailStop, RecordsOf, LogOk;
    FinishedOk(st);
    CommittedIsLogged(st, m, k);
    var g := st.groups[m];
    assert GroupOk(g, st.calls, st.logs);
    OpsSlice(CallsOf(st.calls, g.ids), k);
    var ops, offset := st.calls[g.ids[k]].batch.value, BatchStart(g, st.calls, k) - g.first;
    forall x | 0 <= x < |ops| ensures g.ops[offset + x] == ops[x] {
      assert g.ops[offset..][..|ops|][x] == ops[x];
    }
  }

  /** After a failed sync no later write succeeds: what the log holds past it is never acknowledged. */
  lemma NothingAfterFailedSync(st: State, i: nat, j: nat)
    requires Inv(st) && i < j < |st.groups| && st.groups[i].syncFailed
    ensures !st.groups[j].ok
  {
    FinishedOk(st);
  }
}
