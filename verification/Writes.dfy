/**
What writes mean: the history of a run reads as the map its updates build, one after the other.
*/
module Writes {
  import opened Common
  import opened Format
  import opened VersionModel
  import opened Lookup
  import opened Store
  import W = WriteBatch

  type Contents = map<UserKey, Blob>

  /** One update of the map: a value replaces, a deletion removes. */
  function Apply(m: Contents, op: Op): Contents {
    match op.kind
    case Value => m[op.user := op.value]
    case Deletion => m - {op.user}
  }

  function ApplyAll(m: Contents, ops: seq<Op>): Contents {
    if ops == [] then m else Apply(ApplyAll(m, ops[..|ops| - 1]), ops[|ops| - 1])
  }

  /** The updates of a run, in order. */
  function Built(actions: seq<Action>): Contents {
    if actions == [] then map[]
    else
      var before, a := Built(actions[..|actions| - 1]), actions[|actions| - 1];
      if a.DoWrite? then ApplyAll(before, a.ops) else before
  }

  function Shown(m: Contents, u: UserKey): Option<Blob> {
    if u in m then Some(m[u]) else None
  }

  /** `j` is the last of the first `i` updates that touches `u`. */
  predicate LastOf(ops: seq<Op>, i: nat, u: UserKey, j: nat) {
    j < i <= |ops| && ops[j].user == u && forall k :: j < k < i ==> ops[k].user != u
  }

  /** The history numbers its entries up to the last sequence number, each number once per key. */
  ghost predicate Numbered(st: State) {
    Distinct(st.history) && forall e :: e in st.history ==> e.key.seqno <= st.lastSequence
  }

  // ----- one batch -----

  /** The last update of the key in the batch decides, at any position inside the batch. */
  lemma LastUpdateDecides(st: State, st': State, ops: seq<Op>, i: nat, u: UserKey, j: nat)
    requires Numbered(st) && Write(st, st', ops) && LastOf(ops, i, u, j)
    ensures Read(st'.history, u, st.lastSequence + i) == if ops[j].kind.Value? then Some(ops[j].value) else None
  {
    var first, s := st.lastSequence + 1, st.lastSequence + i;
    var e := BatchEntry(ops, first, j);
    assert e in BatchEntries(ops, first);
    forall o | o in st'.history && Candidate(o, u, s) ensures o.key.seqno <= e.key.seqno {
      if o in BatchEntries(ops, first) {
        var k :| 0 <= k < |ops| && o == BatchEntry(ops, first, k);
      }
    }
    NumberedMore(st, st', ops);
    ReadIs(st'.history, u, s, e);
  }

  /** A key the batch does not touch, up to a position, reads as before it. */
  lemma UntouchedReadsBefore(st: State, st': State, ops: seq<Op>, i: nat, u: UserKey)
    requires Numbered(st) && Write(st, st', ops) && i <= |ops| && forall j :: 0 <= j < i ==> ops[j].user != u
    ensures Read(st'.history, u, st.lastSequence + i) == Read(st.history, u, st.lastSequence)
  {
    var first, s := st.lastSequence + 1, st.lastSequence + i;
    NumberedMore(st, st', ops);
    forall k: nat | k < |ops| ensures !Candidate(BatchEntry(ops, first, k), u, s) {
    }
    ReadCongruence(st'.history, st.history, u, s);
    ReadPast(st, u, s);
  }

  lemma ReadPast(st: State, u: UserKey, s: nat)
    requires Numbered(st) && st.lastSequence <= s
    ensures Read(st.history, u, s) == Read(st.history, u, st.lastSequence)
  {
    if o :| o in st.history && Candidate(o, u, s) {
      var m := NewestExists(st.history, u, s, o);
      ReadIs(st.history, u, s, m);
      ReadIs(st.history, u, st.lastSequence, m);
    } else {
      ReadNone(st.history, u, s);
      ReadNone(st.history, u, st.lastSequence);
    }
  }

  lemma NumberedMore(st: State, st': State, ops: seq<Op>)
    requires Numbered(st) && Write(st, st', ops)
    ensures Numbered(st')
  {
    var B := BatchEntries(ops, st.lastSequence + 1);
    forall e | e in B ensures st.lastSequence < e.key.seqno <= st.lastSequence + |ops| {
    }
    assert Distinct(B + st.history);
    assert st'.history == B + st.history;
  }

  /** What a key shows after the first `i` updates: the last of them that touches it, or what was there. */
  lemma {:induction false} ApplyAllShows(m: Contents, ops: seq<Op>, i: nat, u: UserKey, j: nat)
    requires LastOf(ops, i, u, j)
    ensures Shown(ApplyAll(m, ops[..i]), u) == if ops[j].kind.Value? then Some(ops[j].value) else None
    decreases i
  {
    assert ops[..i][..i - 1] == ops[..i - 1];
    if j < i - 1 {
      ApplyAllShows(m, ops, i - 1, u, j);
    }
  }

  lemma {:induction false} ApplyAllKeeps(m: Contents, ops: seq<Op>, i: nat, u: UserKey)
    requires i <= |ops| && forall j :: 0 <= j < i ==> ops[j].user != u
    ensures Shown(ApplyAll(m, ops[..i]), u) == Shown(m, u)
    decreases i
  {
    if i > 0 {
      assert ops[..i][..i - 1] == ops[..i - 1];
      ApplyAllKeeps(m, ops, i - 1, u);
    }
  }

  lemma {:induction false} LastExists(ops: seq<Op>, i: nat, u: UserKey) returns (j: nat)
    requires i <= |ops| && exists k :: 0 <= k < i && ops[k].user == u
    ensures LastOf(ops, i, u, j)
    decreases i
  {
    if ops[i - 1].user == u {
      j := i - 1;
    } else {
      j := LastExists(ops, i - 1, u);
    }
  }

  /** Reading `i` sequence numbers into a batch shows exactly its first `i` updates, over what was there. */
  lemma BatchReadsInOrder(st: State, st': State, ops: seq<Op>, i: nat, m: Contents)
    requires Numbered(st) && Write(st, st', ops) && i <= |ops|
    requires forall u :: Read(st.history, u, st.lastSequence) == Shown(m, u)
    ensures forall u :: Read(st'.history, u, st.lastSequence + i) == Shown(ApplyAll(m, ops[..i]), u)
  {
    forall u ensures Read(st'.history, u, st.lastSequence + i) == Shown(ApplyAll(m, ops[..i]), u) {
      if exists k :: 0 <= k < i && ops[k].user == u {
        var j := LastExists(ops, i, u);
        ApplyAllShows(m, ops, i, u, j);
        LastUpdateDecides(st, st', ops, i, u, j);
      } else {
        ApplyAllKeeps(m, ops, i, u);
        UntouchedReadsBefore(st, st', ops, i, u);
      }
    }
  }

  // ----- every run -----

  lemma StepKeepsNumbered(st: State, a: Action, st': State)
    requires |st.v.levels| == NUM_LEVELS && Numbered(st) && Step(st, a, st')
    ensures Numbered(st')
  {
    if a.DoWrite? {
      NumberedMore(st, st', a.ops);
    }
  }

  /** On every run, sound or not, the history reads as the map that the run's updates build. */
  lemma {:induction false} HistoryReadsBuilt(states: seq<State>, actions: seq<Action>, i: nat)
    requires Run(states, actions) && Init(states[0]) && i < |states|
    ensures Numbered(states[i])
    ensures forall u :: Read(states[i].history, u, states[i].lastSequence) == Shown(Built(actions[..i]), u)
  {
    hide Numbered, ApplyAll;
    if i == 0 {
      EmptyHistory(states[0]);
    } else {
      var st, a, st' := states[i - 1], actions[i - 1], states[i];
      HistoryReadsBuilt(states, actions, i - 1);
      assert actions[..i][..i - 1] == actions[..i - 1] && actions[..i][i - 1] == a;
      StepKeepsNumbered(st, a, st');
      if a.DoWrite? {
        BatchReadsInOrder(st, st', a.ops, |a.ops|, Built(actions[..i - 1]));
        assert a.ops[..|a.ops|] == a.ops;
      } else {
        assert st'.history == st.history && st'.lastSequence == st.lastSequence;
      }
    }
  }

  lemma EmptyHistory(st: State)
    requires Init(st)
    ensures Numbered(st) && forall u :: Read(st.history, u, st.lastSequence) == None
  {
    forall u ensures Read(st.history, u, st.lastSequence) == None {
      ReadNone(st.history, u, st.lastSequence);
    }
  }

  /**
  What a database promises: at every moment of a run whose installs so far were sound, the
  store reads as the map that the updates written so far build.
  */
  lemma StoreReadsBuilt(states: seq<State>, actions: seq<Action>, i: nat, u: UserKey)
    requires Run(states, actions) && Init(states[0]) && i < |states| && SoundUpTo(states, actions, i)
    ensures Read(Stored(states[i]), u, states[i].lastSequence) == Shown(Built(actions[..i]), u)
  {
    hide Init, Run, SoundUpTo, Read, Stored, Numbered, Built;
    HistoryReadsBuilt(states, actions, i);
    EveryRunReadsHistory(states, actions, i, u, states[i].lastSequence);
  }

  /** A snapshot taken at state i, while held, reads as the map the updates up to i build, whatever was written since. */
  lemma SnapshotReadsBuilt(states: seq<State>, actions: seq<Action>, i: nat, j: nat, u: UserKey)
    requires Run(states, actions) && Init(states[0]) && i <= j < |states| && SoundUpTo(states, actions, j)
    requires states[i].lastSequence in states[j].snaps
    ensures Read(Stored(states[j]), u, states[i].lastSequence) == Shown(Built(actions[..i]), u)
  {
    hide Init, Run, SoundUpTo, Read, Stored, Numbered, Built;
    HistoryReadsBuilt(states, actions, i);
    SnapshotIsolation(states, actions, i, j, u, states[i].lastSequence);
  }

  /** DBImpl::Get at the end of a run. */
  method GetLatest(states: seq<State>, ghost actions: seq<Action>, u: UserKey) returns (r: Option<Blob>)
    requires Run(states, actions) && Init(states[0]) && SoundUpTo(states, actions, |actions|)
    ensures r == Shown(Built(actions), u)
  {
    var n := |states| - 1;
    RunInv(states, actions, n);
    HistoryReadsBuilt(states, actions, n);
    assert actions[..n] == actions;
    r := GetAt(states[n], u, states[n].lastSequence);
  }

  lemma RunInv(states: seq<State>, actions: seq<Action>, i: nat)
    requires Run(states, actions) && Init(states[0]) && i < |states| && SoundUpTo(states, actions, i)
    ensures Inv(states[i]) && Horizon(states[i]) <= states[i].lastSequence
  {
    InitInv(states[0]);
    RunKeepsInvIff(states, actions, i);
    assert Inv(states[i]);
  }

  /** The type byte of an update in a batch is the one its entry carries in the trailer of its internal key. */
  lemma KindBytesAgree(op: W.Op, u: UserKey, s: nat)
    ensures W.RecordBytes(op)[0] == Tag(IKey(u, s, if op.Put? then Value else Deletion)) % 256
  {
    assert (s * 256 + 1) % 256 == 1 && s * 256 % 256 == 0;
  }
}
