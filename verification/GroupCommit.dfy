/**
The writer queue of db/db_impl.cc: the front writer commits its own batch and those of writers
queued behind it. Sections under the mutex are single steps; while the leader logs, syncs and
fills the memtable without the mutex, other steps interleave.
*/
module GroupCommit {
  import opened Common
  import opened Coding
  import opened WriteBatch

  // ----- choosing the group -----

  /** A call of Write: its batch (null for a forced memtable switch) and whether it wants a sync. */
  datatype Call = Call(batch: Option<seq<Op>>, sync: bool)

  function Size(c: Call): nat {
    if c.batch.Some? then HEADER + |Records(c.batch.value)| else 0
  }

  function TotalSize(cs: seq<Call>): nat {
    if cs == [] then 0 else TotalSize(cs[..|cs| - 1]) + Size(cs[|cs| - 1])
  }

  /** The updates of the non-null batches, in queue order. */
  function OpsOf(cs: seq<Call>): seq<Op> {
    if cs == [] then []
    else OpsOf(cs[..|cs| - 1]) + if cs[|cs| - 1].batch.Some? then cs[|cs| - 1].batch.value else []
  }

  function MaxSize(first: nat): nat {
    if first <= 0x2_0000 then first + 0x2_0000 else 0x10_0000
  }

  /** A non-null batch behind the leader is among the first n calls. */
  ghost predicate Joined(cs: seq<Call>, n: nat)
    requires n <= |cs|
  {
    exists i :: 1 <= i < n && cs[i].batch.Some?
  }

  /** The first n calls are a group: as many as the sync rule and the size limit allow. */
  ghost predicate IsGroup(cs: seq<Call>, n: nat) {
    && 1 <= n <= |cs| && cs[0].batch.Some?
    && (forall i :: 0 <= i < n && cs[i].sync ==> cs[0].sync)
    && (Joined(cs, n) ==> TotalSize(cs[..n]) <= MaxSize(Size(cs[0])))
    && (n < |cs| ==>
          || (cs[n].sync && !cs[0].sync)
          || (cs[n].batch.Some? && TotalSize(cs[..n + 1]) > MaxSize(Size(cs[0]))))
  }

  /** A queued writer as the source holds it: a pointer to the caller's batch. */
  datatype Writer = Writer(batch: Batch?, sync: bool)

  ghost function Abstract(ws: seq<Writer>): (cs: seq<Call>)
    reads set w | w in ws && w.batch != null :: w.batch
    ensures |cs| == |ws|
  {
    seq(|ws|, i requires 0 <= i < |ws|
      reads set w | w in ws && w.batch != null :: w.batch
      => Call(if ws[i].batch == null then None else Some(ws[i].batch.ops), ws[i].sync))
  }

  ghost predicate BatchesOk(ws: seq<Writer>, tmp: Batch)
    reads set w | w in ws && w.batch != null :: w.batch
  {
    forall i :: 0 <= i < |ws| && ws[i].batch != null ==> ws[i].batch != tmp && ws[i].batch.Valid()
  }

  lemma Snoc(cs: seq<Call>, n: nat)
    requires n < |cs|
    ensures cs[..n + 1][..n] == cs[..n]
    ensures TotalSize(cs[..n + 1]) == TotalSize(cs[..n]) + Size(cs[n])
    ensures OpsOf(cs[..n + 1]) == OpsOf(cs[..n]) + if cs[n].batch.Some? then cs[n].batch.value else []
  {
    assert cs[..n + 1][..n] == cs[..n];
  }

  lemma One(cs: seq<Call>)
    requires cs != [] && cs[0].batch.Some?
    ensures TotalSize(cs[..1]) == Size(cs[0]) && OpsOf(cs[..1]) == cs[0].batch.value
  {
    Snoc(cs, 0);
    assert cs[..0] == [];
  }

  /** BuildBatchGroup: collects into the caller's batch if it is alone, else into `tmp`; no caller's batch changes. */
  method BuildBatchGroup(ws: seq<Writer>, tmp: Batch) returns (result: Batch, n: nat)
    requires ws != [] && ws[0].batch != null && BatchesOk(ws, tmp) && tmp.Valid() && tmp.ops == []
    modifies tmp
    ensures IsGroup(Abstract(ws), n)
    ensures result.Valid() && result.ops == OpsOf(Abstract(ws)[..n])
    ensures result == tmp || result == ws[0].batch
  {
    hide TotalSize, OpsOf, Records, Rep;
    ghost var cs := Abstract(ws);
    result := ws[0].batch;
    var size := |ws[0].batch.rep|;
    var maxSize := if size <= 0x2_0000 then size + 0x2_0000 else 0x10_0000;
    n := 1;
    One(cs);
    while n < |ws|
      invariant 1 <= n <= |ws| && BatchesOk(ws, tmp) && Abstract(ws) == cs
      invariant size == TotalSize(cs[..n]) && maxSize == MaxSize(Size(cs[0]))
      invariant forall i :: 0 <= i < n && cs[i].sync ==> cs[0].sync
      invariant Joined(cs, n) ==> size <= maxSize
      invariant result.Valid() && result.ops == OpsOf(cs[..n])
      invariant result == tmp || (result == ws[0].batch && tmp.Valid() && tmp.ops == [])
    {
      var w := ws[n];
      Snoc(cs, n);
      if w.sync && !ws[0].sync {
        break;
      }
      if w.batch != null {
        size := size + |w.batch.rep|;
        if size > maxSize {
          break;
        }
        if result == ws[0].batch {
          result := tmp;
          result.Append(ws[0].batch);
        }
        result.Append(w.batch);
      }
      n := n + 1;
    }
  }
}
