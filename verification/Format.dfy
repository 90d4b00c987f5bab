/**
Internal keys, entries and the flat reference store.

User keys are ordered by a user-supplied comparator, which the store treats as
an arbitrary total order on byte strings. There are countably many byte
strings, and every countable total order embeds in the rationals, so a `real`
stands for a user key up to the order isomorphism: nothing below uses anything
but `<` and `==` on it.
*/
module Format {
  import opened Common

  type UserKey = real
  type Blob = seq<bv8>

  const MAX_SEQUENCE: nat := 0xFF_FFFF_FFFF_FFFF

  /** kTypeDeletion = 0, kTypeValue = 1. */
  datatype Kind = Deletion | Value

  datatype IKey = IKey(user: UserKey, seqno: nat, kind: Kind)

  datatype Entry = Entry(key: IKey, value: Blob)

  /** The 64-bit trailer of an internal key: the sequence number above a type byte. */
  function Tag(k: IKey): nat {
    k.seqno * 256 + if k.kind.Value? then 1 else 0
  }

  /** InternalKeyComparator: user key ascending, then trailer descending. */
  predicate Less(a: IKey, b: IKey) {
    a.user < b.user || (a.user == b.user && Tag(a) > Tag(b))
  }

  predicate AtMost(a: IKey, b: IKey) {
    !Less(b, a)
  }

  /** The key that sorts before every entry of `u` numbered `s` or lower. */
  function SeekKey(u: UserKey, s: nat): IKey {
    IKey(u, s, Value)
  }

  predicate StrictlySorted(es: seq<Entry>) {
    forall i, j :: 0 <= i < j < |es| ==> Less(es[i].key, es[j].key)
  }

  function SetOf(es: seq<Entry>): set<Entry> {
    set e | e in es
  }

  // ----- the flat store -----

  /** At most one entry for each (user key, sequence number). */
  ghost predicate Distinct(E: set<Entry>) {
    forall a, b :: a in E && b in E && a.key.user == b.key.user && a.key.seqno == b.key.seqno ==> a == b
  }

  /** `e` is an entry of `u` that a reader at snapshot `s` may look at. */
  predicate Candidate(e: Entry, u: UserKey, s: nat) {
    e.key.user == u && e.key.seqno <= s
  }

  /** `e` is the highest-numbered entry of `u` at or below snapshot `s`. */
  ghost predicate IsNewest(E: set<Entry>, u: UserKey, s: nat, e: Entry) {
    e in E && Candidate(e, u, s) &&
    forall o :: o in E && Candidate(o, u, s) ==> o.key.seqno <= e.key.seqno
  }

  /** What a reader sees of one entry: a deletion marker reads as absence. */
  function Outcome(e: Entry): Option<Blob> {
    if e.key.kind.Value? then Some(e.value) else None
  }

  /** The reference meaning of a read: the newest entry decides. */
  ghost function Read(E: set<Entry>, u: UserKey, s: nat): Option<Blob> {
    if exists e :: IsNewest(E, u, s, e) then
      var e :| IsNewest(E, u, s, e);
      Outcome(e)
    else None
  }

  lemma ReadIs(E: set<Entry>, u: UserKey, s: nat, e: Entry)
    requires Distinct(E) && IsNewest(E, u, s, e)
    ensures Read(E, u, s) == Outcome(e)
  {
    forall o | IsNewest(E, u, s, o)
      ensures o == e
    {
      assert o.key.seqno == e.key.seqno;
    }
  }

  lemma ReadNone(E: set<Entry>, u: UserKey, s: nat)
    requires forall e :: e in E ==> !Candidate(e, u, s)
    ensures Read(E, u, s) == None
  {
  }

  /** Every non-empty candidate set has a newest member. */
  lemma {:induction false} NewestExists(E: set<Entry>, u: UserKey, s: nat, e: Entry) returns (m: Entry)
    requires e in E && Candidate(e, u, s)
    ensures IsNewest(E, u, s, m)
    decreases s - e.key.seqno
  {
    if o :| o in E && Candidate(o, u, s) && o.key.seqno > e.key.seqno {
      m := NewestExists(E, u, s, o);
    } else {
      m := e;
    }
  }

  /** Sets that agree on every newest entry of `u` at `s` read alike. */
  lemma ReadCongruence(E: set<Entry>, F: set<Entry>, u: UserKey, s: nat)
    requires Distinct(E) && Distinct(F)
    requires forall e :: Candidate(e, u, s) ==> (e in E <==> e in F)
    ensures Read(E, u, s) == Read(F, u, s)
  {
    if e :| e in E && Candidate(e, u, s) {
      var m := NewestExists(E, u, s, e);
      ReadIs(E, u, s, m);
      ReadIs(F, u, s, m);
    } else {
      ReadNone(E, u, s);
      ReadNone(F, u, s);
    }
  }

  // ----- seeking in a sorted run of entries -----

  /** Index of the first entry at or after `k`; the length when there is none. */
  function FirstAtOrAfter(es: seq<Entry>, k: IKey): (i: nat)
    ensures i <= |es|
    ensures forall j :: 0 <= j < i ==> Less(es[j].key, k)
    ensures i < |es| ==> AtMost(k, es[i].key)
  {
    if es == [] || AtMost(k, es[0].key) then 0
    else 1 + FirstAtOrAfter(es[1..], k)
  }

  datatype Found = NotHere | Hit(entry: Entry)

  /** Point lookup in one sorted run: seek, then compare the user key. */
  function SeekIn(es: seq<Entry>, u: UserKey, s: nat): Found {
    var i := FirstAtOrAfter(es, SeekKey(u, s));
    if i < |es| && es[i].key.user == u then Hit(es[i]) else NotHere
  }

  /** Seeking to (u, s) lands on the newest entry of `u` at or below `s`, if the run has one. */
  lemma SeekFindsNewest(es: seq<Entry>, u: UserKey, s: nat)
    requires StrictlySorted(es)
    ensures SeekIn(es, u, s).Hit? ==> IsNewest(SetOf(es), u, s, SeekIn(es, u, s).entry)
    ensures SeekIn(es, u, s).NotHere? ==> forall e :: e in SetOf(es) ==> !Candidate(e, u, s)
  {
    var i := FirstAtOrAfter(es, SeekKey(u, s));
    forall e | e in SetOf(es) && Candidate(e, u, s)
      ensures i < |es| && es[i].key.user == u && e.key.seqno <= es[i].key.seqno
    {
      var j :| 0 <= j < |es| && es[j] == e;
      assert !Less(e.key, SeekKey(u, s));
      assert i <= j;
      assert i < j ==> Less(es[i].key, es[j].key);
    }
    if i < |es| && es[i].key.user == u {
      assert es[i] in SetOf(es);
    }
  }
}
