/**
The memtable's skip list: one inserter linking a node level by level, any number of readers
searching without locks. Every shared load and store is one step; steps interleave freely.
*/
module SkipList {
  import opened Common

  /** Internal keys, up to order isomorphism: only `<` and `==` are used. */
  type Key = real
  type Id = int

  const MAX_HEIGHT: nat := 12
  const HEAD: Id := 0

  datatype Query = AtOrAfter(target: Key) | LastBefore(bound: Key) | Last

  /** A search in progress: the node it stands on and the level it follows. */
  datatype Reader = Reader(query: Query, at: Id, level: nat)

  datatype Inserter =
    | Idle
    | Searching(key: Key, at: Id, level: nat, prev: map<nat, Id>)
    | Found(key: Key, prev: map<nat, Id>)
    | Linking(key: Key, node: Id, height: nat, prev: map<nat, Id>, level: nat, copied: bool)

  /**
  `links[l]` holds the level-l next pointers, `keys` the key of every allocated node.
  `chain[l]` is auxiliary: the nodes a walk over level l meets, from the head on.
  */
  datatype State = State(
    keys: map<Id, Key>, links: seq<map<Id, Option<Id>>>, maxHeight: nat,
    inserter: Inserter, readers: map<nat, Reader>,
    chain: seq<seq<Id>>)

  // ----- the invariant -----

  predicate Below(st: State, id: Id, k: Key) {
    id == HEAD || (id in st.keys && st.keys[id] < k)
  }

  predicate Above(st: State, next: Option<Id>, k: Key) {
    next.Some? ==> next.value in st.keys && k < st.keys[next.value]
  }

  function After(c: seq<Id>, i: nat): Option<Id> {
    if i + 1 < |c| then Some(c[i + 1]) else None
  }

  ghost predicate InOrder(keys: map<Id, Key>, c: seq<Id>) {
    && c != [] && c[0] == HEAD && HEAD !in keys
    && (forall i :: 1 <= i < |c| ==> c[i] in keys)
    && forall i, j :: 1 <= i < j < |c| ==> keys[c[i]] < keys[c[j]]
  }

  /** `c` is the walk over `next` from its first node on. */
  ghost predicate Linked(next: map<Id, Option<Id>>, c: seq<Id>) {
    forall i {:trigger c[i]} :: 0 <= i < |c| ==> c[i] in next && next[c[i]] == After(c, i)
  }

  /** Level l is one linked list from the head, sorted by key. */
  ghost predicate ListOk(st: State, l: nat)
    requires |st.chain| == |st.links| == MAX_HEIGHT && l < MAX_HEIGHT
  {
    InOrder(st.keys, st.chain[l]) && Linked(st.links[l], st.chain[l])
  }

  ghost predicate Sublist(st: State, l: nat)
    requires |st.chain| == MAX_HEIGHT && 0 < l < MAX_HEIGHT
  {
    forall id :: id in st.chain[l] ==> id in st.chain[l - 1]
  }

  ghost predicate ShapeOk(st: State) {
    && |st.chain| == |st.links| == MAX_HEIGHT && 1 <= st.maxHeight <= MAX_HEIGHT && HEAD !in st.keys
    && (forall l :: 0 <= l < MAX_HEIGHT ==> ListOk(st, l))
    && (forall l :: 0 < l < MAX_HEIGHT ==> Sublist(st, l))
    && (forall l :: st.maxHeight <= l < MAX_HEIGHT ==> st.chain[l] == [HEAD])
  }

  /** The search never stands past the node it is looking for. */
  ghost predicate StandsOk(st: State, at: Id, level: nat, k: Key)
    requires |st.chain| == MAX_HEIGHT
  {
    level < MAX_HEIGHT && at in st.chain[level] && Below(st, at, k)
  }

  ghost predicate ReaderOk(st: State, r: Reader)
    requires |st.chain| == MAX_HEIGHT
  {
    match r.query
    case AtOrAfter(k) => StandsOk(st, r.at, r.level, k)
    case LastBefore(k) => StandsOk(st, r.at, r.level, k)
    case Last => r.level < MAX_HEIGHT && r.at in st.chain[r.level]
  }

  /** `p` is the last node of level l before key `k`. */
  ghost predicate PrevOk(st: State, l: nat, p: Id, k: Key)
    requires |st.chain| == |st.links| == MAX_HEIGHT
  {
    StandsOk(st, p, l, k) && p in st.links[l] && Above(st, st.links[l][p], k)
  }

  ghost predicate PrevsOk(st: State, prev: map<nat, Id>, from: nat, to: nat, k: Key)
    requires |st.chain| == |st.links| == MAX_HEIGHT
  {
    forall l :: from <= l < to ==> l in prev && PrevOk(st, l, prev[l], k)
  }

  ghost predicate NewKey(st: State, k: Key)
    requires |st.chain| == MAX_HEIGHT
  {
    forall id :: id in st.chain[0] && id in st.keys ==> st.keys[id] != k
  }

  ghost predicate InserterOk(st: State)
    requires |st.chain| == |st.links| == MAX_HEIGHT
  {
    match st.inserter
    case Idle => true
    case Searching(k, at, level, prev) =>
      && NewKey(st, k) && level < st.maxHeight && StandsOk(st, at, level, k)
      && PrevsOk(st, prev, level + 1, st.maxHeight, k)
    case Found(k, prev) =>
      NewKey(st, k) && PrevsOk(st, prev, 0, st.maxHeight, k)
    case Linking(k, node, height, prev, level, copied) =>
      && level < height <= st.maxHeight <= MAX_HEIGHT && node != HEAD && node in st.keys && st.keys[node] == k
      && PrevsOk(st, prev, level, height, k)
      && (forall l :: 0 <= l < level ==> node in st.chain[l])
      && (forall l :: level <= l < MAX_HEIGHT ==> node !in st.chain[l])
      && (copied ==> node in st.links[level] && prev[level] in st.links[level] &&
                     st.links[level][node] == st.links[level][prev[level]])
  }

  ghost predicate Inv(st: State) {
    && ShapeOk(st) && InserterOk(st)
    && forall r :: r in st.readers ==> ReaderOk(st, st.readers[r])
  }

  // ----- the steps -----

  ghost predicate Init(st: State) {
    && st.keys == map[] && st.maxHeight == 1 && st.inserter == Idle && st.readers == map[]
    && st.links == seq(MAX_HEIGHT, _ => map[HEAD := None]) && st.chain == seq(MAX_HEIGHT, _ => [HEAD])
  }

  /** One turn of the search loop reads one link and moves right or down. */
  predicate MovesRight(st: State, q: Query, next: Option<Id>) {
    && next.Some? && next.value in st.keys
    && match q
       case AtOrAfter(k) => st.keys[next.value] < k
       case LastBefore(k) => st.keys[next.value] < k
       case Last => true
  }

  /** A reader starts at the head, on a level the list had at some point. */
  ghost predicate StartRead(st: State, st': State, r: nat, q: Query, level: nat) {
    level < st.maxHeight && st' == st.(readers := st.readers[r := Reader(q, HEAD, level)])
  }

  ghost predicate ReadLink(st: State, st': State, r: nat)
    requires |st.links| == MAX_HEIGHT
  {
    && r in st.readers
    && var s := st.readers[r];
       && s.level < MAX_HEIGHT && s.at in st.links[s.level]
       && var next := st.links[s.level][s.at];
          if MovesRight(st, s.query, next) then st' == st.(readers := st.readers[r := s.(at := next.value)])
          else if s.level > 0 then st' == st.(readers := st.readers[r := s.(level := s.level - 1)])
          else st' == st.(readers := st.readers - {r})
  }

  /** The answer a reader returns when it reads its last link in state `st`. */
  ghost predicate Answers(st: State, r: nat, next: Option<Id>)
    requires |st.links| == MAX_HEIGHT
  {
    && r in st.readers && st.readers[r].level == 0 && st.readers[r].at in st.links[0]
    && next == st.links[0][st.readers[r].at] && !MovesRight(st, st.readers[r].query, next)
  }

  ghost predicate StartInsert(st: State, st': State, k: Key)
    requires |st.chain| == MAX_HEIGHT
  {
    && st.inserter.Idle? && NewKey(st, k) && st.maxHeight > 0
    && st' == st.(inserter := Searching(k, HEAD, st.maxHeight - 1, map[]))
  }

  ghost predicate SearchInsert(st: State, st': State)
    requires |st.links| == MAX_HEIGHT
  {
    && st.inserter.Searching? && st.inserter.level < MAX_HEIGHT && st.inserter.at in st.links[st.inserter.level]
    && var i := st.inserter;
       var next := st.links[i.level][i.at];
       if MovesRight(st, AtOrAfter(i.key), next) then st' == st.(inserter := i.(at := next.value))
       else
         var prev := i.prev[i.level := i.at];
         if i.level > 0 then st' == st.(inserter := Searching(i.key, i.at, i.level - 1, prev))
         else st' == st.(inserter := Found(i.key, prev))
  }

  /** The height is drawn, the list height raised if needed, and the node allocated. */
  ghost predicate Allocate(st: State, st': State, height: nat, node: Id) {
    && st.inserter.Found? && 1 <= height <= MAX_HEIGHT && node != HEAD && node !in st.keys
    && var prev := map l: nat | l < MAX_HEIGHT && (l in st.inserter.prev || st.maxHeight <= l) ::
                     if l < st.maxHeight && l in st.inserter.prev then st.inserter.prev[l] else HEAD;
       st' == st.(keys := st.keys[node := st.inserter.key],
                  maxHeight := if height > st.maxHeight then height else st.maxHeight,
                  inserter := Linking(st.inserter.key, node, height, prev, 0, false))
  }

  /** The new node's own link: invisible until the node is published. */
  ghost predicate CopyLink(st: State, st': State)
    requires |st.links| == MAX_HEIGHT
  {
    && st.inserter.Linking? && !st.inserter.copied && st.inserter.level < MAX_HEIGHT
    && var i := st.inserter;
       && i.level in i.prev && i.prev[i.level] in st.links[i.level]
       && st' == st.(links := st.links[i.level := st.links[i.level][i.node := st.links[i.level][i.prev[i.level]]]],
                     inserter := i.(copied := true))
  }

  /** Where the published node appears in the level's walk. */
  ghost function Spliced(c: seq<Id>, prev: Id, node: Id): seq<Id> {
    if c == [] then [] else if c[0] == prev then [prev, node] + c[1..] else [c[0]] + Spliced(c[1..], prev, node)
  }

  ghost predicate Publish(st: State, st': State)
    requires |st.links| == |st.chain| == MAX_HEIGHT
  {
    && st.inserter.Linking? && st.inserter.copied && st.inserter.level < MAX_HEIGHT
    && var i := st.inserter;
       && i.level in i.prev
       && st' == st.(links := st.links[i.level := st.links[i.level][i.prev[i.level] := Some(i.node)]],
                     chain := st.chain[i.level := Spliced(st.chain[i.level], i.prev[i.level], i.node)],
                     inserter := if i.level + 1 < i.height then i.(level := i.level + 1, copied := false) else Idle)
  }

  datatype Action =
    | ReaderStarts(r: nat, q: Query, level: nat) | ReaderReads(r: nat)
    | InsertStarts(k: Key) | InsertReads | InsertAllocates(height: nat, node: Id) | InsertCopies | InsertPublishes

  ghost predicate Step(st: State, st': State, a: Action)
    requires |st.links| == |st.chain| == MAX_HEIGHT
  {
    match a
    case ReaderStarts(r, q, level) => StartRead(st, st', r, q, level)
    case ReaderReads(r) => ReadLink(st, st', r)
    case InsertStarts(k) => StartInsert(st, st', k)
    case InsertReads => SearchInsert(st, st')
    case InsertAllocates(height, node) => Allocate(st, st', height, node)
    case InsertCopies => CopyLink(st, st')
    case InsertPublishes => Publish(st, st')
  }

  // ----- every step keeps the invariant -----

  /** Nodes are only ever added, and keep their key. */
  ghost predicate Grows(st: State, st': State) {
    && |st.chain| == |st'.chain| == MAX_HEIGHT
    && (forall id :: id in st.keys ==> id in st'.keys && st'.keys[id] == st.keys[id])
    && (forall l, id :: 0 <= l < MAX_HEIGHT && id in st.chain[l] ==> id in st'.chain[l])
  }

  lemma ReadersStay(st: State, st': State)
    requires Grows(st, st') && st'.readers == st.readers
    requires forall r :: r in st.readers ==> ReaderOk(st, st.readers[r])
    ensures forall r :: r in st'.readers ==> ReaderOk(st', st'.readers[r])
  {
    forall r | r in st'.readers ensures ReaderOk(st', st'.readers[r]) {
      assert ReaderOk(st, st.readers[r]);
    }
  }

  /** Following a link from a node of the level stays on the level. */
  lemma LinkStays(st: State, l: nat, at: Id)
    requires ShapeOk(st) && l < MAX_HEIGHT && at in st.chain[l]
    ensures at in st.links[l]
    ensures st.links[l][at].Some? ==> st.links[l][at].value in st.chain[l] && st.links[l][at].value in st.keys
  {
    assert ListOk(st, l);
    var i: nat :| i < |st.chain[l]| && st.chain[l][i] == at;
  }

  lemma DropsDown(st: State, l: nat, at: Id)
    requires ShapeOk(st) && 0 < l < MAX_HEIGHT && at in st.chain[l]
    ensures at in st.chain[l - 1]
  {
    assert Sublist(st, l);
  }

  lemma HeadOnLevel(st: State, l: nat)
    requires ShapeOk(st) && l < MAX_HEIGHT
    ensures HEAD in st.chain[l]
  {
    assert ListOk(st, l);
  }

  lemma ReadLinkKeepsInv(st: State, st': State, r: nat)
    requires Inv(st) && ReadLink(st, st', r)
    ensures Inv(st') && Grows(st, st')
  {
    var s := st.readers[r];
    assert ReaderOk(st, s);
    LinkStays(st, s.level, s.at);
    if s.level > 0 { DropsDown(st, s.level, s.at); }
    SameList(st, st');
    forall q | q in st'.readers ensures ReaderOk(st', st'.readers[q]) {
      if q != r { assert ReaderOk(st, st.readers[q]); }
    }
  }

  /** Steps that touch only readers or the inserter's private variables. */
  lemma SameList(st: State, st': State)
    requires ShapeOk(st) && st'.keys == st.keys && st'.links == st.links && st'.chain == st.chain
    requires st'.maxHeight == st.maxHeight
    ensures ShapeOk(st') && Grows(st, st')
    ensures InserterOk(st) && st'.inserter == st.inserter ==> InserterOk(st')
  {
    forall l | 0 <= l < MAX_HEIGHT ensures ListOk(st', l) { assert ListOk(st, l); }
    forall l | 0 < l < MAX_HEIGHT ensures Sublist(st', l) { assert Sublist(st, l); }
    if InserterOk(st) && st'.inserter == st.inserter { PrevsStay(st, st'); }
  }

  lemma PrevsStay(st: State, st': State)
    requires ShapeOk(st) && st'.keys == st.keys && st'.links == st.links && st'.chain == st.chain
    ensures forall prev, from: nat, to: nat, k | PrevsOk(st, prev, from, to, k) :: PrevsOk(st', prev, from, to, k)
  {
    forall prev, from: nat, to: nat, k | PrevsOk(st, prev, from, to, k) ensures PrevsOk(st', prev, from, to, k) {
      forall l | from <= l < to ensures l in prev && PrevOk(st', l, prev[l], k) { assert PrevOk(st, l, prev[l], k); }
    }
  }

  lemma StartReadKeepsInv(st: State, st': State, r: nat, q: Query, level: nat)
    requires Inv(st) && StartRead(st, st', r, q, level)
    ensures Inv(st') && Grows(st, st')
  {
    SameList(st, st');
    HeadOnLevel(st, level);
    forall p | p in st'.readers ensures ReaderOk(st', st'.readers[p]) {
      if p != r { assert ReaderOk(st, st.readers[p]); }
    }
  }

  lemma StartInsertKeepsInv(st: State, st': State, k: Key)
    requires Inv(st) && StartInsert(st, st', k)
    ensures Inv(st') && Grows(st, st')
  {
    SameList(st, st');
    HeadOnLevel(st, st.maxHeight - 1);
    ReadersStay(st, st');
  }

  /** When the search cannot move right, it stands on the last node before the key. */
  lemma StopsAtPrev(st: State, l: nat, at: Id, k: Key)
    requires ShapeOk(st) && NewKey(st, k) && StandsOk(st, at, l, k)
    requires at in st.links[l] && !MovesRight(st, AtOrAfter(k), st.links[l][at])
    ensures PrevOk(st, l, at, k)
  {
    LinkStays(st, l, at);
    var next := st.links[l][at];
    if next.Some? { ReachesBottom(st, l, next.value); }
  }

  lemma {:induction false} ReachesBottom(st: State, l: nat, id: Id)
    requires ShapeOk(st) && l < MAX_HEIGHT && id in st.chain[l]
    ensures id in st.chain[0]
  {
    if l > 0 {
      DropsDown(st, l, id);
      ReachesBottom(st, l - 1, id);
    }
  }

  lemma SearchInsertKeepsInv(st: State, st': State)
    requires Inv(st) && SearchInsert(st, st')
    ensures Inv(st') && Grows(st, st')
  {
    var i := st.inserter;
    SameList(st, st');
    PrevsStay(st, st');
    ReadersStay(st, st');
    LinkStays(st, i.level, i.at);
    if !MovesRight(st, AtOrAfter(i.key), st.links[i.level][i.at]) {
      StopsAtPrev(st, i.level, i.at, i.key);
      if i.level > 0 { DropsDown(st, i.level, i.at); }
      var prev := i.prev[i.level := i.at];
      forall l | i.level <= l < st.maxHeight ensures l in prev && PrevOk(st', l, prev[l], i.key) {
        assert l > i.level ==> l in i.prev && PrevOk(st, l, i.prev[l], i.key);
      }
    }
  }

  /** Allocating a node changes no list; raising the height exposes levels that are still empty. */
  lemma AllocateKeepsInv(st: State, st': State, height: nat, node: Id)
    requires Inv(st) && Allocate(st, st', height, node)
    ensures Inv(st') && Grows(st, st')
  {
    forall l | 0 <= l < MAX_HEIGHT ensures ListOk(st', l) { assert ListOk(st, l); }
    forall l | 0 < l < MAX_HEIGHT ensures Sublist(st', l) { assert Sublist(st, l); }
    ReadersStay(st, st');
    var k, prev := st.inserter.key, st'.inserter.prev;
    forall l | 0 <= l < height ensures l in prev && PrevOk(st', l, prev[l], k) {
      assert ListOk(st, l);
      if l < st.maxHeight {
        assert l in st.inserter.prev && PrevOk(st, l, st.inserter.prev[l], k);
      } else {
        assert st.chain[l] == [HEAD] && st.links[l][HEAD] == None;
      }
    }
    forall l | 0 <= l < MAX_HEIGHT ensures node !in st'.chain[l] { assert ListOk(st, l); }
  }

  lemma CopyLinkKeepsInv(st: State, st': State)
    requires Inv(st) && CopyLink(st, st')
    ensures Inv(st') && Grows(st, st')
  {
    var i := st.inserter;
    forall l | 0 <= l < MAX_HEIGHT ensures ListOk(st', l) { assert ListOk(st, l); }
    forall l | 0 < l < MAX_HEIGHT ensures Sublist(st', l) { assert Sublist(st, l); }
    ReadersStay(st, st');
    forall l | i.level <= l < i.height ensures l in i.prev && PrevOk(st', l, i.prev[l], i.key) {
      assert PrevOk(st, l, i.prev[l], i.key);
    }
  }

  lemma {:induction false} SplicedAt(c: seq<Id>, prev: Id, node: Id) returns (p: nat)
    requires prev in c
    ensures p < |c| && c[p] == prev && Spliced(c, prev, node) == c[..p + 1] + [node] + c[p + 1..]
  {
    if c[0] == prev { p := 0; }
    else {
      var q := SplicedAt(c[1..], prev, node);
      p := q + 1;
      assert c == [c[0]] + c[1..];
      assert [c[0]] + c[1..][..q + 1] == c[..p + 1] && c[1..][q + 1..] == c[p + 1..];
    }
  }

  function InsertAt(c: seq<Id>, p: nat, node: Id): (r: seq<Id>)
    requires p < |c|
    ensures |r| == |c| + 1
    ensures forall j :: 0 <= j < |r| ==> r[j] == if j <= p then c[j] else if j == p + 1 then node else c[j - 1]
  {
    c[..p + 1] + [node] + c[p + 1..]
  }

  lemma SpliceKeepsOrder(keys: map<Id, Key>, c: seq<Id>, p: nat, node: Id)
    requires InOrder(keys, c) && p < |c| && node in keys
    requires p > 0 ==> keys[c[p]] < keys[node]
    requires p + 1 < |c| ==> keys[node] < keys[c[p + 1]]
    ensures InOrder(keys, InsertAt(c, p, node))
  {
    var c' := InsertAt(c, p, node);
    forall i, j | 1 <= i < j < |c'| ensures keys[c'[i]] < keys[c'[j]] {
      var i0, j0 := if i <= p then i else i - 1, if j <= p then j else j - 1;
      assert 1 <= i0 < j0 ==> keys[c[i0]] < keys[c[j0]];
    }
  }

  lemma SpliceKeepsLinks(next: map<Id, Option<Id>>, c: seq<Id>, p: nat, node: Id, next': map<Id, Option<Id>>)
    requires Linked(next, c) && p < |c| && node !in c && node in next
    requires forall i :: 0 <= i < |c| && i != p ==> c[i] != c[p]
    requires next[node] == next[c[p]] && next' == next[c[p] := Some(node)]
    ensures Linked(next', InsertAt(c, p, node))
  {
    var c' := InsertAt(c, p, node);
    forall j | 0 <= j < |c'| ensures c'[j] in next' && next'[c'[j]] == After(c', j) {
      var j0 := if j <= p then j else j - 1;
      assert c[j0] in next && next[c[j0]] == After(c, j0);
    }
  }

  lemma SplicedWalk(keys: map<Id, Key>, next: map<Id, Option<Id>>, c: seq<Id>, prev: Id, node: Id, next': map<Id, Option<Id>>)
    requires InOrder(keys, c) && Linked(next, c) && prev in c && node in keys && node !in c && node in next
    requires prev == HEAD || (prev in keys && keys[prev] < keys[node])
    requires prev in next && (next[prev].Some? ==> next[prev].value in keys && keys[node] < keys[next[prev].value])
    requires next[node] == next[prev] && next' == next[prev := Some(node)]
    ensures InOrder(keys, Spliced(c, prev, node)) && Linked(next', Spliced(c, prev, node))
    ensures forall id :: id in Spliced(c, prev, node) <==> id in c || id == node
  {
    var p := SplicedAt(c, prev, node);
    hide Spliced;
    assert next[c[p]] == After(c, p);
    SpliceKeepsOrder(keys, c, p, node);
    SpliceKeepsLinks(next, c, p, node, next');
    assert c == c[..p + 1] + c[p + 1..];
  }

  /** The published level is again one sorted list, with the new node in its place. */
  lemma PublishedList(st: State, st': State)
    requires Inv(st) && Publish(st, st')
    ensures ListOk(st', st.inserter.level)
    ensures forall id :: id in st'.chain[st.inserter.level] <==>
                         id in st.chain[st.inserter.level] || id == st.inserter.node
  {
    hide InOrder, Linked, Spliced, Sublist, ReaderOk;
    var i := st.inserter;
    assert PrevOk(st, i.level, i.prev[i.level], i.key) && ListOk(st, i.level);
    SplicedWalk(st.keys, st.links[i.level], st.chain[i.level], i.prev[i.level], i.node, st'.links[i.level]);
  }

  lemma PublishKeepsInv(st: State, st': State)
    requires Inv(st) && Publish(st, st')
    ensures Inv(st') && Grows(st, st')
  {
    hide InOrder, Linked, Spliced;
    var i := st.inserter;
    PublishedList(st, st');
    forall l | 0 <= l < MAX_HEIGHT ensures ListOk(st', l) { assert ListOk(st, l); }
    forall l | 0 < l < MAX_HEIGHT ensures Sublist(st', l) { assert Sublist(st, l); }
    ReadersStay(st, st');
    forall l | i.level < l < i.height ensures l in i.prev && PrevOk(st', l, i.prev[l], i.key) {
      assert PrevOk(st, l, i.prev[l], i.key);
    }
  }

  lemma StepKeepsInv(st: State, st': State, a: Action)
    requires Inv(st) && Step(st, st', a)
    ensures Inv(st') && Grows(st, st')
  {
    match a
    case ReaderStarts(r, q, level) => StartReadKeepsInv(st, st', r, q, level);
    case ReaderReads(r) => ReadLinkKeepsInv(st, st', r);
    case InsertStarts(k) => StartInsertKeepsInv(st, st', k);
    case InsertReads => SearchInsertKeepsInv(st, st');
    case InsertAllocates(height, node) => AllocateKeepsInv(st, st', height, node);
    case InsertCopies => CopyLinkKeepsInv(st, st');
    case InsertPublishes => PublishKeepsInv(st, st');
  }

  // ----- whole runs -----

  ghost predicate IsRun(run: seq<State>, acts: seq<Action>) {
    && |run| == |acts| + 1 && Init(run[0])
    && forall i :: 0 <= i < |acts| ==>
         |run[i].links| == |run[i].chain| == MAX_HEIGHT && Step(run[i], run[i + 1], acts[i])
  }

  lemma {:induction false} RunKeepsInv(run: seq<State>, acts: seq<Action>, i: nat)
    requires IsRun(run, acts) && i < |run|
    ensures Inv(run[i])
  {
    if i == 0 {
      forall l | 0 <= l < MAX_HEIGHT ensures ListOk(run[0], l) {}
      forall l | 0 < l < MAX_HEIGHT ensures Sublist(run[0], l) {}
    } else {
      RunKeepsInv(run, acts, i - 1);
      StepKeepsInv(run[i - 1], run[i], acts[i - 1]);
    }
  }

  lemma GrowsOn(a: State, b: State, c: State)
    requires Grows(a, b) && Grows(b, c)
    ensures Grows(a, c)
  {}

  /** Nothing a reader has reached ever leaves the list or changes its key. */
  lemma {:induction false} RunOnlyGrows(run: seq<State>, acts: seq<Action>, i: nat, j: nat)
    requires IsRun(run, acts) && i <= j < |run|
    ensures Grows(run[i], run[j])
    decreases j
  {
    hide Grows, Step, Init, InserterOk, ListOk, Sublist, ReaderOk;
    RunKeepsInv(run, acts, i);
    if i < j {
      RunOnlyGrows(run, acts, i, j - 1);
      RunKeepsInv(run, acts, j - 1);
      StepKeepsInv(run[j - 1], run[j], acts[j - 1]);
      GrowsOn(run[i], run[j - 1], run[j]);
    } else {
      GrowsSelf(run[i]);
    }
  }

  lemma GrowsSelf(st: State)
    requires |st.chain| == MAX_HEIGHT
    ensures Grows(st, st)
  {}

  // ----- what a search returns -----

  ghost predicate Stored(st: State, id: Id)
    requires |st.chain| == MAX_HEIGHT
  {
    id != HEAD && id in st.chain[0] && id in st.keys
  }

  /** The node a search returns, against the whole list in the state of its last link read. */
  ghost predicate Correct(st: State, q: Query, at: Id, next: Option<Id>)
    requires |st.chain| == MAX_HEIGHT
  {
    match q
    case AtOrAfter(k) =>
      if next.None? then forall id :: Stored(st, id) ==> st.keys[id] < k
      else Stored(st, next.value) && k <= st.keys[next.value]
           && forall id :: Stored(st, id) && k <= st.keys[id] ==> st.keys[next.value] <= st.keys[id]
    case LastBefore(k) =>
      if at == HEAD then forall id :: Stored(st, id) ==> k <= st.keys[id]
      else Stored(st, at) && st.keys[at] < k
           && forall id :: Stored(st, id) && st.keys[id] < k ==> st.keys[id] <= st.keys[at]
    case Last =>
      if at == HEAD then forall id :: !Stored(st, id)
      else Stored(st, at) && forall id :: Stored(st, id) ==> st.keys[id] <= st.keys[at]
  }

  lemma AnswerIsCorrect(st: State, r: nat, next: Option<Id>)
    requires Inv(st) && Answers(st, r, next)
    ensures Correct(st, st.readers[r].query, st.readers[r].at, next)
  {
    var s := st.readers[r];
    assert ReaderOk(st, s) && ListOk(st, 0);
    var c := st.chain[0];
    var p: nat :| p < |c| && c[p] == s.at;
    assert next == After(c, p);
    forall id | Stored(st, id)
      ensures (p > 0 && st.keys[id] <= st.keys[s.at]) || (next.Some? && st.keys[next.value] <= st.keys[id])
    {
      var j: nat :| j < |c| && c[j] == id;
    }
  }

  /** In every run, every search answers for the list as it is when it reads its last link. */
  lemma EverySearchIsLinearizable(run: seq<State>, acts: seq<Action>, i: nat, r: nat, next: Option<Id>)
    requires IsRun(run, acts) && i < |run|
    requires |run[i].links| == MAX_HEIGHT && Answers(run[i], r, next)
    ensures Inv(run[i]) && Correct(run[i], run[i].readers[r].query, run[i].readers[r].at, next)
  {
    RunKeepsInv(run, acts, i);
    AnswerIsCorrect(run[i], r, next);
  }

  /** Iterator::Next and SeekToFirst: the level-0 link of a node, or of the head, is its successor in key order. */
  lemma NextIsSuccessor(st: State, id: Id)
    requires Inv(st) && id in st.chain[0]
    ensures id in st.links[0] && (id == HEAD || id in st.keys)
    ensures
      match st.links[0][id]
      case None => forall y :: Stored(st, y) ==> id != HEAD && st.keys[y] <= st.keys[id]
      case Some(x) =>
        && Stored(st, x) && (id != HEAD ==> st.keys[id] < st.keys[x])
        && forall y :: Stored(st, y) ==> (id != HEAD && st.keys[y] <= st.keys[id]) || st.keys[x] <= st.keys[y]
  {
    assert ListOk(st, 0);
    var c := st.chain[0];
    var p: nat :| p < |c| && c[p] == id;
    assert st.links[0][id] == After(c, p);
    forall y | Stored(st, y)
      ensures (p > 0 && st.keys[y] <= st.keys[id]) || (p + 1 < |c| && st.keys[c[p + 1]] <= st.keys[y])
    {
      var j: nat :| j < |c| && c[j] == y;
    }
  }

  // ----- what an insert does -----

  ghost predicate HasKey(st: State, k: Key)
    requires |st.chain| == MAX_HEIGHT
  {
    exists id :: Stored(st, id) && st.keys[id] == k
  }

  /** An insert takes effect at one step, the level-0 publish: no other step changes the stored keys. */
  lemma InsertTakesEffectOnce(st: State, st': State, a: Action, k: Key)
    requires Inv(st) && Step(st, st', a)
    ensures |st'.chain| == MAX_HEIGHT
    ensures HasKey(st', k) <==>
            HasKey(st, k) || (a.InsertPublishes? && st.inserter.level == 0 && k == st.inserter.key)
  {
    StepKeepsInv(st, st', a);
    assert ListOk(st, 0);
    if a.InsertPublishes? {
      PublishedList(st, st');
      assert st.inserter.level == 0 ==> Stored(st', st.inserter.node);
    }
    assert forall id :: Stored(st, id) ==> Stored(st', id) && st'.keys[id] == st.keys[id];
    assert forall id :: Stored(st', id) ==> Stored(st, id) || (a.InsertPublishes? && st.inserter.level == 0 && id == st.inserter.node);
  }

  /** An insert ends only once its node is linked at every level of its height. */
  lemma InsertEndsComplete(st: State, st': State)
    requires Inv(st) && Publish(st, st') && st'.inserter.Idle?
    ensures forall l :: 0 <= l < st.inserter.height ==> l < MAX_HEIGHT && st.inserter.node in st'.chain[l]
  {
    var i := st.inserter;
    assert PrevOk(st, i.level, i.prev[i.level], i.key);
    SplicedHas(st.chain[i.level], i.prev[i.level], i.node);
  }

  lemma {:induction false} SplicedHas(c: seq<Id>, prev: Id, node: Id)
    requires prev in c
    ensures node in Spliced(c, prev, node)
  {
    if c[0] != prev {
      assert c == [c[0]] + c[1..];
      SplicedHas(c[1..], prev, node);
    }
  }
}
