/** Why the walk over the priority index is a greedy merge of the sender queues. The walk keeps one
    fact: apart from the sender being drained, every waiting transaction lies beyond the node the
    walk has reached. */
module IterationProof {
  import opened SkipList
  import opened PriorityIndices
  import opened GreedyMerge

  /** The weight of a sender's transactions under a shared priority: what its highest nonce pays. */
  ghost function TieWeight<T>(q: Queues<T>, s: Address): int {
    if s in q && q[s] != [] then LastPriority(q[s]) else 0
  }

  /** The transactions that share their priority with another one, by the priority counts. */
  ghost function TiedIds<T>(counts: map<int, int>, c: map<Id, Entry<T>>): set<Id> {
    set id | id in c && Get(counts, c[id].priority, 0) > 1
  }

  ghost function Reweigh<T>(q: Queues<T>, c: map<Id, Entry<T>>, ids: set<Id>): map<Id, Entry<T>> {
    map id | id in c :: if id in ids then c[id].(weight := TieWeight(q, id.sender)) else c[id]
  }

  /** Every transaction that shares its priority carries its sender's tie weight. */
  ghost predicate TiesReordered<T>(l: seq<Node<PriorityKey, T>>, q: Queues<T>, c: map<Id, Entry<T>>) {
    forall id {:trigger c[id]} :: id in c && Count(l, HasPriority(c[id].priority)) > 1 ==>
      c[id].weight == TieWeight(q, id.sender)
  }

  lemma ReweighReordersTies<T>(l: seq<Node<PriorityKey, T>>, counts: map<int, int>, q: Queues<T>, c: map<Id, Entry<T>>)
    requires CountsMatch(counts, l)
    ensures TiesReordered(l, q, Reweigh(q, c, TiedIds(counts, c)))
  {
    var c' := Reweigh(q, c, TiedIds(counts, c));
    forall id | id in c' && Count(l, HasPriority(c'[id].priority)) > 1
      ensures c'[id].weight == TieWeight(q, id.sender)
    {
      assert Get(counts, c[id].priority, 0) == Count(l, HasPriority(c[id].priority));
    }
  }

  /** Another stored transaction has the same priority. */
  ghost predicate IsShared<T>(c: map<Id, Entry<T>>, id: Id)
    requires id in c
  {
    exists other :: other in c && other != id && c[other].priority == c[id].priority
  }

  /** `last` is the stored transaction of its sender with the highest nonce. */
  ghost predicate IsLast<T>(c: map<Id, Entry<T>>, last: Id) {
    last in c && forall other :: other in c && other.sender == last.sender ==> other.nonce <= last.nonce
  }

  /** The same transactions with the same priorities; those that share their priority weigh what the
      highest nonce of their sender pays, and the others weigh what they did. */
  ghost predicate WeighsTies<T>(c: map<Id, Entry<T>>, c': map<Id, Entry<T>>) {
    && c'.Keys == c.Keys
    && (forall id {:trigger c'[id]} :: id in c ==> c'[id].tx == c[id].tx && c'[id].priority == c[id].priority)
    && (forall id {:trigger c'[id]} :: id in c && !IsShared(c, id) ==> c'[id].weight == c[id].weight)
    && forall id, last {:trigger IsShared(c, id), IsLast(c, last)} ::
         id in c && IsShared(c, id) && IsLast(c, last) && last.sender == id.sender ==> c'[id].weight == c[last].priority
  }

  lemma TieWeightIsOfTheLast<T>(q: Queues<T>, c: map<Id, Entry<T>>, last: Id)
    requires SendersMatch(q, c) && IsLast(c, last)
    ensures TieWeight(q, last.sender) == c[last].priority
  {
    var queue := q[last.sender];
    assert SenderNode(last, c[last]) in queue;
    forall m | m in queue ensures m.key <= last.nonce {
      assert QueueMatches(last.sender, queue, c);
    }
    LastPriorityIsOfTheHighestNonce(queue, SenderNode(last, c[last]));
  }

  /** What the priority counts call shared is shared by another stored transaction. */
  lemma TiedIffShared<T(!new)>(l: seq<Node<PriorityKey, T>>, counts: map<int, int>, c: map<Id, Entry<T>>, id: Id)
    requires PriorityIndexMatches(l, c) && CountsMatch(counts, l) && id in c
    ensures id in TiedIds(counts, c) <==> IsShared(c, id)
  {
    var p := c[id].priority;
    assert Get(counts, p, 0) == Count(l, HasPriority(p));
    if Count(l, HasPriority(p)) > 1 {
      var i, j := CountedTwice(l, HasPriority(p));
      IndexIdsDiffer(l, c, i, j);
      assert l[i] in l && l[j] in l;
      assert IdOf(l[i].key) != id || IdOf(l[j].key) != id;
    }
    if other :| other in c && other != id && c[other].priority == p {
      SharedPriority(l, c, id, other);
    }
  }

  lemma ReweighWeighsTies<T(!new)>(l: seq<Node<PriorityKey, T>>, counts: map<int, int>, q: Queues<T>, scores: map<Id, Score>, c: map<Id, Entry<T>>)
    requires Consistent(l, counts, q, scores, c)
    ensures WeighsTies(c, Reweigh(q, c, TiedIds(counts, c)))
  {
    var c' := Reweigh(q, c, TiedIds(counts, c));
    hide CountsMatch, PriorityIndexMatches, SendersMatch, ScoresMatch, TiedIds, IsShared;
    forall id | id in c && !IsShared(c, id) ensures c'[id].weight == c[id].weight {
      TiedIffShared(l, counts, c, id);
    }
    forall id, last | id in c && IsShared(c, id) && IsLast(c, last) && last.sender == id.sender
      ensures c'[id].weight == c[last].priority
    {
      TiedIffShared(l, counts, c, id);
      TieWeightIsOfTheLast(q, c, last);
    }
  }

  lemma ReweighOneMore<T>(q: Queues<T>, c: map<Id, Entry<T>>, ids: set<Id>, id: Id)
    requires id in c && id !in ids
    ensures Reweigh(q, c, ids)[id] == c[id]
    ensures Reweigh(q, c, ids)[id := c[id].(weight := TieWeight(q, id.sender))] == Reweigh(q, c, ids + {id})
  {
  }

  /** Different positions of the priority index hold different transactions. */
  lemma IndexIdsDiffer<T>(l: seq<Node<PriorityKey, T>>, c: map<Id, Entry<T>>, i: nat, j: nat)
    requires PriorityIndexMatches(l, c) && i < j < |l|
    ensures IdOf(l[i].key) != IdOf(l[j].key)
  {
    assert Higher(l[i].key, l[j].key);
    assert l[i] in l && l[j] in l;
  }

  datatype ReorderKey<T> = ReorderKey(deleteKey: PriorityKey, insertKey: PriorityKey, tx: T)

  /** The re-keying the reordering collects from the first `n` nodes of the priority index. */
  ghost function TieKeys<T>(l: seq<Node<PriorityKey, T>>, counts: map<int, int>, q: Queues<T>, n: nat): seq<ReorderKey<T>>
    requires n <= |l|
  {
    if n == 0 then []
    else
      var key := l[n - 1].key;
      TieKeys(l, counts, q, n - 1) +
      if Get(counts, key.priority, 0) > 1
      then [ReorderKey(key, key.(weight := TieWeight(q, key.sender)), l[n - 1].value)]
      else []
  }

  ghost predicate DistinctIds<T>(r: seq<ReorderKey<T>>) {
    forall i, j :: 0 <= i < j < |r| ==> IdOf(r[i].deleteKey) != IdOf(r[j].deleteKey)
  }

  /** `r` re-keys a stored transaction of a shared priority to its sender's tie weight. */
  ghost predicate IsTieKey<T>(r: ReorderKey<T>, counts: map<int, int>, q: Queues<T>, c: map<Id, Entry<T>>) {
    var id := IdOf(r.deleteKey);
    && id in TiedIds(counts, c)
    && Node(r.deleteKey, r.tx) == PriorityNode(id, c[id])
    && r.insertKey == KeyOf(id, c[id].priority, TieWeight(q, id.sender))
  }

  lemma ReweighKeepsTieKey<T>(r: ReorderKey<T>, counts: map<int, int>, q: Queues<T>, c: map<Id, Entry<T>>, ids: set<Id>)
    requires IsTieKey(r, counts, q, c) && IdOf(r.deleteKey) !in ids
    ensures IsTieKey(r, counts, q, Reweigh(q, c, ids))
    ensures r.insertKey.weight == TieWeight(q, IdOf(r.deleteKey).sender)
    ensures IdOf(r.deleteKey) in c
  {
  }

  lemma ReweighNone<T>(q: Queues<T>, c: map<Id, Entry<T>>)
    ensures Reweigh(q, c, {}) == c
  {
  }

  lemma {:induction false} TieKeysComeFromTheIndex<T>(l: seq<Node<PriorityKey, T>>, counts: map<int, int>, q: Queues<T>, n: nat)
    requires n <= |l|
    ensures forall r {:trigger r in TieKeys(l, counts, q, n)} :: r in TieKeys(l, counts, q, n) ==>
              && Node(r.deleteKey, r.tx) in l[..n]
              && Get(counts, r.deleteKey.priority, 0) > 1
              && r.insertKey == r.deleteKey.(weight := TieWeight(q, r.deleteKey.sender))
  {
    if n > 0 {
      TieKeysComeFromTheIndex(l, counts, q, n - 1);
      assert l[..n] == l[..n - 1] + [l[n - 1]];
    }
  }

  lemma {:induction false} TieKeysAreDistinct<T>(l: seq<Node<PriorityKey, T>>, counts: map<int, int>, q: Queues<T>,
                                                 c: map<Id, Entry<T>>, n: nat)
    requires PriorityIndexMatches(l, c) && n <= |l|
    ensures DistinctIds(TieKeys(l, counts, q, n))
  {
    if n > 0 {
      TieKeysAreDistinct(l, counts, q, c, n - 1);
      TieKeysComeFromTheIndex(l, counts, q, n - 1);
      var before := TieKeys(l, counts, q, n - 1);
      forall i | 0 <= i < |before| ensures IdOf(before[i].deleteKey) != IdOf(l[n - 1].key) {
        assert before[i] in before;
        var j :| 0 <= j < n - 1 && l[j] == Node(before[i].deleteKey, before[i].tx);
        IndexIdsDiffer(l, c, j, n - 1);
      }
    }
  }

  lemma {:induction false} TieKeysCoverTheIndex<T>(l: seq<Node<PriorityKey, T>>, counts: map<int, int>, q: Queues<T>, n: nat, j: nat)
    returns (i: nat)
    requires j < n <= |l| && Get(counts, l[j].key.priority, 0) > 1
    ensures var r := TieKeys(l, counts, q, n); i < |r| && r[i].deleteKey == l[j].key
  {
    if j < n - 1 {
      i := TieKeysCoverTheIndex(l, counts, q, n - 1, j);
    } else {
      i := |TieKeys(l, counts, q, n - 1)|;
    }
  }

  /** The collected keys re-key each transaction of a shared priority once, and no other. */
  lemma TieKeysAreTheTies<T>(l: seq<Node<PriorityKey, T>>, counts: map<int, int>, q: Queues<T>, c: map<Id, Entry<T>>)
    requires PriorityIndexMatches(l, c)
    ensures var r := TieKeys(l, counts, q, |l|);
            && (forall i :: 0 <= i < |r| ==> IsTieKey(r[i], counts, q, c))
            && DistinctIds(r)
            && (forall id :: id in TiedIds(counts, c) ==> exists i :: 0 <= i < |r| && IdOf(r[i].deleteKey) == id)
  {
    var r := TieKeys(l, counts, q, |l|);
    TieKeysAreDistinct(l, counts, q, c, |l|);
    TieKeysComeFromTheIndex(l, counts, q, |l|);
    forall i | 0 <= i < |r| ensures IsTieKey(r[i], counts, q, c) {
      assert r[i] in r;
      assert l[..|l|] == l;
    }
    forall id | id in TiedIds(counts, c) ensures exists i :: 0 <= i < |r| && IdOf(r[i].deleteKey) == id {
      assert PriorityNode(id, c[id]) in l;
      var j :| 0 <= j < |l| && l[j] == PriorityNode(id, c[id]);
      var i := TieKeysCoverTheIndex(l, counts, q, |l|, j);
    }
  }

  /** The id of a sender's waiting transaction. */
  ghost function HeadId<T>(q: Queues<T>, out: seq<Pick<T>>, s: Address): Id
    requires Waiting(q, out, s)
  {
    Id(s, Head(q, out, s).key)
  }

  lemma HeadIsStored<T>(q: Queues<T>, c: map<Id, Entry<T>>, out: seq<Pick<T>>, s: Address)
    requires SendersMatch(q, c) && Waiting(q, out, s)
    ensures HeadId(q, out, s) in c
    ensures Head(q, out, s) == SenderNode(HeadId(q, out, s), c[HeadId(q, out, s)])
  {
    QueuedIsStored(q, c, s, |PicksOf(out, s)|);
  }

  /** `s`'s waiting transaction is at position `k` of the priority index or after it. */
  ghost predicate WaitsFrom<T>(l: seq<Node<PriorityKey, T>>, q: Queues<T>, c: map<Id, Entry<T>>, out: seq<Pick<T>>,
                               k: nat, s: Address)
  {
    Waiting(q, out, s) ==>
      && HeadId(q, out, s) in c
      && exists j :: k <= j < |l| && l[j] == PriorityNode(HeadId(q, out, s), c[HeadId(q, out, s)])
  }

  lemma AllWaitFromTheFront<T>(l: seq<Node<PriorityKey, T>>, q: Queues<T>, c: map<Id, Entry<T>>, out: seq<Pick<T>>, s: Address)
    requires PriorityIndexMatches(l, c) && SendersMatch(q, c)
    ensures WaitsFrom(l, q, c, out, 0, s)
  {
    if Waiting(q, out, s) {
      HeadIsStored(q, c, out, s);
      assert PriorityNode(HeadId(q, out, s), c[HeadId(q, out, s)]) in l;
    }
  }

  /** Passing a node of another sender keeps a waiting transaction ahead of the walk. */
  lemma OthersWaitBeyond<T>(l: seq<Node<PriorityKey, T>>, q: Queues<T>, c: map<Id, Entry<T>>, out: seq<Pick<T>>,
                            k: nat, s: Address)
    requires WaitsFrom(l, q, c, out, k, s)
    requires k < |l| && l[k].key.sender != s
    ensures WaitsFrom(l, q, c, out, k + 1, s)
  {
    if Waiting(q, out, s) {
      var j :| k <= j < |l| && l[j] == PriorityNode(HeadId(q, out, s), c[HeadId(q, out, s)]);
      assert j != k;
    }
  }

  /** A waiting transaction that ranks strictly below a node lies beyond it. */
  lemma OutrankedWaitsBeyond<T>(l: seq<Node<PriorityKey, T>>, q: Queues<T>, c: map<Id, Entry<T>>, out: seq<Pick<T>>,
                                k: nat, s: Address)
    requires PriorityIndexMatches(l, c) && SendersMatch(q, c)
    requires k < |l| && Waiting(q, out, s)
    requires HeadId(q, out, s) in c
    requires Higher(l[k].key, PriorityNode(HeadId(q, out, s), c[HeadId(q, out, s)]).key)
    ensures WaitsFrom(l, q, c, out, k, s)
  {
    var n := PriorityNode(HeadId(q, out, s), c[HeadId(q, out, s)]);
    assert n in l;
    var j :| 0 <= j < |l| && l[j] == n;
    assert j < k ==> Higher(l[j].key, l[k].key);
  }

  /** A transaction ranks at least as high as the node at position `k`, if there is one. */
  ghost predicate RanksFrom<T>(l: seq<Node<PriorityKey, T>>, k: nat, e: Entry<T>) {
    k < |l| ==>
      e.priority > l[k].key.priority || (e.priority == l[k].key.priority && e.weight >= l[k].key.weight)
  }

  /** Two stored transactions of the same priority make it a shared one. */
  lemma SharedPriority<T(!new)>(l: seq<Node<PriorityKey, T>>, c: map<Id, Entry<T>>, id: Id, id': Id)
    requires PriorityIndexMatches(l, c) && id in c && id' in c && id != id'
    requires c[id].priority == c[id'].priority
    ensures Count(l, HasPriority(c[id].priority)) > 1
  {
    assert PriorityNode(id, c[id]) in l && PriorityNode(id', c[id']) in l;
    var i :| 0 <= i < |l| && l[i] == PriorityNode(id, c[id]);
    var j :| 0 <= j < |l| && l[j] == PriorityNode(id', c[id']);
    if i < j {
      CountOfTwo(l, HasPriority(c[id].priority), i, j);
    } else {
      CountOfTwo(l, HasPriority(c[id].priority), j, i);
    }
  }

  /** What ranks at least as high as position `k` is at least as good as what waits from there on. */
  lemma RanksAboveWaiting<T>(l: seq<Node<PriorityKey, T>>, q: Queues<T>, c: map<Id, Entry<T>>, out: seq<Pick<T>>,
                             k: nat, e: Entry<T>, t: Address)
    requires PriorityIndexMatches(l, c) && Waiting(q, out, t)
    requires WaitsFrom(l, q, c, out, k, t) && RanksFrom(l, k, e)
    ensures HeadId(q, out, t) in c
    ensures var e' := c[HeadId(q, out, t)]; e.priority > e'.priority || (e.priority == e'.priority && e.weight >= e'.weight)
  {
    var id := HeadId(q, out, t);
    var j :| k <= j < |l| && l[j] == PriorityNode(id, c[id]);
    assert k < j ==> Higher(l[k].key, l[j].key);
  }

  lemma HandedOutIsAtLeastAsGood<T(!new)>(l: seq<Node<PriorityKey, T>>, q: Queues<T>, c: map<Id, Entry<T>>, out: seq<Pick<T>>,
                                          k: nat, s: Address, t: Address)
    requires PriorityIndexMatches(l, c) && SendersMatch(q, c) && TiesReordered(l, q, c)
    requires Waiting(q, out, s) && HeadId(q, out, s) in c && RanksFrom(l, k, c[HeadId(q, out, s)])
    requires Waiting(q, out, t) && s != t && WaitsFrom(l, q, c, out, k, t)
    ensures AtLeastAsGood(q, out, s, t)
  {
    hide PriorityIndexMatches, SendersMatch, WaitsFrom, RanksFrom;
    HeadIsStored(q, c, out, s);
    HeadIsStored(q, c, out, t);
    var id, id' := HeadId(q, out, s), HeadId(q, out, t);
    RanksAboveWaiting(l, q, c, out, k, c[id], t);
    if c[id].priority == c[id'].priority {
      SharedPriority(l, c, id, id');
    }
  }

  /** The transaction the walk hands out is a greedy choice: all other senders wait from position
      `k` on, and it ranks at least as high as the node there. */
  lemma HandedOutIsGreedy<T(!new)>(l: seq<Node<PriorityKey, T>>, q: Queues<T>, c: map<Id, Entry<T>>, out: seq<Pick<T>>,
                                   k: nat, s: Address)
    requires PriorityIndexMatches(l, c) && SendersMatch(q, c) && TiesReordered(l, q, c)
    requires Waiting(q, out, s) && HeadId(q, out, s) in c && RanksFrom(l, k, c[HeadId(q, out, s)])
    requires OthersWaitFrom(l, q, c, out, k, s)
    ensures GreedyChoice(q, out, Pick(s, Head(q, out, s)))
  {
    hide PriorityIndexMatches, SendersMatch, TiesReordered, WaitsFrom, RanksFrom, Waiting;
    forall t | Waiting(q, out, t) ensures AtLeastAsGood(q, out, s, t) {
      if t != s {
        HandedOutIsAtLeastAsGood(l, q, c, out, k, s, t);
      }
    }
  }

  /** When the walk is past the last node, nothing waits any more. */
  lemma NothingWaitsPastTheEnd<T>(l: seq<Node<PriorityKey, T>>, q: Queues<T>, c: map<Id, Entry<T>>, out: seq<Pick<T>>)
    requires GreedyPrefix(q, out)
    requires AllWaitFrom(l, q, c, out, |l|)
    ensures IsGreedyMerge(q, out)
  {
    forall s ensures !Waiting(q, out, s) {
      assert WaitsFrom(l, q, c, out, |l|, s);
    }
  }

  /** The position in sender `s`'s queue that an iterator looks at next. */
  function NextCursor(cursors: map<Address, nat>, s: Address): nat {
    if s in cursors then cursors[s] + 1 else 0
  }

  /** The sender cursors of an iterator point at the last node handed out of each queue. */
  ghost predicate CursorsMatch<T>(cursors: map<Address, nat>, out: seq<Pick<T>>) {
    forall s :: CursorMatches(cursors, out, s)
  }

  ghost predicate CursorMatches<T>(cursors: map<Address, nat>, out: seq<Pick<T>>, s: Address) {
    |PicksOf(out, s)| == NextCursor(cursors, s)
  }

  /** What holds of the indices, the cursors and the transactions handed out at every point of a walk. */
  ghost predicate WalkInvariant<T>(l: seq<Node<PriorityKey, T>>, q: Queues<T>, c: map<Id, Entry<T>>,
                                   cursors: map<Address, nat>, out: seq<Pick<T>>)
  {
    && PriorityIndexMatches(l, c) && SendersMatch(q, c) && TiesReordered(l, q, c)
    && GreedyPrefix(q, out)
    && CursorsMatch(cursors, out)
  }

  ghost predicate AllWaitFrom<T>(l: seq<Node<PriorityKey, T>>, q: Queues<T>, c: map<Id, Entry<T>>, out: seq<Pick<T>>, k: nat) {
    forall s :: WaitsFrom(l, q, c, out, k, s)
  }

  ghost predicate OthersWaitFrom<T>(l: seq<Node<PriorityKey, T>>, q: Queues<T>, c: map<Id, Entry<T>>, out: seq<Pick<T>>,
                                    k: nat, sender: Address)
  {
    forall s :: s != sender ==> WaitsFrom(l, q, c, out, k, s)
  }

  lemma StartWalk<T>(l: seq<Node<PriorityKey, T>>, counts: map<int, int>, q: Queues<T>, scores: map<Id, Score>, c: map<Id, Entry<T>>)
    requires Consistent(l, counts, q, scores, c) && TiesReordered(l, q, c)
    ensures WalkInvariant(l, q, c, map[], []) && AllWaitFrom(l, q, c, [], 0)
  {
    hide PriorityIndexMatches, SendersMatch, TiesReordered, CountsMatch, ScoresMatch, WaitsFrom;
    forall s ensures WaitsFrom(l, q, c, [], 0, s) {
      AllWaitFromTheFront(l, q, c, [], s);
    }
    forall s ensures CursorMatches<T>(map[], [], s) { }
  }

  lemma IndexedWaits<T>(l: seq<Node<PriorityKey, T>>, q: Queues<T>, c: map<Id, Entry<T>>)
    requires PriorityIndexMatches(l, c) && SendersMatch(q, c)
    ensures if l == [] then IsGreedyMerge(q, []) else !IsGreedyMerge(q, [])
  {
    if l != [] {
      IndexedIsQueued(l, q, c, 0);
      assert Waiting(q, [], l[0].key.sender);
    } else {
      forall s ensures !Waiting(q, [], s) {
        QueuedIsIndexed(l, q, c, s);
      }
    }
  }

  lemma QueuedIsIndexed<T>(l: seq<Node<PriorityKey, T>>, q: Queues<T>, c: map<Id, Entry<T>>, s: Address)
    requires PriorityIndexMatches(l, c) && SendersMatch(q, c)
    ensures s in q && q[s] != [] ==> l != []
  {
    if s in q && q[s] != [] {
      QueuedIsStored(q, c, s, 0);
      assert PriorityNode(Id(s, q[s][0].key), c[Id(s, q[s][0].key)]) in l;
    }
  }

  lemma VisitNode<T>(l: seq<Node<PriorityKey, T>>, q: Queues<T>, c: map<Id, Entry<T>>, out: seq<Pick<T>>, k: nat)
    requires AllWaitFrom(l, q, c, out, k) && k < |l|
    ensures OthersWaitFrom(l, q, c, out, k + 1, l[k].key.sender)
  {
    var next := k + 1;
    forall s | s != l[k].key.sender ensures WaitsFrom(l, q, c, out, next, s) {
      OthersWaitBeyond(l, q, c, out, k, s);
    }
  }

  /** What an iterator reads at a sender's next cursor is the sender's waiting transaction. */
  lemma NextCursorIsHead<T>(l: seq<Node<PriorityKey, T>>, q: Queues<T>, c: map<Id, Entry<T>>,
                            cursors: map<Address, nat>, out: seq<Pick<T>>, s: Address)
    requires WalkInvariant(l, q, c, cursors, out) && s in q
    ensures Waiting(q, out, s) <==> NextCursor(cursors, s) < |q[s]|
    ensures NextCursor(cursors, s) < |q[s]| ==>
              && Head(q, out, s) == q[s][NextCursor(cursors, s)]
              && HeadId(q, out, s) in c
              && Head(q, out, s) == SenderNode(HeadId(q, out, s), c[HeadId(q, out, s)])
  {
    assert CursorMatches(cursors, out, s);
    if Waiting(q, out, s) {
      HeadIsStored(q, c, out, s);
    }
  }

  lemma SkipDrained<T>(l: seq<Node<PriorityKey, T>>, q: Queues<T>, c: map<Id, Entry<T>>,
                       cursors: map<Address, nat>, out: seq<Pick<T>>, k: nat, s: Address)
    requires WalkInvariant(l, q, c, cursors, out) && OthersWaitFrom(l, q, c, out, k, s)
    requires s in q && NextCursor(cursors, s) >= |q[s]|
    ensures AllWaitFrom(l, q, c, out, k)
  {
    NextCursorIsHead(l, q, c, cursors, out, s);
  }

  lemma SkipOutranked<T>(l: seq<Node<PriorityKey, T>>, q: Queues<T>, c: map<Id, Entry<T>>,
                         cursors: map<Address, nat>, out: seq<Pick<T>>, k: nat, s: Address)
    requires WalkInvariant(l, q, c, cursors, out) && OthersWaitFrom(l, q, c, out, k, s)
    requires s in q && NextCursor(cursors, s) < |q[s]| && Id(s, q[s][NextCursor(cursors, s)].key) in c
    requires k < |l| && !RanksFrom(l, k, c[Id(s, q[s][NextCursor(cursors, s)].key)])
    ensures AllWaitFrom(l, q, c, out, k)
  {
    hide PriorityIndexMatches, SendersMatch, TiesReordered, WaitsFrom;
    NextCursorIsHead(l, q, c, cursors, out, s);
    OutrankedWaitsBeyond(l, q, c, out, k, s);
  }

  lemma HandOut<T(!new)>(l: seq<Node<PriorityKey, T>>, q: Queues<T>, c: map<Id, Entry<T>>,
                         cursors: map<Address, nat>, out: seq<Pick<T>>, k: nat, s: Address)
    requires WalkInvariant(l, q, c, cursors, out) && OthersWaitFrom(l, q, c, out, k, s)
    requires s in q && NextCursor(cursors, s) < |q[s]| && Id(s, q[s][NextCursor(cursors, s)].key) in c
    requires RanksFrom(l, k, c[Id(s, q[s][NextCursor(cursors, s)].key)])
    ensures var pick := Pick(s, q[s][NextCursor(cursors, s)]);
            && WalkInvariant(l, q, c, cursors[s := NextCursor(cursors, s)], out + [pick])
            && OthersWaitFrom(l, q, c, out + [pick], k, s)
  {
    hide PriorityIndexMatches, SendersMatch, TiesReordered, RanksFrom, WaitsFrom;
    var pick := Pick(s, q[s][NextCursor(cursors, s)]);
    NextCursorIsHead(l, q, c, cursors, out, s);
    HandedOutIsGreedy(l, q, c, out, k, s);
    GreedyPrefixAppend(q, out, pick);
    YieldMovesCursor(cursors, out, pick);
    YieldKeepsWaiting(l, q, c, out, pick, k);
  }

  lemma YieldMovesCursor<T>(cursors: map<Address, nat>, out: seq<Pick<T>>, pick: Pick<T>)
    requires CursorsMatch(cursors, out)
    ensures CursorsMatch(cursors[pick.sender := NextCursor(cursors, pick.sender)], out + [pick])
  {
    var cursors', out' := cursors[pick.sender := NextCursor(cursors, pick.sender)], out + [pick];
    forall s ensures CursorMatches(cursors', out', s) {
      PicksOfAppend(out, pick, s);
      assert CursorMatches(cursors, out, s);
    }
  }

  /** Handing out a transaction leaves the other senders waiting where they were. */
  lemma YieldKeepsWaiting<T>(l: seq<Node<PriorityKey, T>>, q: Queues<T>, c: map<Id, Entry<T>>, out: seq<Pick<T>>,
                             pick: Pick<T>, k: nat)
    requires OthersWaitFrom(l, q, c, out, k, pick.sender)
    ensures OthersWaitFrom(l, q, c, out + [pick], k, pick.sender)
  {
    var out' := out + [pick];
    forall s | s != pick.sender ensures WaitsFrom(l, q, c, out', k, s) {
      PicksOfAppend(out, pick, s);
      assert WaitsFrom(l, q, c, out, k, s);
    }
  }

  /** The node a walk stands on names a sender with a queue; what waits there is stored. */
  lemma WalkReads<T>(l: seq<Node<PriorityKey, T>>, q: Queues<T>, c: map<Id, Entry<T>>,
                     cursors: map<Address, nat>, out: seq<Pick<T>>, k: nat)
    requires WalkInvariant(l, q, c, cursors, out) && k < |l|
    ensures l[k].key.sender in q
    ensures var s := l[k].key.sender;
            NextCursor(cursors, s) < |q[s]| ==>
              && Id(s, q[s][NextCursor(cursors, s)].key) in c
              && c[Id(s, q[s][NextCursor(cursors, s)].key)].priority == q[s][NextCursor(cursors, s)].value.priority
  {
    hide PriorityIndexMatches, SendersMatch, TiesReordered;
    IndexedIsQueued(l, q, c, k);
    NextCursorIsHead(l, q, c, cursors, out, l[k].key.sender);
  }

  lemma MergeEnds<T>(l: seq<Node<PriorityKey, T>>, q: Queues<T>, c: map<Id, Entry<T>>,
                     cursors: map<Address, nat>, out: seq<Pick<T>>)
    requires WalkInvariant(l, q, c, cursors, out) && AllWaitFrom(l, q, c, out, |l|)
    ensures IsGreedyMerge(q, out)
  {
    NothingWaitsPastTheEnd(l, q, c, out);
  }

  /** An empty index has nothing to iterate, and reordering it changes nothing. */
  lemma ConsistentIndex<T(!new)>(l: seq<Node<PriorityKey, T>>, counts: map<int, int>, q: Queues<T>, scores: map<Id, Score>, c: map<Id, Entry<T>>)
    requires Consistent(l, counts, q, scores, c)
    ensures l == [] ==> Reweigh(q, c, TiedIds(counts, c)) == c
    ensures if l == [] then IsGreedyMerge(q, []) else !IsGreedyMerge(q, [])
  {
    IndexedWaits(l, q, c);
    PriorityIndexSize(l, c);
  }

  /** An iteration hands out no more transactions than are stored. */
  lemma WalkFits<T>(l: seq<Node<PriorityKey, T>>, q: Queues<T>, c: map<Id, Entry<T>>, cursors: map<Address, nat>, out: seq<Pick<T>>)
    requires WalkInvariant(l, q, c, cursors, out)
    ensures |out| <= Size(c)
  {
    PickedIds(q, c, out);
    var ids := set i | 0 <= i < |out| :: Id(out[i].sender, out[i].node.key);
    assert ids <= c.Keys by {
      forall i | 0 <= i < |out| ensures Id(out[i].sender, out[i].node.key) in c {
        PickIsRecorded(out, i);
        PicksArePrefixes(q, out, out[i].sender);
        var k :| 0 <= k < |PicksOf(out, out[i].sender)| && PicksOf(out, out[i].sender)[k] == out[i].node;
        QueuedIsStored(q, c, out[i].sender, k);
      }
    }
    SubsetSize(ids, c.Keys);
  }

  lemma {:induction false} PickedIds<T>(q: Queues<T>, c: map<Id, Entry<T>>, out: seq<Pick<T>>)
    requires SendersMatch(q, c) && GreedyPrefix(q, out)
    ensures |set i | 0 <= i < |out| :: Id(out[i].sender, out[i].node.key)| == |out|
  {
    if out != [] {
      var front, last := out[..|out| - 1], out[|out| - 1];
      PickedIds(q, c, front);
      var ids := set i | 0 <= i < |front| :: Id(front[i].sender, front[i].node.key);
      assert forall s :: s in q ==> QueueMatches(s, q[s], c);
      forall i | 0 <= i < |front| ensures Id(front[i].sender, front[i].node.key) != Id(last.sender, last.node.key) {
        PicksAreDistinct(q, out, i, |out| - 1);
      }
      assert (set i | 0 <= i < |out| :: Id(out[i].sender, out[i].node.key)) == ids + {Id(last.sender, last.node.key)};
    }
  }

  lemma {:induction false} SubsetSize<X>(a: set<X>, b: set<X>)
    requires a <= b
    ensures |a| <= |b|
  {
    assert b == a + (b - a);
    assert |a + (b - a)| == |a| + |b - a|;
  }
}
