/** The four indices of the priority-nonce mempool as values, what it means for them to describe
    one set of transactions, and how an insertion or a removal keeps that true. */
module PriorityIndices {
  import opened SkipList

  /** An account address, by its rank in the string order the mempool compares addresses with. */
  type Address = int

  /** Transactions are unique by sender and nonce. */
  datatype Id = Id(sender: Address, nonce: nat)

  datatype PriorityKey = PriorityKey(priority: int, weight: int, sender: Address, nonce: nat)

  datatype Score = Score(priority: int, weight: int)

  /** What a sender list stores under a nonce. */
  datatype Queued<T> = Queued(priority: int, tx: T)

  type Queue<T> = seq<Node<nat, Queued<T>>>

  /** The abstract content of the mempool under one id. */
  datatype Entry<T> = Entry(priority: int, weight: int, tx: T)

  /** The order of the priority index: highest priority first, then weight, sender and nonce. */
  predicate Higher(a: PriorityKey, b: PriorityKey) {
    if a.priority != b.priority then a.priority > b.priority
    else if a.weight != b.weight then a.weight > b.weight
    else if a.sender != b.sender then a.sender > b.sender
    else a.nonce > b.nonce
  }

  /** The order of a sender index. */
  predicate LowerNonce(a: nat, b: nat) {
    a < b
  }

  function HasPriority(p: int): PriorityKey -> bool {
    (k: PriorityKey) => k.priority == p
  }

  function IdOf(k: PriorityKey): Id {
    Id(k.sender, k.nonce)
  }

  function KeyOf(id: Id, priority: int, weight: int): PriorityKey {
    PriorityKey(priority, weight, id.sender, id.nonce)
  }

  function PriorityNode<T>(id: Id, e: Entry<T>): Node<PriorityKey, T> {
    Node(KeyOf(id, e.priority, e.weight), e.tx)
  }

  function SenderNode<T>(id: Id, e: Entry<T>): Node<nat, Queued<T>> {
    Node(id.nonce, Queued(e.priority, e.tx))
  }

  /** A map lookup with a default, as indexing a Go map does. */
  function Get<K, V>(m: map<K, V>, k: K, default: V): V {
    if k in m then m[k] else default
  }

  /** How many transactions are stored. */
  function Size<T>(c: map<Id, Entry<T>>): nat {
    |c|
  }

  ghost predicate PriorityIndexMatches<T>(l: seq<Node<PriorityKey, T>>, c: map<Id, Entry<T>>) {
    && Sorted(Higher, l)
    && (forall n {:trigger n in l} :: n in l ==> IdOf(n.key) in c && n == PriorityNode(IdOf(n.key), c[IdOf(n.key)]))
    && (forall id {:trigger id in c} :: id in c ==> PriorityNode(id, c[id]) in l)
  }

  ghost predicate QueueMatches<T>(s: Address, l: Queue<T>, c: map<Id, Entry<T>>) {
    && Sorted(LowerNonce, l)
    && forall n {:trigger n in l} :: n in l ==> Id(s, n.key) in c && n == SenderNode(Id(s, n.key), c[Id(s, n.key)])
  }

  ghost predicate SendersMatch<T>(q: map<Address, Queue<T>>, c: map<Id, Entry<T>>) {
    && (forall s :: s in q ==> QueueMatches(s, q[s], c))
    && (forall id {:trigger id in c} :: id in c ==> id.sender in q && SenderNode(id, c[id]) in q[id.sender])
  }

  ghost predicate ScoresMatch<T>(scores: map<Id, Score>, c: map<Id, Entry<T>>) {
    scores.Keys == c.Keys && forall id :: id in c ==> scores[id] == Score(c[id].priority, c[id].weight)
  }

  ghost predicate CountsMatch<T>(counts: map<int, int>, l: seq<Node<PriorityKey, T>>) {
    forall p :: Get(counts, p, 0) == Count(l, HasPriority(p))
  }

  /** Adds `d` to a priority's count. */
  function Adjust(counts: map<int, int>, p: int, d: int): map<int, int> {
    counts[p := Get(counts, p, 0) + d]
  }

  /** The four indices describe the transactions `c`. */
  ghost predicate Consistent<T>(l: seq<Node<PriorityKey, T>>, counts: map<int, int>, q: map<Address, Queue<T>>,
                                scores: map<Id, Score>, c: map<Id, Entry<T>>)
  {
    && PriorityIndexMatches(l, c)
    && CountsMatch(counts, l)
    && SendersMatch(q, c)
    && ScoresMatch(scores, c)
  }

  lemma HigherIsStrictTotalOrder()
    ensures StrictTotalOrder(Higher)
  {
  }

  lemma LowerNonceIsStrictTotalOrder()
    ensures StrictTotalOrder(LowerNonce)
  {
  }

  /** From node to node the priority index descends: in priority, then weight, then sender, then nonce;
      and a sender list ascends in nonce. */
  lemma IndicesAreOrdered<T>(l: seq<Node<PriorityKey, T>>, q: map<Address, Queue<T>>, c: map<Id, Entry<T>>)
    requires PriorityIndexMatches(l, c) && SendersMatch(q, c)
    ensures forall i, j {:trigger l[i], l[j]} :: 0 <= i < j < |l| ==>
              var a, b := l[i].key, l[j].key;
              || a.priority > b.priority
              || (a.priority == b.priority && a.weight > b.weight)
              || (a.priority == b.priority && a.weight == b.weight && a.sender > b.sender)
              || (a.priority == b.priority && a.weight == b.weight && a.sender == b.sender && a.nonce > b.nonce)
    ensures forall s, i, j {:trigger q[s][i], q[s][j]} :: s in q && 0 <= i < j < |q[s]| ==> q[s][i].key < q[s][j].key
  {
    forall i, j | 0 <= i < j < |l| ensures Higher(l[i].key, l[j].key) {
    }
    forall s, i, j | s in q && 0 <= i < j < |q[s]| ensures LowerNonce(q[s][i].key, q[s][j].key) {
      assert QueueMatches(s, q[s], c);
    }
  }

  /** The priority index has one node per transaction. */
  lemma {:induction false} PriorityIndexSize<T(!new)>(l: seq<Node<PriorityKey, T>>, c: map<Id, Entry<T>>)
    requires PriorityIndexMatches(l, c)
    ensures |l| == |c|
  {
    if l == [] {
      assert c == map[];
    } else {
      HigherIsStrictTotalOrder();
      var id := IdOf(l[0].key);
      assert l[0] in l;
      PriorityIndexRemove(l, c, id);
      assert Remove(l, l[0].key) == l[1..];
      PriorityIndexSize(l[1..], c - {id});
      assert c.Keys == (c - {id}).Keys + {id};
    }
  }

  lemma PriorityIndexSet<T(!new)>(l: seq<Node<PriorityKey, T>>, c: map<Id, Entry<T>>, id: Id, e: Entry<T>)
    requires PriorityIndexMatches(l, c) && id !in c
    ensures PriorityIndexMatches(Set(Higher, l, PriorityNode(id, e)), c[id := e])
  {
    HigherIsStrictTotalOrder();
    var n := PriorityNode(id, e);
    assert forall m :: m in l ==> IdOf(m.key) != id;
    SetMembers(Higher, l, n);
  }

  lemma CountsSet<T(!new)>(l: seq<Node<PriorityKey, T>>, counts: map<int, int>, id: Id, e: Entry<T>)
    requires CountsMatch(counts, l)
    requires forall m :: m in l ==> IdOf(m.key) != id
    ensures CountsMatch(Adjust(counts, e.priority, 1), Set(Higher, l, PriorityNode(id, e)))
  {
    var n := PriorityNode(id, e);
    forall p
      ensures Get(Adjust(counts, e.priority, 1), p, 0) == Count(Set(Higher, l, n), HasPriority(p))
    {
      SetCount(Higher, l, n, HasPriority(p));
    }
  }

  lemma PriorityIndexRemove<T(!new)>(l: seq<Node<PriorityKey, T>>, c: map<Id, Entry<T>>, id: Id)
    requires PriorityIndexMatches(l, c) && id in c
    ensures PriorityIndexMatches(Remove(l, PriorityNode(id, c[id]).key), c - {id})
  {
    HigherIsStrictTotalOrder();
    var k := PriorityNode(id, c[id]).key;
    assert PriorityNode(id, c[id]) in l;
    RemoveMembers(Higher, l, k);
  }

  lemma CountsRemove<T(!new)>(l: seq<Node<PriorityKey, T>>, counts: map<int, int>, n: Node<PriorityKey, T>)
    requires CountsMatch(counts, l) && n in l
    ensures CountsMatch(Adjust(counts, n.key.priority, -1), Remove(l, n.key))
  {
    forall p
      ensures Get(Adjust(counts, n.key.priority, -1), p, 0) == Count(Remove(l, n.key), HasPriority(p))
    {
      RemoveCount(l, n.key, HasPriority(p));
    }
  }

  lemma SendersSet<T(!new)>(q: map<Address, Queue<T>>, c: map<Id, Entry<T>>, id: Id, e: Entry<T>)
    requires SendersMatch(q, c)
    ensures SendersMatch(q[id.sender := Set(LowerNonce, Get(q, id.sender, []), SenderNode(id, e))], c[id := e])
  {
    LowerNonceIsStrictTotalOrder();
    var l := Get(q, id.sender, []);
    SetMembers(LowerNonce, l, SenderNode(id, e));
    var q', c' := q[id.sender := Set(LowerNonce, l, SenderNode(id, e))], c[id := e];
    forall s: Address | s in q' ensures QueueMatches(s, q'[s], c') {
      if s != id.sender {
        assert QueueMatches(s, q[s], c);
      }
    }
    forall i | i in c' ensures i.sender in q' && SenderNode(i, c'[i]) in q'[i.sender] {
      if i != id {
        assert SenderNode(i, c[i]) in q[i.sender];
      }
    }
  }

  lemma SendersRemove<T(!new)>(q: map<Address, Queue<T>>, c: map<Id, Entry<T>>, id: Id)
    requires SendersMatch(q, c) && id in c
    ensures SendersMatch(q[id.sender := Remove(q[id.sender], id.nonce)], c - {id})
  {
    LowerNonceIsStrictTotalOrder();
    RemoveMembers(LowerNonce, q[id.sender], id.nonce);
    var q', c' := q[id.sender := Remove(q[id.sender], id.nonce)], c - {id};
    forall s: Address | s in q' ensures QueueMatches(s, q'[s], c') {
      assert QueueMatches(s, q[s], c);
    }
    forall i | i in c' ensures i.sender in q' && SenderNode(i, c'[i]) in q'[i.sender] {
      assert SenderNode(i, c[i]) in q[i.sender];
    }
  }

  /** What the mempool's operations read off consistent indices. */
  lemma ConsistentScores<T>(l: seq<Node<PriorityKey, T>>, counts: map<int, int>, q: map<Address, Queue<T>>,
                            scores: map<Id, Score>, c: map<Id, Entry<T>>)
    requires Consistent(l, counts, q, scores, c)
    ensures scores.Keys == c.Keys
    ensures forall id {:trigger scores[id]} :: id in c ==> scores[id] == Score(c[id].priority, c[id].weight)
  {
  }

  lemma QueuedIsStored<T>(q: map<Address, Queue<T>>, c: map<Id, Entry<T>>, s: Address, i: nat)
    requires SendersMatch(q, c) && s in q && i < |q[s]|
    ensures Id(s, q[s][i].key) in c
    ensures q[s][i] == SenderNode(Id(s, q[s][i].key), c[Id(s, q[s][i].key)])
  {
    assert QueueMatches(s, q[s], c);
    assert q[s][i] in q[s];
  }

  lemma IndexedIsQueued<T>(l: seq<Node<PriorityKey, T>>, q: map<Address, Queue<T>>, c: map<Id, Entry<T>>, i: nat)
    requires PriorityIndexMatches(l, c) && SendersMatch(q, c) && i < |l|
    ensures IdOf(l[i].key) in c && l[i] == PriorityNode(IdOf(l[i].key), c[IdOf(l[i].key)])
    ensures l[i].key.sender in q && Find(q[l[i].key.sender], l[i].key.nonce) < |q[l[i].key.sender]|
  {
    var id := IdOf(l[i].key);
    assert l[i] in l;
    assert SenderNode(id, c[id]) in q[id.sender];
  }

  lemma ConsistentCounts<T>(l: seq<Node<PriorityKey, T>>, counts: map<int, int>, q: map<Address, Queue<T>>,
                            scores: map<Id, Score>, c: map<Id, Entry<T>>)
    requires Consistent(l, counts, q, scores, c)
    ensures CountsMatch(counts, l)
  {
  }

  lemma ScoresSet<T>(scores: map<Id, Score>, c: map<Id, Entry<T>>, id: Id, e: Entry<T>)
    requires ScoresMatch(scores, c)
    ensures ScoresMatch(scores[id := Score(e.priority, e.weight)], c[id := e])
  {
  }

  lemma ScoresRemove<T>(scores: map<Id, Score>, c: map<Id, Entry<T>>, id: Id)
    requires ScoresMatch(scores, c)
    ensures ScoresMatch(scores - {id}, c - {id})
  {
  }

  /** Removing one transaction from all four indices keeps them consistent. */
  lemma RemoveKeepsConsistent<T(!new)>(l: seq<Node<PriorityKey, T>>, counts: map<int, int>, q: map<Address, Queue<T>>,
                                       scores: map<Id, Score>, c: map<Id, Entry<T>>, id: Id)
    requires Consistent(l, counts, q, scores, c) && id in c
    ensures Consistent(Remove(l, KeyOf(id, c[id].priority, c[id].weight)), Adjust(counts, c[id].priority, -1),
                       q[id.sender := Remove(Get(q, id.sender, []), id.nonce)], scores - {id}, c - {id})
  {
    assert PriorityNode(id, c[id]) in l;
    CountsRemove(l, counts, PriorityNode(id, c[id]));
    PriorityIndexRemove(l, c, id);
    SendersRemove(q, c, id);
    ScoresRemove(scores, c, id);
  }

  /** Adding a new transaction to all four indices keeps them consistent. */
  lemma AddKeepsConsistent<T(!new)>(l: seq<Node<PriorityKey, T>>, counts: map<int, int>, q: map<Address, Queue<T>>,
                                    scores: map<Id, Score>, c: map<Id, Entry<T>>, id: Id, e: Entry<T>)
    requires Consistent(l, counts, q, scores, c) && id !in c
    ensures Consistent(Set(Higher, l, PriorityNode(id, e)), Adjust(counts, e.priority, 1),
                       q[id.sender := Set(LowerNonce, Get(q, id.sender, []), SenderNode(id, e))],
                       scores[id := Score(e.priority, e.weight)], c[id := e])
  {
    assert forall m :: m in l ==> IdOf(m.key) != id;
    CountsSet(l, counts, id, e);
    PriorityIndexSet(l, c, id, e);
    SendersSet(q, c, id, e);
    ScoresSet(scores, c, id, e);
  }

  lemma RemoveThenPut<K, V>(m: map<K, V>, k: K, v: V)
    ensures (m - {k})[k := v] == m[k := v]
  {
  }

  /** Giving a stored transaction a new weight: its key moves in the priority index and its score
      follows; neither the priority counts nor the sender lists change. */
  lemma ReweighKeepsConsistent<T(!new)>(l: seq<Node<PriorityKey, T>>, counts: map<int, int>, q: map<Address, Queue<T>>,
                                        scores: map<Id, Score>, c: map<Id, Entry<T>>, id: Id, w: int)
    requires Consistent(l, counts, q, scores, c) && id in c
    ensures Consistent(Set(Higher, Remove(l, KeyOf(id, c[id].priority, c[id].weight)),
                           Node(KeyOf(id, c[id].priority, w), c[id].tx)),
                       counts, q, (scores - {id})[id := Score(c[id].priority, w)], c[id := c[id].(weight := w)])
  {
    hide PriorityIndexMatches, SendersMatch;
    var e := c[id].(weight := w);
    PriorityIndexReplace(l, counts, c, id, e);
    var l' := Set(Higher, Remove(l, KeyOf(id, c[id].priority, c[id].weight)), PriorityNode(id, e));
    CountsMatchByValue(Adjust(Adjust(counts, c[id].priority, -1), e.priority, 1), counts, l');
    SendersReweigh(q, c, id, w);
    ScoresSet(scores, c, id, e);
    RemoveThenPut(scores, id, Score(e.priority, w));
  }

  lemma CountsMatchByValue<T>(counts: map<int, int>, counts': map<int, int>, l: seq<Node<PriorityKey, T>>)
    requires CountsMatch(counts, l)
    requires forall p {:trigger Get(counts', p, 0)} :: Get(counts, p, 0) == Get(counts', p, 0)
    ensures CountsMatch(counts', l)
  {
  }

  lemma SendersReweigh<T>(q: map<Address, Queue<T>>, c: map<Id, Entry<T>>, id: Id, w: int)
    requires SendersMatch(q, c) && id in c
    ensures SendersMatch(q, c[id := c[id].(weight := w)])
  {
    var c' := c[id := c[id].(weight := w)];
    forall s | s in q ensures QueueMatches(s, q[s], c') {
      assert QueueMatches(s, q[s], c);
    }
  }

  /** Replacing a transaction: its old key leaves the priority index, the other indices are overwritten. */
  lemma ReplaceKeepsConsistent<T(!new)>(l: seq<Node<PriorityKey, T>>, counts: map<int, int>, q: map<Address, Queue<T>>,
                                        scores: map<Id, Score>, c: map<Id, Entry<T>>, id: Id, e: Entry<T>)
    requires Consistent(l, counts, q, scores, c) && id in c
    ensures Consistent(Set(Higher, Remove(l, KeyOf(id, c[id].priority, c[id].weight)), PriorityNode(id, e)),
                       Adjust(Adjust(counts, c[id].priority, -1), e.priority, 1),
                       q[id.sender := Set(LowerNonce, Get(q, id.sender, []), SenderNode(id, e))],
                       scores[id := Score(e.priority, e.weight)], c[id := e])
  {
    PriorityIndexReplace(l, counts, c, id, e);
    SendersSet(q, c, id, e);
    ScoresSet(scores, c, id, e);
  }

  lemma PriorityIndexReplace<T(!new)>(l: seq<Node<PriorityKey, T>>, counts: map<int, int>, c: map<Id, Entry<T>>,
                                      id: Id, e: Entry<T>)
    requires PriorityIndexMatches(l, c) && CountsMatch(counts, l) && id in c
    ensures PriorityIndexMatches(Set(Higher, Remove(l, KeyOf(id, c[id].priority, c[id].weight)), PriorityNode(id, e)), c[id := e])
    ensures CountsMatch(Adjust(Adjust(counts, c[id].priority, -1), e.priority, 1),
                        Set(Higher, Remove(l, KeyOf(id, c[id].priority, c[id].weight)), PriorityNode(id, e)))
  {
    assert PriorityNode(id, c[id]) in l;
    CountsRemove(l, counts, PriorityNode(id, c[id]));
    PriorityIndexRemove(l, c, id);
    var l' := Remove(l, KeyOf(id, c[id].priority, c[id].weight));
    assert forall m :: m in l' ==> IdOf(m.key) in c - {id};
    CountsSet(l', Adjust(counts, c[id].priority, -1), id, e);
    PriorityIndexSet(l', c - {id}, id, e);
    RemoveThenPut(c, id, e);
  }
}
