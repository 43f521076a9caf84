/** What iterating the mempool is for, stated over the sender queues alone: a greedy merge takes,
    at every step, the lowest waiting nonce of some sender whose waiting transaction no other
    sender's waiting transaction outranks. */
module GreedyMerge {
  import opened SkipList
  import opened PriorityIndices

  type Queues<T> = map<Address, Queue<T>>

  /** One transaction handed out by an iteration. */
  datatype Pick<T> = Pick(sender: Address, node: Node<nat, Queued<T>>)

  /** What an iteration has handed out of one sender's queue, in order. */
  ghost function PicksOf<T>(out: seq<Pick<T>>, s: Address): seq<Node<nat, Queued<T>>> {
    if out == [] then []
    else
      var before := PicksOf(out[..|out| - 1], s);
      if out[|out| - 1].sender == s then before + [out[|out| - 1].node] else before
  }

  /** The priority of a sender's highest nonce, which breaks ties between senders. */
  function LastPriority<T>(q: Queue<T>): int
    requires q != []
  {
    q[|q| - 1].value.priority
  }

  lemma LastPriorityIsOfTheHighestNonce<T>(q: Queue<T>, n: Node<nat, Queued<T>>)
    requires Sorted(LowerNonce, q) && n in q && forall m :: m in q ==> m.key <= n.key
    ensures LastPriority(q) == n.value.priority
  {
    var i :| 0 <= i < |q| && q[i] == n;
    assert q[|q| - 1] in q;
    assert i < |q| - 1 ==> LowerNonce(q[i].key, q[|q| - 1].key);
  }

  ghost predicate Waiting<T>(q: Queues<T>, out: seq<Pick<T>>, s: Address) {
    s in q && |PicksOf(out, s)| < |q[s]|
  }

  ghost function Head<T>(q: Queues<T>, out: seq<Pick<T>>, s: Address): Node<nat, Queued<T>>
    requires Waiting(q, out, s)
  {
    q[s][|PicksOf(out, s)|]
  }

  /** Sender `s`'s waiting transaction is at least as good as `t`'s. */
  ghost predicate AtLeastAsGood<T>(q: Queues<T>, out: seq<Pick<T>>, s: Address, t: Address)
    requires Waiting(q, out, s) && Waiting(q, out, t)
  {
    var p, p' := Head(q, out, s).value.priority, Head(q, out, t).value.priority;
    p > p' || (p == p' && LastPriority(q[s]) >= LastPriority(q[t]))
  }

  ghost predicate GreedyChoice<T>(q: Queues<T>, out: seq<Pick<T>>, pick: Pick<T>) {
    && Waiting(q, out, pick.sender)
    && pick.node == Head(q, out, pick.sender)
    && forall t :: Waiting(q, out, t) ==> AtLeastAsGood(q, out, pick.sender, t)
  }

  ghost predicate GreedyPrefix<T>(q: Queues<T>, out: seq<Pick<T>>) {
    out == [] || (GreedyPrefix(q, out[..|out| - 1]) && GreedyChoice(q, out[..|out| - 1], out[|out| - 1]))
  }

  ghost predicate IsGreedyMerge<T>(q: Queues<T>, out: seq<Pick<T>>) {
    GreedyPrefix(q, out) && forall s :: !Waiting(q, out, s)
  }

  ghost predicate NonIncreasing<T>(l: seq<Node<nat, Queued<T>>>) {
    forall i :: 0 < i < |l| ==> l[i - 1].value.priority >= l[i].value.priority
  }

  /** No transaction outranks the one handed out just before it. */
  ghost predicate AdjacentlyOrdered<T>(out: seq<Pick<T>>) {
    forall i :: 0 < i < |out| ==> out[i - 1].node.value.priority >= out[i].node.value.priority
  }

  ghost predicate SendersNonIncreasing<T>(q: Queues<T>) {
    forall s :: s in q ==> NonIncreasing(q[s])
  }

  lemma PicksOfAppend<T>(out: seq<Pick<T>>, pick: Pick<T>, s: Address)
    ensures PicksOf(out + [pick], s) == PicksOf(out, s) + if pick.sender == s then [pick.node] else []
  {
    assert (out + [pick])[..|out|] == out;
  }

  lemma GreedyPrefixAppend<T>(q: Queues<T>, out: seq<Pick<T>>, pick: Pick<T>)
    requires GreedyPrefix(q, out) && GreedyChoice(q, out, pick)
    ensures GreedyPrefix(q, out + [pick])
  {
    assert (out + [pick])[..|out|] == out;
  }

  /** What was handed out of a queue is an initial part of it, in the queue's order. */
  lemma {:induction false} PicksArePrefixes<T>(q: Queues<T>, out: seq<Pick<T>>, s: Address)
    requires GreedyPrefix(q, out)
    ensures s in q ==> PicksOf(out, s) <= q[s]
    ensures s !in q ==> PicksOf(out, s) == []
  {
    if out != [] {
      PicksArePrefixes(q, out[..|out| - 1], s);
    }
  }

  /** A greedy merge hands out every queue, whole and in nonce order. */
  lemma MergeDrainsEveryQueue<T>(q: Queues<T>, out: seq<Pick<T>>, s: Address)
    requires IsGreedyMerge(q, out)
    ensures PicksOf(out, s) == Get(q, s, [])
  {
    PicksArePrefixes(q, out, s);
    assert !Waiting(q, out, s);
  }

  lemma {:induction false} PickIsRecorded<T>(out: seq<Pick<T>>, i: nat)
    requires i < |out|
    ensures out[i].node in PicksOf(out, out[i].sender)
  {
    if i < |out| - 1 {
      PickIsRecorded(out[..|out| - 1], i);
    }
  }

  lemma {:induction false} RecordIsPicked<T>(out: seq<Pick<T>>, s: Address, n: Node<nat, Queued<T>>) returns (i: nat)
    requires n in PicksOf(out, s)
    ensures i < |out| && out[i] == Pick(s, n)
  {
    if n in PicksOf(out[..|out| - 1], s) {
      i := RecordIsPicked(out[..|out| - 1], s, n);
    } else {
      i := |out| - 1;
    }
  }

  lemma {:induction false} PicksAreDistinct<T>(q: Queues<T>, out: seq<Pick<T>>, i: nat, j: nat)
    requires GreedyPrefix(q, out)
    requires forall s :: s in q ==> Sorted(LowerNonce, q[s])
    requires i < j < |out|
    ensures out[i].sender != out[j].sender || out[i].node.key != out[j].node.key
  {
    var front := out[..|out| - 1];
    if j < |out| - 1 {
      PicksAreDistinct(q, front, i, j);
    } else if out[i].sender == out[j].sender {
      var s := out[j].sender;
      PickIsRecorded(front, i);
      PicksArePrefixes(q, front, s);
      var k :| 0 <= k < |PicksOf(front, s)| && PicksOf(front, s)[k] == out[i].node;
      assert q[s][k] == out[i].node;
      assert LowerNonce(q[s][k].key, q[s][|PicksOf(front, s)|].key);
    }
  }

  /** Iteration is complete and free of duplicates: a greedy merge of the queues of a mempool
      hands out each stored transaction at exactly one position, and nothing else. */
  lemma MergeIsComplete<T>(q: Queues<T>, c: map<Id, Entry<T>>, out: seq<Pick<T>>)
    requires SendersMatch(q, c) && IsGreedyMerge(q, out)
    ensures forall i :: 0 <= i < |out| ==>
              && Id(out[i].sender, out[i].node.key) in c
              && c[Id(out[i].sender, out[i].node.key)].priority == out[i].node.value.priority
              && c[Id(out[i].sender, out[i].node.key)].tx == out[i].node.value.tx
    ensures forall i, j :: 0 <= i < j < |out| ==>
              Id(out[i].sender, out[i].node.key) != Id(out[j].sender, out[j].node.key)
    ensures forall id :: id in c ==> exists i :: 0 <= i < |out| && out[i] == Pick(id.sender, SenderNode(id, c[id]))
  {
    forall i | 0 <= i < |out|
      ensures && Id(out[i].sender, out[i].node.key) in c
              && out[i].node == SenderNode(Id(out[i].sender, out[i].node.key), c[Id(out[i].sender, out[i].node.key)])
    {
      PickIsRecorded(out, i);
      MergeDrainsEveryQueue(q, out, out[i].sender);
    }
    forall i, j | 0 <= i < j < |out|
      ensures Id(out[i].sender, out[i].node.key) != Id(out[j].sender, out[j].node.key)
    {
      PicksAreDistinct(q, out, i, j);
    }
    forall id | id in c
      ensures exists i :: 0 <= i < |out| && out[i] == Pick(id.sender, SenderNode(id, c[id]))
    {
      MergeDrainsEveryQueue(q, out, id.sender);
      var i := RecordIsPicked(out, id.sender, SenderNode(id, c[id]));
    }
  }

  lemma {:induction false} OrderedPicksBoundTheLast<T>(out: seq<Pick<T>>, s: Address)
    requires AdjacentlyOrdered(out) && out != []
    ensures forall n :: n in PicksOf(out, s) ==> n.value.priority >= out[|out| - 1].node.value.priority
  {
    var front := out[..|out| - 1];
    if front != [] {
      OrderedPicksBoundTheLast(front, s);
      assert out[|out| - 2].node.value.priority >= out[|out| - 1].node.value.priority;
    }
  }

  lemma {:induction false} OrderedPicksAreNonIncreasing<T>(out: seq<Pick<T>>, s: Address)
    requires AdjacentlyOrdered(out)
    ensures NonIncreasing(PicksOf(out, s))
  {
    if out != [] {
      OrderedPicksAreNonIncreasing(out[..|out| - 1], s);
      OrderedPicksBoundTheLast(out, s);
    }
  }

  lemma {:induction false} NonIncreasingSendersMergeInOrder<T>(q: Queues<T>, out: seq<Pick<T>>)
    requires GreedyPrefix(q, out) && SendersNonIncreasing(q)
    ensures AdjacentlyOrdered(out)
  {
    if |out| > 1 {
      var front := out[..|out| - 1];
      NonIncreasingSendersMergeInOrder(q, front);
      var earlier := front[..|front| - 1];
      var prev, last := front[|front| - 1], out[|out| - 1];
      assert GreedyChoice(q, earlier, prev) && GreedyChoice(q, front, last);
      if last.sender != prev.sender {
        assert PicksOf(front, last.sender) == PicksOf(earlier, last.sender);
        assert Waiting(q, earlier, last.sender);
        assert AtLeastAsGood(q, earlier, prev.sender, last.sender);
      } else {
        assert |PicksOf(front, last.sender)| == |PicksOf(earlier, last.sender)| + 1;
      }
      assert prev.node.value.priority >= last.node.value.priority;
    }
  }

  /** A full iteration satisfies the adjacency test of the default check-order handler exactly
      when every sender's priorities are non-increasing in nonce. */
  lemma MergeIsOrderedIffSendersAre<T>(q: Queues<T>, out: seq<Pick<T>>)
    requires IsGreedyMerge(q, out)
    ensures AdjacentlyOrdered(out) <==> SendersNonIncreasing(q)
  {
    if AdjacentlyOrdered(out) {
      forall s | s in q ensures NonIncreasing(q[s]) {
        OrderedPicksAreNonIncreasing(out, s);
        MergeDrainsEveryQueue(q, out, s);
      }
    }
    if SendersNonIncreasing(q) {
      NonIncreasingSendersMergeInOrder(q, out);
    }
  }

  lemma {:induction false} GreedyPrefixFirst<T>(q: Queues<T>, out: seq<Pick<T>>)
    requires GreedyPrefix(q, out) && out != []
    ensures GreedyChoice(q, [], out[0])
  {
    if |out| > 1 {
      GreedyPrefixFirst(q, out[..|out| - 1]);
    } else {
      assert out[..0] == [];
    }
  }

  /** With one nonce per sender, the first transaction handed out has the highest stored priority. */
  lemma FirstPickIsHighest<T>(q: Queues<T>, c: map<Id, Entry<T>>, out: seq<Pick<T>>)
    requires SendersMatch(q, c) && GreedyPrefix(q, out) && out != []
    requires forall i, j :: i in c && j in c && i.sender == j.sender ==> i == j
    ensures forall id :: id in c ==> c[id].priority <= out[0].node.value.priority
  {
    GreedyPrefixFirst(q, out);
    forall id | id in c ensures c[id].priority <= out[0].node.value.priority {
      var s := id.sender;
      assert SenderNode(id, c[id]) in q[s];
      assert Waiting(q, [], s);
      assert q[s][0] in q[s];
      assert Id(s, q[s][0].key) == id;
      assert AtLeastAsGood(q, [], out[0].sender, s);
    }
  }
}
