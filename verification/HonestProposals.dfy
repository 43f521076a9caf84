/** What the mempools mean for proposals: which proposals are accepted for sure. */
module HonestProposals {
  import opened Proposals
  import opened Lanes
  import opened Chain
  import opened Segments
  import opened Agreement
  import opened GreedyMerge

  /** The lane hands out its transactions as iterating a mempool with the queues `q` does. */
  ghost predicate DrainsMempool<S, X>(l: Lane<S, X>, q: Queues<X>, out: seq<Pick<X>>) {
    && IsGreedyMerge(q, out)
    && |l.order| == |out|
    && forall i :: 0 <= i < |out| ==>
         l.order[i] == out[i].node.value.tx && l.priority(l.order[i]) == out[i].node.value.priority
  }

  /** Every bundle of a bid in the lane is free of bids and consists of canonical encodings. */
  ghost predicate CleanBundles<S, X>(env: Env<X>, l: Lane<S, X>) {
    forall bid :: bid in l.order && env.bidInfo(bid).Bid? ==> CleanBundle(env, env.bidInfo(bid).transactions)
  }

  ghost predicate CleanBundle<X>(env: Env<X>, bundle: seq<Bytes>) {
    forall i :: 0 <= i < |bundle| && env.decode(bundle[i]).Some? ==>
      && !env.bidInfo(env.decode(bundle[i]).value).Bid?
      && env.encode(env.decode(bundle[i]).value) == Some(bundle[i])
  }

  lemma {:induction false} AdjacentIsPairwise<X>(out: seq<Pick<X>>, i: nat, j: nat)
    requires AdjacentlyOrdered(out) && i < j < |out|
    ensures out[i].node.value.priority >= out[j].node.value.priority
  {
    if i < j - 1 {
      AdjacentIsPairwise(out, i, j - 1);
    }
  }

  lemma MempoolOrderIsPairwise<S, X>(l: Lane<S, X>, q: Queues<X>, out: seq<Pick<X>>)
    requires DrainsMempool(l, q, out) && SendersNonIncreasing(q)
    ensures PairwiseOrdered(l, l.order)
  {
    MergeIsOrderedIffSendersAre(q, out);
    forall i, j | 0 <= i < j < |l.order| ensures l.priority(l.order[i]) >= l.priority(l.order[j]) {
      AdjacentIsPairwise(out, i, j);
    }
  }

  /** A default lane whose senders never pay more for a later nonce contributes in order. */
  lemma DefaultContributionIsInOrder<S, X(!new)>(env: Env<X>, l: Lane<S, X>, q: Queues<X>, out: seq<Pick<X>>, max: int, b: Built<S>)
    requires l.handlers.DefaultHandlers? && DrainsMempool(l, q, out) && SendersNonIncreasing(q)
    ensures InOrder(env, l, Contribution(env, l, max, b))
  {
    MempoolOrderIsPairwise(l, q, out);
    SelectionKeepsOrder(env, l, Hashes(env.hash, b.txs), b.state, 0, LaneLimit(max, SumLen(b.txs), l.share), l.order);
  }

  /** An auction lane with clean bundles contributes in order. */
  lemma AuctionContributionIsInOrder<S(!new), X(!new)>(env: Env<X>, l: Lane<S, X>, max: int, b: Built<S>)
    requires l.handlers.AuctionHandlers? && CleanBundles(env, l)
    requires forall x :: l.matches(x) <==> env.bidInfo(x).Bid?
    ensures InOrder(env, l, Contribution(env, l, max, b))
  {
    AuctionSelectionIsVerified(env, l, Hashes(env.hash, b.txs), b.state, LaneLimit(max, SumLen(b.txs), l.share), l.order);
    var seg := Contribution(env, l, max, b);
    if seg != [] {
      var bundle := env.bidInfo(seg[0]).transactions;
      assert CleanBundle(env, bundle);
      forall i | 0 < i < |seg| ensures !l.matches(seg[i]) && env.encode(seg[i]) == Some(bundle[i - 1]) {
        assert env.decode(bundle[i - 1]) == Some(seg[i]);
      }
    }
  }

  /** What a lane's mempool must satisfy for its contributions to be in order. */
  ghost predicate OrderlyLane<S, X(!new)>(env: Env<X>, l: Lane<S, X>) {
    && (l.handlers.DefaultHandlers? ==> exists q, out :: DrainsMempool(l, q, out) && SendersNonIncreasing(q))
    && (l.handlers.AuctionHandlers? ==> CleanBundles(env, l) && forall x :: l.matches(x) <==> env.bidInfo(x).Bid?)
  }

  lemma {:induction false} OrderlyLanesContributeInOrder<S(!new), X(!new)>(env: Env<X>, lanes: seq<Lane<S, X>>, max: int, b: Built<S>)
    requires Standard(lanes) && forall i :: 0 <= i < |lanes| ==> OrderlyLane(env, lanes[i])
    ensures AllInOrder(env, lanes, Contributions(env, lanes, max, b))
    decreases |lanes|
  {
    if lanes != [] {
      var l, b' := lanes[0], PrepareOne(env, lanes[0], max, b);
      if l.handlers.DefaultHandlers? {
        var q, out :| DrainsMempool(l, q, out) && SendersNonIncreasing(q);
        DefaultContributionIsInOrder(env, l, q, out, max, b);
      } else {
        AuctionContributionIsInOrder(env, l, max, b);
      }
      OrderlyLanesContributeInOrder(env, lanes[1..], max, b');
      AllInOrderCons(env, lanes, Contributions(env, lanes, max, b));
      assert Contributions(env, lanes, max, b)[1..] == Contributions(env, lanes[1..], max, b');
    }
  }

  /** A proposal of an orderly configuration is accepted, by a validator in any state, exactly when
      replaying its contributions from that state verifies them. */
  lemma OrderlyProposalIsAcceptedIffReplayed<S(!new), X(!new)>(env: Env<X>, lanes: seq<Lane<S, X>>, max: int, st: S, st': S)
    requires Configured(env, lanes) && Canonical(env)
    requires forall i :: 0 <= i < |lanes| ==> OrderlyLane(env, lanes[i])
    ensures var replayed := Replay(lanes, Contributions(env, lanes, max, Built([], st)), st');
            ProcessBlock(env, lanes, st', PrepareAll(env, lanes, max, Built([], st)).txs)
            == if replayed.Some? then Accept(replayed.value) else Reject
  {
    ConfiguredIsStandard(env, lanes);
    hide Configured, Canonical, Standard, Replay, AllInOrder, ProcessBlock, PrepareAll, OrderlyLane;
    ProposalIsAcceptedIff(env, lanes, max, Built([], st), st');
    OrderlyLanesContributeInOrder(env, lanes, max, Built([], st));
  }

  /** With failure-neutral ante handlers, every proposal of an orderly configuration is accepted from the
      same state, and leads to the state its proposer computed. */
  lemma HonestProposalIsAccepted<S(!new), X(!new)>(env: Env<X>, lanes: seq<Lane<S, X>>, max: int, st: S)
    requires Configured(env, lanes) && Canonical(env) && AllFailureNeutral(lanes)
    requires forall i :: 0 <= i < |lanes| ==> OrderlyLane(env, lanes[i])
    ensures var built := PrepareAll(env, lanes, max, Built([], st));
            ProcessBlock(env, lanes, st, built.txs) == Accept(built.state)
  {
    ProposalIsAcceptedIffInOrder(env, lanes, max, st);
    OrderlyLanesContributeInOrder(env, lanes, max, Built([], st));
  }
}
