/** What a chain of lanes does, lane by lane: which transactions each lane drops from its mempool, and what
    it adds to the proposal. */
module Drops {
  import opened Proposals
  import opened Lanes
  import opened Chain
  import opened Selections

  /** The chain is a left fold: a lane takes up where those before it ended, the others go on from there,
      and what the chain drops is what the lanes drop, one after the other. */
  lemma {:induction false} LaneInChain<S, X>(env: Env<X>, before: seq<Lane<S, X>>, l: Lane<S, X>, after: seq<Lane<S, X>>, max: int, b: Built<S>)
    ensures PrepareAll<S, X>(env, [], max, b) == b && DropAll<S, X>(env, [], max, b) == []
    ensures var b1 := PrepareAll(env, before, max, b);
            var b2 := PrepareOne(env, l, max, b1);
            && PrepareAll(env, before + [l] + after, max, b) == PrepareAll(env, after, max, b2)
            && DropAll(env, before + [l] + after, max, b)
               == DropAll(env, before, max, b) + DropOne(env, l, max, b1) + DropAll(env, after, max, b2)
    decreases |before|
  {
    hide PrepareOne, DropOne;
    var lanes := before + [l] + after;
    if before == [] {
      assert lanes[0] == l && lanes[1..] == after;
    } else {
      assert lanes[0] == before[0] && lanes[1..] == before[1..] + [l] + after;
      LaneInChain(env, before[1..], l, after, max, PrepareOne(env, before[0], max, b));
    }
  }

  /** A default lane drops exactly the transactions it reaches that cannot be encoded, do not match or fail
      the ante handler, whether or not the proposal takes its selection. */
  lemma DefaultLaneDrops<S(!new), X(!new)>(env: Env<X>, l: Lane<S, X>, max: int, b: Built<S>)
    returns (states: seq<S>, fates: seq<Fate>)
    requires l.handlers.DefaultHandlers?
    ensures |fates| <= |l.order| && |states| == |fates| + 1 && states[0] == b.state
    ensures forall k {:trigger fates[k]} {:trigger l.order[k]} :: 0 <= k < |fates| ==>
              var x := l.order[k];
              var candidate := env.encode(x).Some? && l.matches(x) && env.hash(env.encode(x).value) !in Hashes(env.hash, b.txs);
              && (fates[k].Dropped? <==> env.encode(x).None? || !l.matches(x) || (candidate && l.ante(states[k], x).AnteErr?))
              && states[k + 1] == if candidate then l.ante(states[k], x).state else states[k]
    ensures var n := |fates|;
            n < |l.order| ==>
              && env.encode(l.order[n]).Some?
              && PickedBytes(env, l.order[..n], fates) + |env.encode(l.order[n]).value| > LaneLimit(max, SumLen(b.txs), l.share)
    ensures DropOne(env, l, max, b) == Those(l.order[..|fates|], fates, Dropped)
  {
    states, fates := DefaultSelectionFates(env, l, Hashes(env.hash, b.txs), b.state, 0, LaneLimit(max, SumLen(b.txs), l.share), l.order);
  }

  /** An auction lane drops exactly its losing bids, whether or not the proposal takes the winner. */
  lemma AuctionLaneDrops<S(!new), X(!new)>(env: Env<X>, l: Lane<S, X>, max: int, b: Built<S>)
    returns (fates: seq<Fate>)
    requires l.handlers.AuctionHandlers?
    ensures |fates| <= |l.order|
    ensures forall k {:trigger fates[k]} {:trigger l.order[k]} :: 0 <= k < |fates| ==>
              var bid, info := l.order[k], env.bidInfo(l.order[k]);
              var cache := Hashes(env.hash, b.txs);
              var candidate := && env.encode(bid).Some? && env.hash(env.encode(bid).value) !in cache
                               && |env.encode(bid).value| <= LaneLimit(max, SumLen(b.txs), l.share);
              var verified := VerifyTx(env, l, b.state, bid, info).Some?;
              && (candidate && verified ==> !WrapBundle(env, cache, info.transactions).Wrapped?)
              && (fates[k].Dropped? <==>
                    || env.encode(bid).None?
                    || (candidate && (!verified || WrapBundle(env, cache, info.transactions).WrapFailed?)))
    ensures var n := |fates|;
            n < |l.order| ==> VerifyTx(env, l, b.state, l.order[n], env.bidInfo(l.order[n])).Some?
                              && WrapBundle(env, Hashes(env.hash, b.txs), env.bidInfo(l.order[n]).transactions).Wrapped?
    ensures DropOne(env, l, max, b) == Those(l.order[..|fates|], fates, Dropped)
  {
    fates := AuctionSelectionFates(env, l, Hashes(env.hash, b.txs), b.state, LaneLimit(max, SumLen(b.txs), l.share), l.order);
  }

  /** A lane with its own handlers drops and adds what its handler returns, the latter if it fits; after an
      error or a panic it does neither, and its writes are lost. */
  lemma OwnHandlerDrops<S, X>(env: Env<X>, l: Lane<S, X>, max: int, b: Built<S>)
    requires l.handlers.CustomHandlers?
    ensures var limit := LaneLimit(max, SumLen(b.txs), l.share);
            match l.handlers.prepare(b.state, b.txs, limit)
            case Prepared(txs, toRemove, st) =>
              && DropOne(env, l, max, b) == toRemove
              && PrepareOne(env, l, max, b)
                 == if txs == [] || (SumLen(txs) <= limit && SumLen(b.txs) + SumLen(txs) <= max) then Built(b.txs + txs, st) else b
            case PrepareFailed(_) => DropOne(env, l, max, b) == [] && PrepareOne(env, l, max, b) == b
            case PreparePanicked(_) => DropOne(env, l, max, b) == [] && PrepareOne(env, l, max, b) == b
  {
  }

  /** A validator with a lane of its own handlers: an order check that fails, or a rejection, rejects the
      block; otherwise the other lanes get what the handler hands on, with the state it leaves. */
  lemma OwnHandlersDecide<S, X>(env: Env<X>, l: Lane<S, X>, lanes: seq<Lane<S, X>>, st: S, xs: seq<X>)
    requires l.handlers.CustomHandlers? && xs != []
    ensures ProcessAll(env, [l] + lanes, st, xs)
            == if !l.handlers.checkOrder(xs) then Reject
               else match l.handlers.process(st, xs)
                 case Rejected => Reject
                 case Processed(rest, st') => ProcessAll(env, lanes, st', rest)
  {
    assert ([l] + lanes)[1..] == lanes;
  }

  /** One malformed transaction anywhere rejects the block, whatever its lanes. */
  lemma MalformedBlockIsRejected<S, X>(env: Env<X>, lanes: seq<Lane<S, X>>, st: S, txs: seq<Bytes>, i: nat)
    requires i < |txs| && env.decode(txs[i]).None?
    ensures ProcessBlock(env, lanes, st, txs) == Reject
  {
    DecodesAtAll(env, txs, i);
  }

  /** The verdict on a block whose transactions all decode is the verdict of the lanes on them. */
  lemma DecodedBlockIsProcessed<S, X>(env: Env<X>, lanes: seq<Lane<S, X>>, st: S, txs: seq<Bytes>, xs: seq<X>)
    requires |xs| == |txs| && forall i :: 0 <= i < |txs| ==> env.decode(txs[i]) == Some(xs[i])
    ensures ProcessBlock(env, lanes, st, txs) == ProcessAll(env, lanes, st, xs)
  {
    DecodesIff(env, txs, xs);
  }

  /** A chain of lanes without a terminator runs all of them. */
  lemma {:induction false} AllLanesRun<S, X>(lanes: seq<Lane<S, X>>, chain: seq<Link<S, X>>)
    requires |chain| == |lanes| && forall i :: 0 <= i < |lanes| ==> chain[i] == LaneLink(lanes[i])
    ensures LanesOf(chain) == lanes
  {
    if lanes != [] {
      AllLanesRun(lanes[1..], chain[1..]);
    }
  }
}
