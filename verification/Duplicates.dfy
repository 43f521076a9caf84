/** No transaction enters a proposal twice. */
module Duplicates {
  import opened Proposals
  import opened Sequences
  import opened Lanes
  import opened Chain
  import opened Segments
  import opened Agreement

  /** None of `txs` is in the proposal the cache describes. */
  ghost predicate Uncached<X>(env: Env<X>, cache: set<string>, txs: seq<Bytes>) {
    forall i :: 0 <= i < |txs| ==> env.hash(txs[i]) !in cache
  }

  /** The bytes a bid adds to a block repeat nothing. */
  ghost predicate RepeatFree<X>(env: Env<X>, bid: X) {
    env.encode(bid).Some? && env.bidInfo(bid).Bid? && WrapBundle(env, {}, env.bidInfo(bid).transactions).Wrapped? ==>
      Distinct([env.encode(bid).value] + WrapBundle(env, {}, env.bidInfo(bid).transactions).txs)
  }

  /** A lane offers no transaction twice, nor bids whose bundles repeat one. */
  ghost predicate OffersNoRepeats<S, X>(env: Env<X>, l: Lane<S, X>) {
    && (l.handlers.DefaultHandlers? ==> Distinct(l.order))
    && (l.handlers.AuctionHandlers? ==> forall bid :: bid in l.order ==> RepeatFree(env, bid))
  }

  lemma DistinctTail<T>(s: seq<T>)
    requires Distinct(s) && s != []
    ensures Distinct(s[1..]) && s[0] !in s[1..]
  {
    forall i | 0 <= i < |s[1..]| ensures s[1..][i] != s[0] {
      assert s[i + 1] != s[0];
    }
  }

  lemma DistinctCons<T>(x: T, s: seq<T>, within: seq<T>)
    requires Distinct(s) && x !in within && forall y :: y in s ==> y in within
    ensures Distinct([x] + s)
  {
    assert forall i :: 0 <= i < |s| ==> s[i] in s;
  }

  lemma {:induction false} DefaultSelectionIsFresh<S, X(!new)>(
    env: Env<X>, l: Lane<S, X>, cache: set<string>, st: S, total: int, max: int, order: seq<X>)
    requires Distinct(order)
    ensures var s := DefaultSelect(env, l, cache, st, total, max, order);
            && Uncached(env, cache, s.txs) && Encodes(env, s.picks, s.txs) && Distinct(s.picks)
            && forall x :: x in s.picks ==> x in order
    decreases |order|
  {
    if order != [] {
      var x := order[0];
      DistinctTail(order);
      if env.encode(x).None? || !l.matches(x) || env.hash(env.encode(x).value) in cache {
        DefaultSelectionIsFresh(env, l, cache, st, total, max, order[1..]);
      } else {
        var tx := env.encode(x).value;
        if total + |tx| <= max {
          var verdict := l.ante(st, x);
          if verdict.AnteErr? {
            DefaultSelectionIsFresh(env, l, cache, verdict.state, total, max, order[1..]);
          } else {
            DefaultSelectionIsFresh(env, l, cache, verdict.state, total + |tx|, max, order[1..]);
            var rest := DefaultSelect(env, l, cache, verdict.state, total + |tx|, max, order[1..]);
            hide Distinct;
            DistinctCons(x, rest.picks, order[1..]);
          }
        }
      }
    }
  }

  lemma {:induction false} WrappedIsUncached<X>(env: Env<X>, cache: set<string>, bundle: seq<Bytes>)
    requires WrapBundle(env, cache, bundle).Wrapped?
    ensures Uncached(env, cache, WrapBundle(env, cache, bundle).txs)
    ensures WrapBundle(env, {}, bundle) == WrapBundle(env, cache, bundle)
  {
    if bundle != [] {
      WrappedIsUncached(env, cache, bundle[1..]);
    }
  }

  lemma {:induction false} AuctionSelectionIsFresh<S, X(!new)>(env: Env<X>, l: Lane<S, X>, cache: set<string>, st: S, max: int, order: seq<X>)
    requires forall bid :: bid in order ==> RepeatFree(env, bid)
    ensures var s := AuctionSelect(env, l, cache, st, max, order);
            Uncached(env, cache, s.txs) && Distinct(s.txs)
    decreases |order|
  {
    if order != [] {
      var s := AuctionSelect(env, l, cache, st, max, order);
      AuctionSelectionIsFresh(env, l, cache, st, max, order[1..]);
      if s.txs != AuctionSelect(env, l, cache, st, max, order[1..]).txs {
        assert RepeatFree(env, order[0]);
        WrappedIsUncached(env, cache, env.bidInfo(order[0]).transactions);
      }
    }
  }

  /** Distinct transactions have distinct encodings. */
  lemma DistinctEncodings<X(!new)>(env: Env<X>, xs: seq<X>, txs: seq<Bytes>)
    requires Canonical(env) && Encodes(env, xs, txs) && Distinct(xs)
    ensures Distinct(txs)
  {
    forall i, j | 0 <= i < j < |txs| ensures txs[i] != txs[j] {
      assert env.decode(env.encode(xs[i]).value) == Some(xs[i]);
      assert env.decode(env.encode(xs[j]).value) == Some(xs[j]);
    }
  }

  lemma FreshIsNew<X>(env: Env<X>, txs: seq<Bytes>, more: seq<Bytes>)
    requires Distinct(txs) && Distinct(more) && Uncached(env, Hashes(env.hash, txs), more)
    ensures Distinct(txs + more)
  {
    forall i, j | 0 <= i < |txs| && 0 <= j < |more| ensures txs[i] != more[j] {
      assert txs[i] in txs;
      assert env.hash(txs[i]) in Hashes(env.hash, txs);
    }
  }

  lemma OneLaneAddsNoRepeats<S, X(!new)>(env: Env<X>, l: Lane<S, X>, max: int, b: Built<S>)
    requires Canonical(env) && !l.handlers.CustomHandlers? && OffersNoRepeats(env, l) && Distinct(b.txs)
    ensures Distinct(PrepareOne(env, l, max, b).txs)
  {
    var cache, limit := Hashes(env.hash, b.txs), LaneLimit(max, SumLen(b.txs), l.share);
    if l.handlers.DefaultHandlers? {
      DefaultSelectionIsFresh(env, l, cache, b.state, 0, limit, l.order);
      var s := DefaultSelect(env, l, cache, b.state, 0, limit, l.order);
      DistinctEncodings(env, s.picks, s.txs);
      FreshIsNew(env, b.txs, s.txs);
    } else {
      AuctionSelectionIsFresh(env, l, cache, b.state, limit, l.order);
      FreshIsNew(env, b.txs, AuctionSelect(env, l, cache, b.state, limit, l.order).txs);
    }
  }

  /** No byte string appears twice in a proposal, whatever the hash collides on. */
  lemma {:induction false} ProposalHasNoRepeats<S, X(!new)>(env: Env<X>, lanes: seq<Lane<S, X>>, max: int, b: Built<S>)
    requires Canonical(env) && Standard(lanes) && Distinct(b.txs)
    requires forall i :: 0 <= i < |lanes| ==> OffersNoRepeats(env, lanes[i])
    ensures Distinct(PrepareAll(env, lanes, max, b).txs)
    decreases |lanes|
  {
    if lanes != [] {
      hide PrepareOne, Canonical, OffersNoRepeats, Distinct;
      OneLaneAddsNoRepeats(env, lanes[0], max, b);
      ProposalHasNoRepeats(env, lanes[1..], max, PrepareOne(env, lanes[0], max, b));
    }
  }
}
