/** The block space lanes can rely on: with the unlimited lanes last, the truncated limits of the
    others add up to no more than the block. */
module Space {
  import opened Proposals
  import opened Lanes
  import opened Chain
  import opened Agreement

  function Shares<S, X>(lanes: seq<Lane<S, X>>): seq<int> {
    if lanes == [] then [] else [lanes[0].share] + Shares(lanes[1..])
  }

  ghost predicate AllLimited<S, X>(lanes: seq<Lane<S, X>>) {
    forall i :: 0 <= i < |lanes| ==> lanes[i].share > 0
  }

  lemma {:induction false} SharesAppend<S, X>(a: seq<Lane<S, X>>, b: seq<Lane<S, X>>)
    ensures SumShares(Shares(a + b)) == SumShares(Shares(a)) + SumShares(Shares(b))
  {
    if a == [] {
      assert a + b == b;
    } else {
      assert (a + b)[1..] == a[1..] + b && (a + b)[0] == a[0];
      SharesAppend(a[1..], b);
    }
  }

  lemma {:induction false} SharesNonNegative<S, X>(lanes: seq<Lane<S, X>>)
    requires forall i :: 0 <= i < |lanes| ==> lanes[i].share >= 0
    ensures SumShares(Shares(lanes)) >= 0
  {
    if lanes != [] {
      SharesNonNegative(lanes[1..]);
    }
  }

  /** One lane adds at most its share, and never makes the proposal larger than the block. */
  lemma OneLaneAddsAtMostItsShare<S, X>(env: Env<X>, l: Lane<S, X>, max: nat, b: Built<S>)
    ensures var b' := PrepareOne(env, l, max, b);
            && (l.share > 0 ==> SumLen(b'.txs) * ONE <= SumLen(b.txs) * ONE + l.share * max)
            && (SumLen(b.txs) <= max ==> SumLen(b'.txs) <= max)
  {
    var outcome := RunPrepare(env, l, b.state, b.txs, LaneLimit(max, SumLen(b.txs), l.share));
    if l.share > 0 {
      assert l.share * max >= 0;
    }
    if outcome.Prepared? && Fits(max, SumLen(b.txs), l.share, outcome.txs) {
      SumLenAppend(b.txs, outcome.txs);
      if l.share > 0 {
        LimitIsAtMostShare(max, SumLen(b.txs), l.share);
      }
      if outcome.txs == [] {
        assert b.txs + outcome.txs == b.txs;
      }
    }
  }

  /** A chain of limited lanes fills at most the sum of its shares, whatever their handlers do. */
  lemma {:induction false} LimitedLanesFillAtMostTheirShares<S, X>(env: Env<X>, lanes: seq<Lane<S, X>>, max: nat, b: Built<S>)
    requires AllLimited(lanes)
    ensures SumLen(PrepareAll(env, lanes, max, b).txs) * ONE <= SumLen(b.txs) * ONE + SumShares(Shares(lanes)) * max
    decreases |lanes|
  {
    if lanes != [] {
      hide PrepareOne;
      OneLaneAddsAtMostItsShare(env, lanes[0], max, b);
      LimitedLanesFillAtMostTheirShares(env, lanes[1..], max, PrepareOne(env, lanes[0], max, b));
      AddProducts(lanes[0].share, SumShares(Shares(lanes[1..])), max);
    }
  }

  /** No chain makes a proposal larger than the block. */
  lemma {:induction false} ProposalsFitTheBlock<S, X>(env: Env<X>, lanes: seq<Lane<S, X>>, max: nat, b: Built<S>)
    requires SumLen(b.txs) <= max
    ensures SumLen(PrepareAll(env, lanes, max, b).txs) <= max
    decreases |lanes|
  {
    if lanes != [] {
      hide PrepareOne;
      OneLaneAddsAtMostItsShare(env, lanes[0], max, b);
      ProposalsFitTheBlock(env, lanes[1..], max, PrepareOne(env, lanes[0], max, b));
    }
  }

  /** Byte counts within shares that make up at most the block fit the block. */
  lemma WithinSharesFits(total: nat, size: nat, a: int, b: int, max: nat)
    requires total * ONE <= a * max && size * ONE <= b * max && a + b <= ONE
    ensures total + size <= max
  {
    AddProducts(a, b, max);
    assert (ONE - (a + b)) * max >= 0;
    assert (total + size) * ONE <= ONE * max;
  }

  lemma SharesOfOne<S, X>(l: Lane<S, X>)
    ensures Shares([l]) == [l.share] && SumShares([l.share]) == l.share
  {
    assert [l][1..] == [];
    assert Shares([l]) == [l.share] + Shares<S, X>([]);
    assert [l.share][1..] == [];
  }

  lemma SharesUpTo<S, X>(before: seq<Lane<S, X>>, l: Lane<S, X>, after: seq<Lane<S, X>>)
    requires ValidShares(Shares(before + [l] + after))
    requires forall i :: 0 <= i < |after| ==> after[i].share >= 0
    ensures SumShares(Shares(before)) + l.share <= ONE
  {
    hide Shares, SumShares;
    SharesAppend(before + [l], after);
    SharesAppend(before, [l]);
    SharesOfOne(l);
    SharesNonNegative(after);
  }

  /** In a valid registry with the unlimited lanes last, a proposal refuses a lane's selection only if
      it exceeds the lane's own limit: the earlier lanes cannot have used its space up. */
  lemma OnlyTheOwnLimitRefuses<S, X>(env: Env<X>, before: seq<Lane<S, X>>, l: Lane<S, X>, after: seq<Lane<S, X>>,
                                     max: nat, st: S, txs: seq<Bytes>)
    requires ValidShares(Shares(before + [l] + after))
    requires l.share >= 0 && forall i :: 0 <= i < |after| ==> after[i].share >= 0
    requires l.share == 0 || AllLimited(before)
    ensures var total := SumLen(PrepareAll(env, before, max, Built([], st)).txs);
            Fits(max, total, l.share, txs) <==> txs == [] || SumLen(txs) <= LaneLimit(max, total, l.share)
  {
    hide PrepareAll, ValidShares;
    var total := SumLen(PrepareAll(env, before, max, Built([], st)).txs);
    ProposalsFitTheBlock(env, before, max, Built([], st));
    if l.share > 0 && SumLen(txs) <= LaneLimit(max, total, l.share) {
      LimitedLanesFillAtMostTheirShares(env, before, max, Built([], st));
      LimitIsAtMostShare(max, total, l.share);
      SharesUpTo(before, l, after);
      WithinSharesFits(total, SumLen(txs), SumShares(Shares(before)), l.share, max);
    }
  }

  /** In such a registry, what the default handler selects is never refused. */
  lemma DefaultSelectionIsNeverRefused<S(!new), X(!new)>(env: Env<X>, before: seq<Lane<S, X>>, l: Lane<S, X>, after: seq<Lane<S, X>>,
                                                         max: nat, st: S)
    requires ValidShares(Shares(before + [l] + after))
    requires l.share >= 0 && forall i :: 0 <= i < |after| ==> after[i].share >= 0
    requires l.share == 0 || AllLimited(before)
    requires l.handlers.DefaultHandlers?
    ensures var b := PrepareAll(env, before, max, Built([], st));
            Fits(max, SumLen(b.txs), l.share, Select(env, l, max, b).txs)
  {
    var b := PrepareAll(env, before, max, Built([], st));
    var limit := LaneLimit(max, SumLen(b.txs), l.share);
    DefaultSelectionFits(env, l, Hashes(env.hash, b.txs), b.state, 0, limit, l.order);
    OnlyTheOwnLimitRefuses(env, before, l, after, max, st, Select(env, l, max, b).txs);
  }

  lemma SharesOfTwo<S, X>(a: Lane<S, X>, b: Lane<S, X>)
    ensures Shares([a, b]) == [a.share, b.share]
    ensures SumShares([a.share, b.share]) == a.share + b.share
  {
    SharesOfOne(b);
    assert [a, b][1..] == [b];
    assert [a.share, b.share][1..] == [b.share];
  }

  /** An unlimited lane ahead of a limited one can use up its space: here it fills a block of ten bytes,
      and a transaction within the limit of five of the other lane is refused. */
  lemma UnlimitedLaneFirstTakesTheSpace<S>(st: S)
    returns (env: Env<bool>, unlimited: Lane<S, bool>, limited: Lane<S, bool>)
    ensures unlimited.share == 0 && limited.share > 0 && ValidShares(Shares([unlimited, limited]))
    ensures var b := PrepareOne(env, unlimited, 10, Built([], st));
            var txs := [[1, 1, 1, 1, 1]];
            && SumLen(txs) <= LaneLimit(10, SumLen(b.txs), limited.share)
            && !Fits(10, SumLen(b.txs), limited.share, txs)
  {
    var ten: Bytes := [0, 0, 0, 0, 0, 0, 0, 0, 0, 0];
    env := Env((x: bool) => None, (tx: Bytes) => None, (tx: Bytes) => "", (x: bool) => NotABid);
    var filler: (S, seq<Bytes>, int) -> PrepareOutcome<S, bool> :=
      (s: S, txs: seq<Bytes>, max: int) => Prepared([ten], [], s);
    var handlers: Handlers<S, bool> :=
      CustomHandlers(filler, (xs: seq<bool>) => true, (s: S, xs: seq<bool>) => Rejected);
    unlimited := Lane((x: bool) => true, (x: bool) => 0, (s: S, x: bool) => AnteOk(s), 0, [], handlers);
    limited := unlimited.(share := ONE / 2);
    SharesOfTwo(unlimited, limited);
    assert [ten][1..] == [] && SumLen([ten]) == 10;
    assert LaneLimit(10, 0, 0) == 10;
    assert [] + [ten] == [ten];
    var five: Bytes := [1, 1, 1, 1, 1];
    assert [five][1..] == [] && SumLen([five]) == 5;
  }
}
