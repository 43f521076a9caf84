/** When proposers and validators agree: what the prepare chain builds, the process chain accepts from a
    given state exactly when every lane's contribution is in the order that lane checks and replaying the
    contributions from that state verifies them. */
module Agreement {
  import opened Proposals
  import opened Lanes
  import opened Chain
  import opened Segments

  /** A failed verification leaves the state as it was. */
  ghost predicate FailureNeutral<S(!new), X(!new)>(l: Lane<S, X>) {
    forall st, x {:trigger l.ante(st, x)} :: l.ante(st, x).AnteErr? ==> l.ante(st, x).state == st
  }

  /** No transaction matches two lanes. */
  ghost predicate Exclusive<S, X(!new)>(lanes: seq<Lane<S, X>>) {
    forall i, j, x {:trigger lanes[i].matches(x), lanes[j].matches(x)} ::
      0 <= i < j < |lanes| && lanes[i].matches(x) ==> !lanes[j].matches(x)
  }

  /** An auction lane can only come first, and matches exactly the bids. */
  ghost predicate AuctionFirst<S, X(!new)>(env: Env<X>, lanes: seq<Lane<S, X>>) {
    && (forall i :: 0 < i < |lanes| ==> lanes[i].handlers.DefaultHandlers?)
    && (lanes != [] ==>
          && !lanes[0].handlers.CustomHandlers?
          && (lanes[0].handlers.AuctionHandlers? ==> forall x :: lanes[0].matches(x) <==> env.bidInfo(x).Bid?))
  }

  ghost predicate Configured<S, X(!new)>(env: Env<X>, lanes: seq<Lane<S, X>>) {
    Exclusive(lanes) && AuctionFirst(env, lanes)
  }

  ghost predicate AllFailureNeutral<S(!new), X(!new)>(lanes: seq<Lane<S, X>>) {
    forall i :: 0 <= i < |lanes| ==> FailureNeutral(lanes[i])
  }

  /** `txs` are the encodings of `xs`. */
  ghost predicate Encodes<X>(env: Env<X>, xs: seq<X>, txs: seq<Bytes>) {
    |xs| == |txs| && forall i :: 0 <= i < |xs| ==> env.encode(xs[i]) == Some(txs[i])
  }

  // ---------------------------------------------------------------- one lane's contribution

  function Select<S, X>(env: Env<X>, l: Lane<S, X>, max: int, b: Built<S>): Selection<S, X> {
    var limit := LaneLimit(max, SumLen(b.txs), l.share);
    match l.handlers
    case DefaultHandlers => DefaultSelect(env, l, Hashes(env.hash, b.txs), b.state, 0, limit, l.order)
    case AuctionHandlers => AuctionSelect(env, l, Hashes(env.hash, b.txs), b.state, limit, l.order)
    case _ => Selection([], [], [], b.state)
  }

  /** The transactions a lane contributes to a proposal. */
  function Contribution<S, X>(env: Env<X>, l: Lane<S, X>, max: int, b: Built<S>): seq<X> {
    if Fits(max, SumLen(b.txs), l.share, Select(env, l, max, b).txs) then Select(env, l, max, b).picks else []
  }

  /** All lanes' contributions, in registry order. */
  function Contributions<S, X>(env: Env<X>, lanes: seq<Lane<S, X>>, max: int, b: Built<S>): (segs: seq<seq<X>>)
    ensures |segs| == |lanes|
  {
    if lanes == [] then []
    else [Contribution(env, lanes[0], max, b)] + Contributions(env, lanes[1..], max, PrepareOne(env, lanes[0], max, b))
  }

  /** A default selection is encoded by its bytes, matches its lane and keeps to the limit, whatever the
      ante handler does. */
  lemma {:induction false} DefaultSelectionFits<S(!new), X(!new)>(
    env: Env<X>, l: Lane<S, X>, cache: set<string>, st: S, total: int, max: int, order: seq<X>)
    ensures var s := DefaultSelect(env, l, cache, st, total, max, order);
            && Encodes(env, s.picks, s.txs)
            && AllMatch(l, s.picks)
            && (s.txs != [] ==> total + SumLen(s.txs) <= max)
    decreases |order|
  {
    if order != [] {
      var x := order[0];
      if env.encode(x).None? || !l.matches(x) || env.hash(env.encode(x).value) in cache {
        DefaultSelectionFits(env, l, cache, st, total, max, order[1..]);
      } else {
        var tx := env.encode(x).value;
        if total + |tx| <= max {
          var verdict := l.ante(st, x);
          if verdict.AnteErr? {
            DefaultSelectionFits(env, l, cache, verdict.state, total, max, order[1..]);
          } else {
            DefaultSelectionFits(env, l, cache, verdict.state, total + |tx|, max, order[1..]);
            var rest := DefaultSelect(env, l, cache, verdict.state, total + |tx|, max, order[1..]);
            assert ([x] + rest.picks)[1..] == rest.picks && ([tx] + rest.txs)[1..] == rest.txs;
          }
        }
      }
    }
  }

  /** With a failure-neutral ante handler, verifying a default selection leads to the proposer's state. */
  lemma {:induction false} DefaultSelectionIsVerified<S(!new), X(!new)>(
    env: Env<X>, l: Lane<S, X>, cache: set<string>, st: S, total: int, max: int, order: seq<X>)
    requires FailureNeutral(l)
    ensures var s := DefaultSelect(env, l, cache, st, total, max, order);
            VerifyAll(l, st, s.picks) == Some(s.state)
    decreases |order|
  {
    if order != [] {
      var x := order[0];
      if env.encode(x).None? || !l.matches(x) || env.hash(env.encode(x).value) in cache {
        DefaultSelectionIsVerified(env, l, cache, st, total, max, order[1..]);
      } else {
        var tx := env.encode(x).value;
        if total + |tx| <= max {
          var verdict := l.ante(st, x);
          if verdict.AnteErr? {
            DefaultSelectionIsVerified(env, l, cache, verdict.state, total, max, order[1..]);
          } else {
            DefaultSelectionIsVerified(env, l, cache, verdict.state, total + |tx|, max, order[1..]);
            var rest := DefaultSelect(env, l, cache, verdict.state, total + |tx|, max, order[1..]);
            assert ([x] + rest.picks)[1..] == rest.picks && ([tx] + rest.txs)[1..] == rest.txs;
          }
        }
      }
    }
  }

  /** Any two transactions of `xs` are in order of priority. */
  ghost predicate PairwiseOrdered<S, X>(l: Lane<S, X>, xs: seq<X>) {
    forall i, j :: 0 <= i < j < |xs| ==> l.priority(xs[i]) >= l.priority(xs[j])
  }

  lemma {:induction false} SelectionKeepsOrder<S, X(!new)>(
    env: Env<X>, l: Lane<S, X>, cache: set<string>, st: S, total: int, max: int, order: seq<X>)
    requires PairwiseOrdered(l, order)
    ensures var s := DefaultSelect(env, l, cache, st, total, max, order);
            && PairwiseOrdered(l, s.picks)
            && forall x :: x in s.picks ==> x in order
    decreases |order|
  {
    if order != [] {
      var x := order[0];
      if env.encode(x).None? || !l.matches(x) || env.hash(env.encode(x).value) in cache {
        SelectionKeepsOrder(env, l, cache, st, total, max, order[1..]);
      } else {
        var tx := env.encode(x).value;
        if total + |tx| <= max {
          var verdict := l.ante(st, x);
          if verdict.AnteErr? {
            SelectionKeepsOrder(env, l, cache, verdict.state, total, max, order[1..]);
          } else {
            SelectionKeepsOrder(env, l, cache, verdict.state, total + |tx|, max, order[1..]);
            var rest := DefaultSelect(env, l, cache, verdict.state, total + |tx|, max, order[1..]);
            forall i | 0 <= i < |rest.picks| ensures l.priority(x) >= l.priority(rest.picks[i]) {
              assert rest.picks[i] in order[1..];
              var j :| 0 <= j < |order[1..]| && order[1..][j] == rest.picks[i];
              assert order[j + 1] == rest.picks[i];
            }
          }
        }
      }
    }
  }

  lemma {:induction false} WrappedIsDecoded<X(!new)>(env: Env<X>, cache: set<string>, bundle: seq<Bytes>)
    requires WrapBundle(env, cache, bundle).Wrapped?
    ensures var w := WrapBundle(env, cache, bundle);
            && |w.xs| == |bundle| && Encodes(env, w.xs, w.txs)
            && forall i :: 0 <= i < |bundle| ==> env.decode(bundle[i]) == Some(w.xs[i])
  {
    if bundle != [] {
      WrappedIsDecoded(env, cache, bundle[1..]);
    }
  }

  lemma {:induction false} AuctionSelectionIsVerified<S(!new), X(!new)>(
    env: Env<X>, l: Lane<S, X>, cache: set<string>, st: S, max: int, order: seq<X>)
    ensures var s := AuctionSelect(env, l, cache, st, max, order);
            && Encodes(env, s.picks, s.txs)
            && VerifyAll(l, st, s.picks) == Some(s.state)
            && (s.picks != [] ==>
                  && s.picks[0] in order
                  && env.bidInfo(s.picks[0]).Bid?
                  && var bundle := env.bidInfo(s.picks[0]).transactions;
                     && |s.picks| == |bundle| + 1
                     && forall i :: 0 < i < |s.picks| ==> env.decode(bundle[i - 1]) == Some(s.picks[i]))
    decreases |order|
  {
    if order != [] {
      var bid := order[0];
      var s := AuctionSelect(env, l, cache, st, max, order);
      var rest := AuctionSelect(env, l, cache, st, max, order[1..]);
      AuctionSelectionIsVerified(env, l, cache, st, max, order[1..]);
      if s.picks != rest.picks || s.txs != rest.txs || s.state != rest.state {
        var bundle := env.bidInfo(bid).transactions;
        WrappedIsDecoded(env, cache, bundle);
        var w := WrapBundle(env, cache, bundle);
        assert s.picks == [bid] + w.xs && s.picks[1..] == w.xs;
        BundleVerifiesAsSegment(env, l, l.ante(st, bid).state, bundle, w.xs);
      }
    }
  }

  /** A contribution has the shape of its lane's part and is encoded by what the proposal gained. */
  lemma ContributionHasShape<S(!new), X(!new)>(env: Env<X>, lanes: seq<Lane<S, X>>, i: nat, max: int, b: Built<S>)
    returns (txs: seq<Bytes>)
    requires Configured(env, lanes) && i < |lanes|
    ensures var seg := Contribution(env, lanes[i], max, b);
            && Encodes(env, seg, txs) && PrepareOne(env, lanes[i], max, b).txs == b.txs + txs
            && HasShape(env, lanes[i], seg, [])
  {
    var l := lanes[i];
    var limit := LaneLimit(max, SumLen(b.txs), l.share);
    var s := Select(env, l, max, b);
    if l.handlers.DefaultHandlers? {
      DefaultSelectionFits(env, l, Hashes(env.hash, b.txs), b.state, 0, limit, l.order);
    } else {
      assert i == 0;
      AuctionSelectionIsVerified(env, l, Hashes(env.hash, b.txs), b.state, limit, l.order);
    }
    txs := if Fits(max, SumLen(b.txs), l.share, s.txs) then s.txs else [];
    assert b.txs + [] == b.txs;
  }

  /** With a failure-neutral ante handler, verifying a contribution from the proposal's state before it
      leads to the state after it. */
  lemma ContributionIsVerified<S(!new), X(!new)>(env: Env<X>, l: Lane<S, X>, max: int, b: Built<S>)
    requires FailureNeutral(l) && !l.handlers.CustomHandlers?
    ensures VerifyAll(l, b.state, Contribution(env, l, max, b)) == Some(PrepareOne(env, l, max, b).state)
  {
    var limit := LaneLimit(max, SumLen(b.txs), l.share);
    if l.handlers.DefaultHandlers? {
      DefaultSelectionIsVerified(env, l, Hashes(env.hash, b.txs), b.state, 0, limit, l.order);
    } else {
      AuctionSelectionIsVerified(env, l, Hashes(env.hash, b.txs), b.state, limit, l.order);
    }
  }

  // ---------------------------------------------------------------- the whole block

  ghost predicate AllInOrder<S, X>(env: Env<X>, lanes: seq<Lane<S, X>>, segs: seq<seq<X>>) {
    |segs| == |lanes| && forall i :: 0 <= i < |lanes| ==> InOrder(env, lanes[i], segs[i])
  }

  lemma ConfiguredTail<S(!new), X(!new)>(env: Env<X>, lanes: seq<Lane<S, X>>)
    requires Configured(env, lanes) && lanes != []
    ensures Configured(env, lanes[1..])
  {
    var tail := lanes[1..];
    forall i, j, x | 0 <= i < j < |tail| && tail[i].matches(x) ensures !tail[j].matches(x) {
      assert lanes[i + 1].matches(x);
    }
  }

  lemma {:induction false} ContributionsMatchTheirLanes<S(!new), X(!new)>(env: Env<X>, lanes: seq<Lane<S, X>>, max: int, b: Built<S>)
    requires Configured(env, lanes)
    requires forall i :: 0 <= i < |lanes| ==> lanes[i].handlers.DefaultHandlers?
    ensures forall x :: x in Flatten(Contributions(env, lanes, max, b)) ==> SomeLaneMatches(lanes, x)
    decreases |lanes|
  {
    if lanes != [] {
      ConfiguredTail(env, lanes);
      var b' := PrepareOne(env, lanes[0], max, b);
      ContributionsMatchTheirLanes(env, lanes[1..], max, b');
      var txs := ContributionHasShape(env, lanes, 0, max, b);
      var segs, tail := Contributions(env, lanes, max, b), Contributions(env, lanes[1..], max, b');
      assert segs[1..] == tail;
      forall x | x in Flatten(segs) ensures SomeLaneMatches(lanes, x) {
        if x in Flatten(tail) {
          var i :| 0 <= i < |lanes[1..]| && lanes[1..][i].matches(x);
          assert lanes[i + 1].matches(x);
        } else {
          assert x in segs[0];
          assert lanes[0].matches(x);
        }
      }
    }
  }

  /** What the later lanes contribute does not match the first one. */
  lemma LaterContributionsDoNotMatch<S(!new), X(!new)>(env: Env<X>, lanes: seq<Lane<S, X>>, max: int, b: Built<S>)
    requires Configured(env, lanes) && lanes != []
    ensures NoneMatch(lanes[0], Flatten(Contributions(env, lanes[1..], max, b)))
  {
    ConfiguredTail(env, lanes);
    ContributionsMatchTheirLanes(env, lanes[1..], max, b);
    var rest := Flatten(Contributions(env, lanes[1..], max, b));
    forall k | 0 <= k < |rest| ensures !lanes[0].matches(rest[k]) {
      assert rest[k] in rest;
      var i :| 0 <= i < |lanes[1..]| && lanes[1..][i].matches(rest[k]);
      assert lanes[i + 1].matches(rest[k]);
    }
  }

  lemma EncodesNothing<X>(env: Env<X>)
    ensures Encodes(env, [], [])
  {
  }

  lemma EncodesAppend<X>(env: Env<X>, xs: seq<X>, txs: seq<Bytes>, ys: seq<X>, tys: seq<Bytes>)
    requires Encodes(env, xs, txs) && Encodes(env, ys, tys)
    ensures Encodes(env, xs + ys, txs + tys)
  {
  }

  lemma {:induction false} DecodeUndoesEncodes<X(!new)>(env: Env<X>, xs: seq<X>, txs: seq<Bytes>)
    requires Canonical(env) && Encodes(env, xs, txs)
    ensures DecodeAll(env, txs) == Some(xs)
  {
    if xs == [] {
      assert txs == [];
    } else {
      assert env.encode(xs[0]) == Some(txs[0]);
      DecodeUndoesEncodes(env, xs[1..], txs[1..]);
      assert [xs[0]] + xs[1..] == xs;
    }
  }

  /** A proposal consists of the encoded contributions, in registry order. */
  lemma {:induction false} ProposalIsItsContributions<S(!new), X(!new)>(env: Env<X>, lanes: seq<Lane<S, X>>, max: int, b: Built<S>)
    returns (txs: seq<Bytes>)
    requires Configured(env, lanes)
    ensures Encodes(env, Flatten(Contributions(env, lanes, max, b)), txs)
    ensures PrepareAll(env, lanes, max, b).txs == b.txs + txs
    decreases |lanes|
  {
    hide Configured, Contribution, PrepareOne, Encodes, HasShape;
    if lanes == [] {
      txs := [];
      EncodesNothing(env);
      assert b.txs + [] == b.txs;
    } else {
      ConfiguredTail(env, lanes);
      var b' := PrepareOne(env, lanes[0], max, b);
      var first := ContributionHasShape(env, lanes, 0, max, b);
      var rest := ProposalIsItsContributions(env, lanes[1..], max, b');
      var segs, tail := Contributions(env, lanes, max, b), Contributions(env, lanes[1..], max, b');
      assert segs[1..] == tail;
      EncodesAppend(env, segs[0], first, Flatten(tail), rest);
      txs := first + rest;
      assert b.txs + first + rest == b.txs + txs;
    }
  }

  /** Verifies each lane's part in turn, from a validator's own state. */
  function Replay<S, X>(lanes: seq<Lane<S, X>>, segs: seq<seq<X>>, st: S): Option<S>
    requires |segs| == |lanes|
  {
    if lanes == [] then Some(st)
    else match VerifyAll(lanes[0], st, segs[0])
      case None => None
      case Some(st') => Replay(lanes[1..], segs[1..], st')
  }

  /** The validator's verdict on the contributions, from whatever state it has and whatever the ante
      handlers do: accepted exactly when each of them is in order and replaying them verifies them, and
      then with the state of the replay. */
  lemma {:induction false} ContributionsAreAcceptedIff<S(!new), X(!new)>(
    env: Env<X>, lanes: seq<Lane<S, X>>, max: int, b: Built<S>, st: S)
    requires Configured(env, lanes) && Canonical(env)
    ensures var segs := Contributions(env, lanes, max, b);
            var replayed := Replay(lanes, segs, st);
            ProcessAll(env, lanes, st, Flatten(segs))
            == if AllInOrder(env, lanes, segs) && replayed.Some? then Accept(replayed.value) else Reject
    decreases |lanes|
  {
    hide Configured, Canonical, Contribution, PrepareOne, InOrder, CheckOrder, RunProcess, AllInOrder, VerifyAll;
    if lanes == [] {
      NothingIsInOrder<S, X>(env);
    } else {
      var b' := PrepareOne(env, lanes[0], max, b);
      var segs, tail := Contributions(env, lanes, max, b), Contributions(env, lanes[1..], max, b');
      assert segs[1..] == tail;
      OneLaneIsAcceptedIff(env, lanes, max, b, st);
      AllInOrderCons(env, lanes, segs);
      ConfiguredTail(env, lanes);
      var verified := VerifyAll(lanes[0], st, segs[0]);
      if verified.Some? {
        ContributionsAreAcceptedIff(env, lanes[1..], max, b', verified.value);
      }
    }
  }

  lemma NothingIsInOrder<S, X>(env: Env<X>)
    ensures AllInOrder<S, X>(env, [], [])
  {
  }

  lemma AllInOrderCons<S, X>(env: Env<X>, lanes: seq<Lane<S, X>>, segs: seq<seq<X>>)
    requires lanes != [] && |segs| == |lanes|
    ensures AllInOrder(env, lanes, segs) <==> InOrder(env, lanes[0], segs[0]) && AllInOrder(env, lanes[1..], segs[1..])
  {
    if InOrder(env, lanes[0], segs[0]) && AllInOrder(env, lanes[1..], segs[1..]) {
      forall i | 0 <= i < |lanes| ensures InOrder(env, lanes[i], segs[i]) {
        if i > 0 {
          assert InOrder(env, lanes[1..][i - 1], segs[1..][i - 1]);
        }
      }
    }
    if AllInOrder(env, lanes, segs) {
      forall i | 0 <= i < |lanes[1..]| ensures InOrder(env, lanes[1..][i], segs[1..][i]) {
        assert InOrder(env, lanes[i + 1], segs[i + 1]);
      }
    }
  }

  /** The first lane rejects the block if its contribution is out of order or does not verify; otherwise
      it hands on the later contributions, with the state that verifying its own leads to. */
  lemma OneLaneIsAcceptedIff<S(!new), X(!new)>(env: Env<X>, lanes: seq<Lane<S, X>>, max: int, b: Built<S>, st: S)
    requires Configured(env, lanes) && Canonical(env) && lanes != []
    ensures var seg, b' := Contribution(env, lanes[0], max, b), PrepareOne(env, lanes[0], max, b);
            var rest := Flatten(Contributions(env, lanes[1..], max, b'));
            var verified := VerifyAll(lanes[0], st, seg);
            ProcessAll(env, lanes, st, seg + rest)
            == if InOrder(env, lanes[0], seg) && verified.Some? then ProcessAll(env, lanes[1..], verified.value, rest) else Reject
  {
    var l, seg, b' := lanes[0], Contribution(env, lanes[0], max, b), PrepareOne(env, lanes[0], max, b);
    var rest := Flatten(Contributions(env, lanes[1..], max, b'));
    assert !l.handlers.CustomHandlers?;
    var txs := ContributionHasShape(env, lanes, 0, max, b);
    LaterContributionsDoNotMatch(env, lanes, max, b');
    hide Configured, Canonical, Contribution, PrepareOne;
    ShapeWithRest(env, l, seg, rest);
    CheckOrderIffInOrder(env, l, seg, rest);
    if InOrder(env, l, seg) {
      ProcessOfSegment(env, l, st, seg, rest);
    }
    if seg + rest == [] {
      EmptySegment(env, l, st);
      EmptyIsAccepted(env, lanes[1..], st);
    }
  }

  lemma ShapeWithRest<S, X>(env: Env<X>, l: Lane<S, X>, seg: seq<X>, rest: seq<X>)
    requires HasShape(env, l, seg, []) && NoneMatch(l, rest)
    ensures HasShape(env, l, seg, rest)
  {
  }

  /** Agreement: a validator in any state accepts a block built by the prepare chain, with the state of
      the replay, exactly when every contribution is in its lane's order and the replay verifies. */
  lemma ProposalIsAcceptedIff<S(!new), X(!new)>(env: Env<X>, lanes: seq<Lane<S, X>>, max: int, b: Built<S>, st: S)
    requires Configured(env, lanes) && Canonical(env) && b.txs == []
    ensures var segs := Contributions(env, lanes, max, b);
            var replayed := Replay(lanes, segs, st);
            ProcessBlock(env, lanes, st, PrepareAll(env, lanes, max, b).txs)
            == if AllInOrder(env, lanes, segs) && replayed.Some? then Accept(replayed.value) else Reject
  {
    hide Configured, Canonical, Replay, AllInOrder, ProcessAll, PrepareAll, Encodes;
    var txs := ProposalIsItsContributions(env, lanes, max, b);
    assert [] + txs == txs;
    DecodeUndoesEncodes(env, Flatten(Contributions(env, lanes, max, b)), txs);
    ContributionsAreAcceptedIff(env, lanes, max, b, st);
  }

  /** From the proposer's own state, a validator arrives where the proposer did exactly when every
      contribution is in order and the replay leads there. */
  lemma ProposerAndValidatorAgreeIff<S(!new), X(!new)>(env: Env<X>, lanes: seq<Lane<S, X>>, max: int, st: S)
    requires Configured(env, lanes) && Canonical(env)
    ensures var built, segs := PrepareAll(env, lanes, max, Built([], st)), Contributions(env, lanes, max, Built([], st));
            ProcessBlock(env, lanes, st, built.txs) == Accept(built.state)
            <==> AllInOrder(env, lanes, segs) && Replay(lanes, segs, st) == Some(built.state)
  {
    hide Configured, Canonical, Replay, AllInOrder, ProcessBlock, PrepareAll;
    ProposalIsAcceptedIff(env, lanes, max, Built([], st), st);
  }

  /** With failure-neutral ante handlers the replay follows the proposer. */
  lemma {:induction false} ReplayFollowsTheProposer<S(!new), X(!new)>(env: Env<X>, lanes: seq<Lane<S, X>>, max: int, b: Built<S>)
    requires Standard(lanes) && AllFailureNeutral(lanes)
    ensures Replay(lanes, Contributions(env, lanes, max, b), b.state) == Some(PrepareAll(env, lanes, max, b).state)
    decreases |lanes|
  {
    if lanes != [] {
      ContributionIsVerified(env, lanes[0], max, b);
      hide Contribution, PrepareOne, VerifyAll;
      var b' := PrepareOne(env, lanes[0], max, b);
      ReplayFollowsTheProposer(env, lanes[1..], max, b');
      assert Contributions(env, lanes, max, b)[1..] == Contributions(env, lanes[1..], max, b');
    }
  }

  /** With failure-neutral ante handlers, order alone decides: a proposal is accepted from the same state,
      with the proposer's state, exactly when every contribution is in its lane's order. */
  lemma ProposalIsAcceptedIffInOrder<S(!new), X(!new)>(env: Env<X>, lanes: seq<Lane<S, X>>, max: int, st: S)
    requires Configured(env, lanes) && Canonical(env) && AllFailureNeutral(lanes)
    ensures var built := PrepareAll(env, lanes, max, Built([], st));
            ProcessBlock(env, lanes, st, built.txs)
            == if AllInOrder(env, lanes, Contributions(env, lanes, max, Built([], st))) then Accept(built.state) else Reject
  {
    ConfiguredIsStandard(env, lanes);
    hide Configured, Canonical, Standard, Replay, AllInOrder, ProcessBlock, PrepareAll, AllFailureNeutral;
    ProposalIsAcceptedIff(env, lanes, max, Built([], st), st);
    ReplayFollowsTheProposer(env, lanes, max, Built([], st));
  }

  lemma ConfiguredIsStandard<S, X(!new)>(env: Env<X>, lanes: seq<Lane<S, X>>)
    requires Configured(env, lanes)
    ensures Standard(lanes)
  {
  }
}
