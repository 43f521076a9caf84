/** What becomes of each transaction an iteration offers: which a lane picks, which it drops from its
    mempool, and where selecting ends. */
module Selections {
  import opened Proposals
  import opened Lanes

  /** What becomes of a transaction that is reached. */
  datatype Fate = Picked | Dropped | Passed

  /** The transactions with the given fate, in order. */
  ghost function Those<X>(xs: seq<X>, fates: seq<Fate>, fate: Fate): seq<X>
    requires |xs| == |fates|
  {
    if xs == [] then [] else (if fates[0] == fate then [xs[0]] else []) + Those(xs[1..], fates[1..], fate)
  }

  ghost function PickedBytes<X>(env: Env<X>, xs: seq<X>, fates: seq<Fate>): nat
    requires |xs| == |fates|
  {
    if xs == [] then 0
    else (if fates[0].Picked? && env.encode(xs[0]).Some? then |env.encode(xs[0]).value| else 0) + PickedBytes(env, xs[1..], fates[1..])
  }

  // ---------------------------------------------------------------- default lanes

  /** A transaction of the lane that is not in the proposal yet. */
  predicate IsCandidate<S, X>(env: Env<X>, l: Lane<S, X>, cache: set<string>, x: X) {
    env.encode(x).Some? && l.matches(x) && env.hash(env.encode(x).value) !in cache
  }

  function StateAfter<S, X>(env: Env<X>, l: Lane<S, X>, cache: set<string>, st: S, x: X): S {
    if IsCandidate(env, l, cache, x) then l.ante(st, x).state else st
  }

  predicate DropsIt<S, X>(env: Env<X>, l: Lane<S, X>, cache: set<string>, st: S, x: X) {
    || env.encode(x).None?
    || !l.matches(x)
    || (IsCandidate(env, l, cache, x) && l.ante(st, x).AnteErr?)
  }

  function FateOf<S, X>(env: Env<X>, l: Lane<S, X>, cache: set<string>, st: S, x: X): Fate {
    if IsCandidate(env, l, cache, x) && l.ante(st, x).AnteOk? then Picked
    else if DropsIt(env, l, cache, st, x) then Dropped
    else Passed
  }

  /** The candidate fits, after the bytes picked before it. */
  ghost predicate FitsAfter<X>(env: Env<X>, xs: seq<X>, fates: seq<Fate>, total: int, max: int, x: X)
    requires |xs| == |fates| && env.encode(x).Some?
  {
    total + PickedBytes(env, xs, fates) + |env.encode(x).value| <= max
  }

  /** The transaction at `k` has its fate in the state at which it is reached, and fits if it is a candidate. */
  ghost predicate FateAt<S, X>(env: Env<X>, l: Lane<S, X>, cache: set<string>, total: int, max: int, order: seq<X>,
                               states: seq<S>, fates: seq<Fate>, k: nat)
    requires k < |fates| <= |order| && |states| == |fates| + 1
  {
    && fates[k] == FateOf(env, l, cache, states[k], order[k])
    && states[k + 1] == StateAfter(env, l, cache, states[k], order[k])
    && (IsCandidate(env, l, cache, order[k]) ==> FitsAfter(env, order[..k], fates[..k], total, max, order[k]))
  }

  ghost predicate IsAccount<S, X>(env: Env<X>, l: Lane<S, X>, cache: set<string>, st: S, total: int, max: int, order: seq<X>,
                                  states: seq<S>, fates: seq<Fate>, s: Selection<S, X>)
  {
    && |fates| <= |order| && |states| == |fates| + 1 && states[0] == st && states[|fates|] == s.state
    && (forall k {:trigger fates[k]} {:trigger order[k]} :: 0 <= k < |fates| ==> FateAt(env, l, cache, total, max, order, states, fates, k))
    && (|fates| < |order| ==>
          && IsCandidate(env, l, cache, order[|fates|])
          && !FitsAfter(env, order[..|fates|], fates, total, max, order[|fates|]))
    && s.picks == Those(order[..|fates|], fates, Picked)
    && s.toRemove == Those(order[..|fates|], fates, Dropped)
    && SumLen(s.txs) == PickedBytes(env, order[..|fates|], fates)
  }

  lemma PickedBytesCons<X>(env: Env<X>, order: seq<X>, fate: Fate, fates: seq<Fate>, k: nat)
    requires k <= |fates| && |fates| < |order|
    ensures ([fate] + fates)[..k + 1] == [fate] + fates[..k]
    ensures order[..k + 1][1..] == order[1..][..k]
    ensures PickedBytes(env, order[..k + 1], ([fate] + fates)[..k + 1])
            == (if fate.Picked? && env.encode(order[0]).Some? then |env.encode(order[0]).value| else 0)
               + PickedBytes(env, order[1..][..k], fates[..k])
  {
    assert ([fate] + fates)[..k + 1] == [fate] + fates[..k];
    assert ([fate] + fates[..k])[1..] == fates[..k];
    assert order[..k + 1][1..] == order[1..][..k];
  }

  lemma ThoseCons<X>(order: seq<X>, fate: Fate, fates: seq<Fate>, which: Fate)
    requires |fates| < |order|
    ensures Those(order[..|fates| + 1], [fate] + fates, which)
            == (if fate == which then [order[0]] else []) + Those(order[1..][..|fates|], fates, which)
  {
    assert ([fate] + fates)[1..] == fates;
    assert order[..|fates| + 1][1..] == order[1..][..|fates|];
  }

  lemma AccountCons<S, X>(env: Env<X>, l: Lane<S, X>, cache: set<string>, st: S, total: int, max: int, order: seq<X>,
                          size: nat, states: seq<S>, fates: seq<Fate>, s: Selection<S, X>, rest: Selection<S, X>)
    requires order != [] && IsAccount(env, l, cache, StateAfter(env, l, cache, st, order[0]), total + size, max, order[1..], states, fates, rest)
    requires IsCandidate(env, l, cache, order[0]) ==> total + |env.encode(order[0]).value| <= max
    requires var fate := FateOf(env, l, cache, st, order[0]);
             && size == (if fate.Picked? then |env.encode(order[0]).value| else 0)
             && s.state == rest.state && SumLen(s.txs) == size + SumLen(rest.txs)
             && s.picks == (if fate.Picked? then [order[0]] else []) + rest.picks
             && s.toRemove == (if fate.Dropped? then [order[0]] else []) + rest.toRemove
    ensures IsAccount(env, l, cache, st, total, max, order, [st] + states, [FateOf(env, l, cache, st, order[0])] + fates, s)
  {
    hide IsCandidate, StateAfter, SumLen, Those, PickedBytes;
    var fate := FateOf(env, l, cache, st, order[0]);
    assert fate.Picked? ==> env.encode(order[0]).Some? by {
      PickedIsEncoded(env, l, cache, st, order[0]);
    }
    hide FateOf;
    var all, fs := [st] + states, [fate] + fates;
    forall k | 0 <= k < |fs| ensures FateAt(env, l, cache, total, max, order, all, fs, k) {
      if k > 0 {
        assert fates[k - 1] == fs[k] && order[1..][k - 1] == order[k];
        PickedBytesCons(env, order, fate, fates, k - 1);
      } else {
        NothingPicked(env, order[..0], fs[..0]);
      }
    }
    PickedBytesCons(env, order, fate, fates, |fates|);
    assert fs[..|fates| + 1] == fs && fates[..|fates|] == fates;
    if |fs| < |order| {
      assert order[1..][|fates|] == order[|fs|] && IsCandidate(env, l, cache, order[|fs|]);
      PickedIsEncoded(env, l, cache, st, order[|fs|]);
      assert !FitsAfter(env, order[1..][..|fates|], fates, total + size, max, order[|fs|]);
      assert order[..|fs|] == order[..|fates| + 1];
    }
    ThoseCons(order, fate, fates, Picked);
    ThoseCons(order, fate, fates, Dropped);
  }

  lemma PickedIsEncoded<S, X>(env: Env<X>, l: Lane<S, X>, cache: set<string>, st: S, x: X)
    ensures FateOf(env, l, cache, st, x).Picked? || IsCandidate(env, l, cache, x) ==> env.encode(x).Some?
  {
  }

  lemma NothingPicked<X>(env: Env<X>, xs: seq<X>, fates: seq<Fate>)
    requires xs == [] && fates == []
    ensures PickedBytes(env, xs, fates) == 0
  {
  }

  lemma {:induction false} SelectionAccount<S(!new), X(!new)>(
    env: Env<X>, l: Lane<S, X>, cache: set<string>, st: S, total: int, max: int, order: seq<X>)
    returns (states: seq<S>, fates: seq<Fate>)
    ensures IsAccount(env, l, cache, st, total, max, order, states, fates, DefaultSelect(env, l, cache, st, total, max, order))
    decreases |order|
  {
    if order == [] || (IsCandidate(env, l, cache, order[0]) && total + |env.encode(order[0]).value| > max) {
      states, fates := [st], [];
    } else {
      var x := order[0];
      var size := if FateOf(env, l, cache, st, x).Picked? then |env.encode(x).value| else 0;
      OneSelected(env, l, cache, st, total, max, order);
      hide DefaultSelect, IsAccount;
      var st' := StateAfter(env, l, cache, st, x);
      states, fates := SelectionAccount(env, l, cache, st', total + size, max, order[1..]);
      AccountCons(env, l, cache, st, total, max, order, size, states, fates,
                  DefaultSelect(env, l, cache, st, total, max, order), DefaultSelect(env, l, cache, st', total + size, max, order[1..]));
      states, fates := [st] + states, [FateOf(env, l, cache, st, x)] + fates;
    }
  }

  /** The default selection, transaction by transaction. It goes through the iteration up to the first
      candidate that exceeds the limit after what was picked before it; it picks the candidates that
      verify, and drops exactly those that cannot be encoded, do not match, or fail to verify. */
  lemma DefaultSelectionFates<S(!new), X(!new)>(
    env: Env<X>, l: Lane<S, X>, cache: set<string>, st: S, total: int, max: int, order: seq<X>)
    returns (states: seq<S>, fates: seq<Fate>)
    ensures |fates| <= |order| && |states| == |fates| + 1 && states[0] == st
    ensures forall k {:trigger fates[k]} {:trigger order[k]} :: 0 <= k < |fates| ==>
              var x, candidate := order[k], env.encode(order[k]).Some? && l.matches(order[k]) && env.hash(env.encode(order[k]).value) !in cache;
              && (fates[k].Picked? <==> candidate && l.ante(states[k], x).AnteOk?)
              && (fates[k].Dropped? <==> env.encode(x).None? || !l.matches(x) || (candidate && l.ante(states[k], x).AnteErr?))
              && states[k + 1] == (if candidate then l.ante(states[k], x).state else states[k])
              && (candidate ==> total + PickedBytes(env, order[..k], fates[..k]) + |env.encode(x).value| <= max)
    ensures var n := |fates|;
            n < |order| ==>
              && env.encode(order[n]).Some? && l.matches(order[n]) && env.hash(env.encode(order[n]).value) !in cache
              && total + PickedBytes(env, order[..n], fates) + |env.encode(order[n]).value| > max
    ensures var s, n := DefaultSelect(env, l, cache, st, total, max, order), |fates|;
            && s.state == states[n] && SumLen(s.txs) == PickedBytes(env, order[..n], fates)
            && s.picks == Those(order[..n], fates, Picked)
            && s.toRemove == Those(order[..n], fates, Dropped)
  {
    states, fates := SelectionAccount(env, l, cache, st, total, max, order);
    hide DefaultSelect, Those, PickedBytes, SumLen;
    if |fates| < |order| {
      assert IsCandidate(env, l, cache, order[|fates|]) && !FitsAfter(env, order[..|fates|], fates, total, max, order[|fates|]);
    }
  }

  /** One step of the selection. */
  lemma SelectUnfolds<S, X>(env: Env<X>, l: Lane<S, X>, cache: set<string>, st: S, total: int, max: int, order: seq<X>)
    requires order != []
    requires IsCandidate(env, l, cache, order[0]) ==> total + |env.encode(order[0]).value| <= max
    ensures var x := order[0];
            var picked := (IsCandidate(env, l, cache, x) && l.ante(st, x).AnteOk?);
            var size := if picked then |env.encode(x).value| else 0;
            var rest := DefaultSelect(env, l, cache, StateAfter(env, l, cache, st, x), total + size, max, order[1..]);
            DefaultSelect(env, l, cache, st, total, max, order)
            == if picked then Picking(x, env.encode(x).value, rest)
               else if DropsIt(env, l, cache, st, x) then Dropping(x, rest)
               else rest
  {
    hide Picking, Dropping;
  }

  lemma OneSelected<S, X>(env: Env<X>, l: Lane<S, X>, cache: set<string>, st: S, total: int, max: int, order: seq<X>)
    requires order != []
    requires IsCandidate(env, l, cache, order[0]) ==> total + |env.encode(order[0]).value| <= max
    ensures var x := order[0];
            var picked := (IsCandidate(env, l, cache, x) && l.ante(st, x).AnteOk?);
            var size := if picked then |env.encode(x).value| else 0;
            var s := DefaultSelect(env, l, cache, st, total, max, order);
            var rest := DefaultSelect(env, l, cache, StateAfter(env, l, cache, st, x), total + size, max, order[1..]);
            && s.state == rest.state && SumLen(s.txs) == size + SumLen(rest.txs)
            && s.picks == (if picked then [x] else []) + rest.picks
            && s.toRemove == (if DropsIt(env, l, cache, st, x) then [x] else []) + rest.toRemove
  {
    SelectUnfolds(env, l, cache, st, total, max, order);
    hide DefaultSelect, StateAfter, SumLen;
    var x := order[0];
    if IsCandidate(env, l, cache, x) && l.ante(st, x).AnteOk? {
      var tx := env.encode(x).value;
      SumLenCons(tx, DefaultSelect(env, l, cache, StateAfter(env, l, cache, st, x), total + |tx|, max, order[1..]).txs);
    }
  }

  lemma SumLenCons(tx: Bytes, txs: seq<Bytes>)
    ensures SumLen([tx] + txs) == |tx| + SumLen(txs)
  {
    assert ([tx] + txs)[1..] == txs;
  }

  // ---------------------------------------------------------------- the auction lane

  /** A bid that is not in the proposal yet and fits the lane's limit by itself. */
  predicate IsBidCandidate<X>(env: Env<X>, cache: set<string>, max: int, bid: X) {
    env.encode(bid).Some? && env.hash(env.encode(bid).value) !in cache && |env.encode(bid).value| <= max
  }

  /** A candidate whose bundle verifies and wraps. */
  predicate Wins<S, X>(env: Env<X>, l: Lane<S, X>, cache: set<string>, st: S, max: int, bid: X) {
    && IsBidCandidate(env, cache, max, bid)
    && VerifyTx(env, l, st, bid, env.bidInfo(bid)).Some?
    && WrapBundle(env, cache, env.bidInfo(bid).transactions).Wrapped?
  }

  /** Dropped: unencodable, or a candidate that does not verify or whose bundle is malformed. */
  predicate DropsBid<S, X>(env: Env<X>, l: Lane<S, X>, cache: set<string>, st: S, max: int, bid: X) {
    || env.encode(bid).None?
    || (&& IsBidCandidate(env, cache, max, bid)
        && (VerifyTx(env, l, st, bid, env.bidInfo(bid)).Some? ==>
              WrapBundle(env, cache, env.bidInfo(bid).transactions).WrapFailed?))
  }

  ghost predicate IsBidAccount<S, X>(env: Env<X>, l: Lane<S, X>, cache: set<string>, st: S, max: int, order: seq<X>,
                                     fates: seq<Fate>, s: Selection<S, X>)
  {
    && |fates| <= |order|
    && (forall k {:trigger fates[k]} {:trigger order[k]} :: 0 <= k < |fates| ==>
          && !Wins(env, l, cache, st, max, order[k])
          && fates[k] == if DropsBid(env, l, cache, st, max, order[k]) then Dropped else Passed)
    && s.toRemove == Those(order[..|fates|], fates, Dropped)
    && if |fates| == |order| then s.picks == [] && s.txs == [] && s.state == st
       else
         var bid := order[|fates|];
         && Wins(env, l, cache, st, max, bid)
         && var w := WrapBundle(env, cache, env.bidInfo(bid).transactions);
            && s.picks == [bid] + w.xs && s.txs == [env.encode(bid).value] + w.txs
            && Some(s.state) == VerifyTx(env, l, st, bid, env.bidInfo(bid))
  }

  lemma {:induction false} BidAccount<S(!new), X(!new)>(env: Env<X>, l: Lane<S, X>, cache: set<string>, st: S, max: int, order: seq<X>)
    returns (fates: seq<Fate>)
    ensures IsBidAccount(env, l, cache, st, max, order, fates, AuctionSelect(env, l, cache, st, max, order))
    decreases |order|
  {
    if order == [] || Wins(env, l, cache, st, max, order[0]) {
      fates := [];
    } else {
      var tail := BidAccount(env, l, cache, st, max, order[1..]);
      var fate := if DropsBid(env, l, cache, st, max, order[0]) then Dropped else Passed;
      fates := [fate] + tail;
      OneBidLost(env, l, cache, st, max, order);
      ThoseCons(order, fate, tail, Dropped);
      hide AuctionSelect, Wins, WrapBundle, VerifyTx, DropsBid, Those;
      forall k | 0 <= k < |fates|
        ensures !Wins(env, l, cache, st, max, order[k])
        ensures fates[k] == if DropsBid(env, l, cache, st, max, order[k]) then Dropped else Passed
      {
        assert k > 0 ==> order[1..][k - 1] == order[k] && tail[k - 1] == fates[k];
      }
      assert order[1..][..|tail|] == order[..|fates|][1..];
    }
  }

  /** The auction's selection, bid by bid. The first bid that is new, fits by itself, verifies and wraps is
      picked with its bundle; dropped are exactly the bids before it that cannot be encoded, or are new and
      fit but do not verify or have a malformed bundle. */
  lemma AuctionSelectionFates<S(!new), X(!new)>(env: Env<X>, l: Lane<S, X>, cache: set<string>, st: S, max: int, order: seq<X>)
    returns (fates: seq<Fate>)
    ensures |fates| <= |order|
    ensures forall k {:trigger fates[k]} {:trigger order[k]} :: 0 <= k < |fates| ==>
              var bid, info := order[k], env.bidInfo(order[k]);
              var candidate := env.encode(bid).Some? && env.hash(env.encode(bid).value) !in cache && |env.encode(bid).value| <= max;
              var verified := VerifyTx(env, l, st, bid, info).Some?;
              && (candidate && verified ==> !WrapBundle(env, cache, info.transactions).Wrapped?)
              && (fates[k].Dropped? <==>
                    || env.encode(bid).None?
                    || (candidate && (!verified || WrapBundle(env, cache, info.transactions).WrapFailed?)))
    ensures var s, n := AuctionSelect(env, l, cache, st, max, order), |fates|;
            && s.toRemove == Those(order[..n], fates, Dropped)
            && (n == |order| ==> s.picks == [] && s.txs == [] && s.state == st)
            && (n < |order| ==>
                  var bid := order[n];
                  && env.encode(bid).Some? && env.hash(env.encode(bid).value) !in cache && |env.encode(bid).value| <= max
                  && VerifyTx(env, l, st, bid, env.bidInfo(bid)) == Some(s.state)
                  && s.picks != [] && s.txs != [] && s.picks[0] == bid && s.txs[0] == env.encode(bid).value
                  && WrapBundle(env, cache, env.bidInfo(bid).transactions) == Wrapped(s.picks[1..], s.txs[1..]))
  {
    fates := BidAccount(env, l, cache, st, max, order);
    hide AuctionSelect, WrapBundle, Those;
    var s := AuctionSelect(env, l, cache, st, max, order);
    if |fates| < |order| {
      assert Wins(env, l, cache, st, max, order[|fates|]);
      var w := WrapBundle(env, cache, env.bidInfo(order[|fates|]).transactions);
      assert s.picks[1..] == w.xs && s.txs[1..] == w.txs;
    }
  }

  lemma OneBidLost<S, X>(env: Env<X>, l: Lane<S, X>, cache: set<string>, st: S, max: int, order: seq<X>)
    requires order != [] && !Wins(env, l, cache, st, max, order[0])
    ensures var s, rest := AuctionSelect(env, l, cache, st, max, order), AuctionSelect(env, l, cache, st, max, order[1..]);
            && s.picks == rest.picks && s.txs == rest.txs && s.state == rest.state
            && s.toRemove == (if DropsBid(env, l, cache, st, max, order[0]) then [order[0]] else []) + rest.toRemove
  {
    hide VerifyTx, WrapBundle;
  }

  // ---------------------------------------------------------------- bundles

  /** A bundle wraps exactly when all of it decodes, can be encoded again and is new. */
  lemma {:induction false} WrapsIff<X>(env: Env<X>, cache: set<string>, bundle: seq<Bytes>, xs: seq<X>, txs: seq<Bytes>)
    ensures WrapBundle(env, cache, bundle) == Wrapped(xs, txs) <==>
              && |xs| == |txs| == |bundle|
              && forall i :: 0 <= i < |bundle| ==>
                   env.decode(bundle[i]) == Some(xs[i]) && env.encode(xs[i]) == Some(txs[i]) && env.hash(txs[i]) !in cache
    decreases |bundle|
  {
    if bundle != [] {
      if xs != [] && txs != [] {
        WrapsIff(env, cache, bundle[1..], xs[1..], txs[1..]);
        assert xs == [xs[0]] + xs[1..] && txs == [txs[0]] + txs[1..];
      }
      var rest := WrapBundle(env, cache, bundle[1..]);
      if rest.Wrapped? {
        WrapsIff(env, cache, bundle[1..], rest.xs, rest.txs);
      }
    }
  }

  /** What keeps a bundle from wrapping is its first transaction that is malformed or already included. */
  lemma {:induction false} FailsToWrap<X>(env: Env<X>, cache: set<string>, bundle: seq<Bytes>, i: nat)
    requires i < |bundle|
    requires forall j :: 0 <= j < i ==>
               && env.decode(bundle[j]).Some? && env.encode(env.decode(bundle[j]).value).Some?
               && env.hash(env.encode(env.decode(bundle[j]).value).value) !in cache
    ensures env.decode(bundle[i]).None? || env.encode(env.decode(bundle[i]).value).None? ==>
              WrapBundle(env, cache, bundle) == WrapFailed
    ensures env.decode(bundle[i]).Some? && env.encode(env.decode(bundle[i]).value).Some?
            && env.hash(env.encode(env.decode(bundle[i]).value).value) in cache ==>
              WrapBundle(env, cache, bundle) == AlreadyIncluded
    decreases i
  {
    if i > 0 {
      FailsToWrap(env, cache, bundle[1..], i - 1);
      assert env.decode(bundle[0]).Some?;
    }
  }

  lemma {:induction false} BundleVerifiesIff<S, X>(env: Env<X>, l: Lane<S, X>, st: S, bundle: seq<Bytes>)
    ensures VerifyBundle(env, l, st, bundle).Some? ==> DecodeAll(env, bundle).Some?
    ensures DecodeAll(env, bundle).Some? ==> VerifyBundle(env, l, st, bundle) == VerifyAll(l, st, DecodeAll(env, bundle).value)
    decreases |bundle|
  {
    if bundle != [] {
      match env.decode(bundle[0])
      case None =>
      case Some(x) =>
        match l.ante(st, x)
        case AnteErr(_) =>
        case AnteOk(st') =>
          BundleVerifiesIff(env, l, st', bundle[1..]);
    }
  }

  /** A bid verifies exactly when it is a bid, its bundle decodes, and the ante handler accepts the bid and
      then the bundle's transactions in order. */
  lemma BidVerifiesIff<S, X>(env: Env<X>, l: Lane<S, X>, st: S, bid: X, st': S)
    ensures VerifyTx(env, l, st, bid, env.bidInfo(bid)) == Some(st') <==>
              && env.bidInfo(bid).Bid?
              && DecodeAll(env, env.bidInfo(bid).transactions).Some?
              && VerifyAll(l, st, [bid] + DecodeAll(env, env.bidInfo(bid).transactions).value) == Some(st')
  {
    if env.bidInfo(bid).Bid? {
      var bundle := env.bidInfo(bid).transactions;
      match l.ante(st, bid)
      case AnteOk(st1) =>
        BundleVerifiesIff(env, l, st1, bundle);
        if DecodeAll(env, bundle).Some? {
          assert ([bid] + DecodeAll(env, bundle).value)[1..] == DecodeAll(env, bundle).value;
        }
      case AnteErr(_) =>
    }
  }

  /** Transactions verify exactly when there are states that the ante handler leads through, one after the
      other, without refusing any of them. */
  lemma {:induction false} VerifiesIff<S(!new), X>(l: Lane<S, X>, st: S, xs: seq<X>, st': S)
    ensures VerifyAll(l, st, xs) == Some(st') <==> exists states: seq<S> :: LeadsThrough(l, st, xs, st', states)
    decreases |xs|
  {
    if VerifyAll(l, st, xs) == Some(st') {
      if xs == [] {
        assert LeadsThrough(l, st, xs, st', [st]);
      } else {
        var next := l.ante(st, xs[0]).state;
        VerifiesIff(l, next, xs[1..], st');
        var tail: seq<S> :| LeadsThrough(l, next, xs[1..], st', tail);
        assert LeadsThrough(l, st, xs, st', [st] + tail);
      }
    }
    if states: seq<S> :| LeadsThrough(l, st, xs, st', states) {
      if xs != [] {
        assert l.ante(states[0], xs[0]) == AnteOk(states[1]);
        assert LeadsThrough(l, states[1], xs[1..], st', states[1..]);
        VerifiesIff(l, states[1], xs[1..], st');
      }
    }
  }

  ghost predicate LeadsThrough<S, X>(l: Lane<S, X>, st: S, xs: seq<X>, st': S, states: seq<S>) {
    && |states| == |xs| + 1 && states[0] == st && states[|xs|] == st'
    && forall k {:trigger xs[k]} :: 0 <= k < |xs| ==> l.ante(states[k], xs[k]) == AnteOk(states[k + 1])
  }

  /** Byte strings decode exactly when each of them does. */
  lemma {:induction false} DecodesIff<X>(env: Env<X>, txs: seq<Bytes>, xs: seq<X>)
    ensures DecodeAll(env, txs) == Some(xs) <==> |xs| == |txs| && forall i :: 0 <= i < |txs| ==> env.decode(txs[i]) == Some(xs[i])
    decreases |txs|
  {
    if txs != [] {
      if xs != [] {
        DecodesIff(env, txs[1..], xs[1..]);
        assert xs == [xs[0]] + xs[1..];
      }
      var rest := DecodeAll(env, txs[1..]);
      if rest.Some? {
        DecodesIff(env, txs[1..], rest.value);
      }
    }
  }

  lemma DecodesAtAll<X>(env: Env<X>, txs: seq<Bytes>, i: nat)
    requires i < |txs| && env.decode(txs[i]).None?
    ensures DecodeAll(env, txs) == None
  {
    var all := DecodeAll(env, txs);
    if all.Some? {
      DecodesIff(env, txs, all.value);
    }
  }
}
