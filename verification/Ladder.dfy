/** The auction's admission of bids (x/builder/ante/ante.go, x/builder/keeper/auction.go,
    blockbuster/lanes/auction/check_tx.go, blockbuster/lanes/auction/mempool.go): a new bid is
    compared with the top bid of the lane's mempool, so that admitted bids climb a ladder. */
module Ladder {
  import opened Integers
  import opened SkipList
  import opened PriorityIndices
  import opened GreedyMerge
  import opened IterationProof
  import opened PriorityNonce
  import opened Lanes
  import opened Proposals
  import opened LaneMempool
  import opened Bundles

  datatype Coin = Coin(denom: string, amount: nat)

  datatype Params = Params(maxBundleSize: nat, reserveFee: Coin, minBidIncrement: Coin, frontRunningProtection: bool)

  /** What a bid transaction asks for. A bid without an amount is a nil coin. */
  datatype BidRequest = BidRequest(
    bidder: Address,
    bid: Option<Coin>,
    timeout: nat,
    transactions: seq<Bytes>,
    signers: seq<set<Address>>)

  datatype Lookup = LookupFailed | NoBid | Found(request: BidRequest)

  datatype Mode = Check | Recheck | Deliver

  /** What admission depends on besides the mempool: the chain's parameters, height and balances, the
      functions on transactions, and the rest of the ante chain. */
  datatype Auction<!S, !X> = Auction(
    params: Params,
    height: int,
    balance: (Address, string) -> nat,
    known: X -> bool,
    encode: X -> Option<Bytes>,
    decode: Bytes -> Option<X>,
    lookup: X -> Lookup,
    next: (S, X) -> AnteResult<S>)

  // ---------------------------------------------------------------- the keeper's checks

  /** The keeper's test of the amount. Adding coins of different denominations panics, which refuses
      the bid as well. */
  predicate ValidateAuctionBid(params: Params, balance: nat, bid: Option<Coin>, highest: Option<Coin>) {
    && bid.Some?
    && bid.value.denom == params.reserveFee.denom
    && bid.value.amount >= params.reserveFee.amount
    && (highest.Some? ==>
          && params.minBidIncrement.denom == bid.value.denom
          && highest.value.denom == params.minBidIncrement.denom
          && bid.value.amount >= highest.value.amount + params.minBidIncrement.amount)
    && balance >= bid.value.amount
  }

  ghost predicate BidIsValid<S, X>(a: Auction<S, X>, request: BidRequest, highest: Option<Coin>) {
    && |request.transactions| % TWO_TO_THE_32 <= a.params.maxBundleSize
    && ValidateAuctionBid(a.params,
                          if request.bid.Some? then a.balance(request.bidder, request.bid.value.denom) else 0,
                          request.bid, highest)
    && (a.params.frontRunningProtection ==> IsFairBundle(request.bidder, request.signers))
  }

  /** The signer maps of a bundle, each a map of its own. */
  method SignerMaps(signers: seq<set<Address>>) returns (maps: seq<SignerSet>)
    ensures fresh(maps) && Signers(maps) == signers
    ensures forall i, j :: 0 <= i < j < |maps| ==> maps[i] != maps[j]
  {
    maps := [];
    for n := 0 to |signers|
      invariant |maps| == n && fresh(maps)
      invariant forall i :: 0 <= i < n ==> maps[i].signers == signers[i]
      invariant forall i, j :: 0 <= i < j < n ==> maps[i] != maps[j]
    {
      var m := new SignerSet(signers[n]);
      maps := maps + [m];
    }
  }

  method ValidateBidInfo<S, X>(a: Auction<S, X>, request: BidRequest, highest: Option<Coin>) returns (ok: bool)
    ensures ok <==> BidIsValid(a, request, highest)
  {
    if |request.transactions| % TWO_TO_THE_32 > a.params.maxBundleSize {
      return false;
    }
    var balance := if request.bid.Some? then a.balance(request.bidder, request.bid.value.denom) else 0;
    if !ValidateAuctionBid(a.params, balance, request.bid, highest) {
      return false;
    }
    if a.params.frontRunningProtection {
      var maps := SignerMaps(request.signers);
      var fair := ValidateAuctionBundle(request.bidder, maps);
      return fair;
    }
    return true;
  }

  // ---------------------------------------------------------------- the top bid

  /** No transaction of the same sender waits with a lower nonce. */
  ghost predicate IsFirst<X>(c: Contents<X>, id: Id) {
    forall other :: other in c && other.sender == id.sender ==> id.nonce <= other.nonce
  }

  /** The transaction that an iteration may hand out first: the first one of its sender, and no
      other sender's first one bids more. */
  ghost predicate IsTopId<X>(c: Contents<X>, id: Id) {
    && id in c && IsFirst(c, id)
    && forall other :: other in c && IsFirst(c, other) ==> c[id].priority >= c[other].priority
  }

  ghost predicate IsTop<X>(c: Contents<X>, top: Option<X>) {
    match top
    case None => c == map[]
    case Some(tx) => exists id :: IsTopId(c, id) && c[id].tx == tx
  }

  /** Reordering priority ties changes weights only. */
  ghost predicate SameButWeights<X>(c: Contents<X>, c': Contents<X>) {
    c'.Keys == c.Keys && forall id :: id in c ==> c'[id].(weight := c[id].weight) == c[id]
  }

  /** The first transaction of a greedy merge is a top transaction. */
  lemma GreedyChoiceIsTop<X>(q: Queues<X>, c: Contents<X>, pick: Pick<X>)
    requires SendersMatch(q, c) && GreedyChoice(q, [], pick)
    ensures IsTopId(c, Id(pick.sender, pick.node.key)) && c[Id(pick.sender, pick.node.key)].tx == pick.node.value.tx
  {
    var s := pick.sender;
    QueuedIsStored(q, c, s, 0);
    HeadIsFirst(q, c, s);
    forall other | other in c && IsFirst(c, other) ensures pick.node.value.priority >= c[other].priority {
      var t := other.sender;
      assert SenderNode(other, c[other]) in q[t];
      assert Waiting(q, [], t) && AtLeastAsGood(q, [], s, t);
      QueuedIsStored(q, c, t, 0);
      HeadIsFirst(q, c, t);
      assert Id(t, q[t][0].key) == other;
    }
  }

  lemma HeadIsFirst<X>(q: Queues<X>, c: Contents<X>, s: Address)
    requires SendersMatch(q, c) && s in q && q[s] != []
    ensures IsFirst(c, Id(s, q[s][0].key))
  {
    forall other | other in c && other.sender == s ensures q[s][0].key <= other.nonce {
      assert SenderNode(other, c[other]) in q[s];
      var i :| 0 <= i < |q[s]| && q[s][i] == SenderNode(other, c[other]);
      assert QueueMatches(s, q[s], c);
      assert i > 0 ==> LowerNonce(q[s][0].key, q[s][i].key);
    }
  }

  /** Selects, and takes the first transaction of the iteration. */
  method GetTopAuctionTx<X(!new)>(index: PriorityNonceMempool<X>) returns (top: Option<X>)
    requires index.Valid()
    modifies index`priorityIndex, index`scores, index`contents
    ensures index.Valid() && SameButWeights(old(index.contents), index.contents)
    ensures IsTop(old(index.contents), top)
    ensures top.Some? ==> exists pick :: GreedyChoice(index.senderIndices, [], pick) && pick.node.value.tx == top.value
  {
    hide Reweigh, WalkInvariant, GreedyChoice, IsGreedyMerge, Consistent, IsTopId, OthersWaitFrom;
    var it := index.Select();
    ReweighIsSameButWeights(index.senderIndices, old(index.contents), TiedIds(index.priorityCounts, old(index.contents)));
    if it == null {
      NothingToMerge(index.priorityIndex, index.priorityCounts, index.senderIndices, index.scores, index.contents);
      return None;
    }
    var pick := it.Tx();
    FirstOfWalk(index.priorityIndex, index.senderIndices, index.contents, it.senderCursors, it.yielded);
    TopDespiteWeights(old(index.contents), index.contents, Id(pick.sender, pick.node.key));
    return Some(pick.node.value.tx);
  }

  lemma ReweighIsSameButWeights<X>(q: Queues<X>, c: Contents<X>, ids: set<Id>)
    ensures SameButWeights(c, Reweigh(q, c, ids))
  {
  }

  lemma NothingToMerge<X>(l: seq<Node<PriorityKey, X>>, counts: map<int, int>, q: Queues<X>, scores: map<Id, Score>, c: Contents<X>)
    requires Consistent(l, counts, q, scores, c) && IsGreedyMerge(q, [])
    ensures c == map[]
  {
    hide PriorityIndexMatches, CountsMatch, ScoresMatch, GreedyPrefix;
    forall id | id in c ensures Waiting(q, [], id.sender) {
      assert SenderNode(id, c[id]) in q[id.sender];
    }
    assert forall id :: id !in c;
  }

  lemma FirstOfWalk<X>(l: seq<Node<PriorityKey, X>>, q: Queues<X>, c: Contents<X>, cursors: map<Address, nat>, out: seq<Pick<X>>)
    requires WalkInvariant(l, q, c, cursors, out) && |out| == 1
    ensures GreedyChoice(q, [], out[0])
    ensures IsTopId(c, Id(out[0].sender, out[0].node.key)) && c[Id(out[0].sender, out[0].node.key)].tx == out[0].node.value.tx
  {
    GreedyPrefixFirst(q, out);
    GreedyChoiceIsTop(q, c, out[0]);
  }

  lemma TopDespiteWeights<X>(c: Contents<X>, c': Contents<X>, id: Id)
    requires SameButWeights(c, c') && IsTopId(c', id)
    ensures IsTopId(c, id) && c[id].tx == c'[id].tx
  {
    forall other | other in c && IsFirst(c, other) ensures c[id].priority >= c[other].priority {
      assert IsFirst(c', other);
    }
  }

  /** No stored transaction bids more. */
  ghost predicate IsHighest<X>(c: Contents<X>, id: Id) {
    id in c && forall other :: other in c ==> c[other].priority <= c[id].priority
  }

  /** The top transaction is a highest stored bid exactly when some highest bid is not behind a lower
      nonce of its own sender. */
  lemma TopIsHighestIff<X>(c: Contents<X>, top: Id)
    requires IsTopId(c, top)
    ensures IsHighest(c, top) <==> exists id :: IsHighest(c, id) && IsFirst(c, id)
  {
    if id :| IsHighest(c, id) && IsFirst(c, id) {
      assert c[top].priority >= c[id].priority;
    }
  }

  /** With one nonce per sender, the top transaction is a highest stored bid. */
  lemma TopIsHighest<X>(c: Contents<X>, top: Id)
    requires IsTopId(c, top)
    requires forall i, j :: i in c && j in c && i.sender == j.sender ==> i == j
    ensures IsHighest(c, top)
  {
    forall id | id in c ensures IsFirst(c, id) {
    }
  }

  // ---------------------------------------------------------------- the decorator

  predicate ValidateTimeout(mode: Mode, height: int, timeout: int) {
    timeout >= if mode.Deliver? then height else height + 1
  }

  /** Whether the two transactions are the same, byte for byte. */
  predicate SameBytes<S, X>(a: Auction<S, X>, tx: X, top: X) {
    a.encode(tx).Some? && a.encode(tx) == a.encode(top)
  }

  /** The bid to beat, if it can be determined: none when delivering, when nothing is stored, or when
      the transaction is itself the top one. */
  function BidToBeat<S, X>(a: Auction<S, X>, mode: Mode, top: Option<X>, tx: X): Option<Option<Coin>> {
    if mode.Deliver? || top.None? then Some(None)
    else if a.encode(top.value).None? || a.encode(tx).None? then None
    else if SameBytes(a, tx, top.value) then Some(None)
    else match a.lookup(top.value)
      case Found(request) => Some(request.bid)
      case _ => None
  }

  ghost predicate DecoratorAccepts<S, X>(a: Auction<S, X>, mode: Mode, top: Option<X>, tx: X) {
    && (mode.Recheck? ==> a.known(tx))
    && match a.lookup(tx)
       case LookupFailed => false
       case NoBid => true
       case Found(request) =>
         && ValidateTimeout(mode, a.height, ToInt64(request.timeout))
         && var beat := BidToBeat(a, mode, top, tx);
            beat.Some? && BidIsValid(a, request, beat.value)
  }

  /** The decorator gets as far as comparing the bid with the top one. */
  predicate ComparesBids<S, X>(a: Auction<S, X>, mode: Mode, tx: X) {
    && !mode.Deliver? && (mode.Recheck? ==> a.known(tx))
    && a.lookup(tx).Found?
    && ValidateTimeout(mode, a.height, ToInt64(a.lookup(tx).request.timeout))
  }

  /** The builder's ante decorator, followed by the rest of the ante chain. Looking up the top bid
      reorders the lane's ties. */
  method AnteHandle<S(!new), X(!new)>(a: Auction<S, X>, mode: Mode, index: PriorityNonceMempool<X>, st: S, tx: X)
    returns (r: AnteResult<S>, ghost top: Option<X>)
    requires index.Valid()
    modifies index`priorityIndex, index`scores, index`contents
    ensures index.Valid() && SameButWeights(old(index.contents), index.contents)
    ensures ComparesBids(a, mode, tx) ==> IsTop(old(index.contents), top)
    ensures !a.lookup(tx).Found? ==> index.contents == old(index.contents)
    ensures r == if DecoratorAccepts(a, mode, top, tx) then a.next(st, tx) else AnteErr(st)
  {
    hide BidIsValid, IsTop, ToInt64;
    top := None;
    if mode.Recheck? && !a.known(tx) {
      return AnteErr(st), top;
    }
    var lookup := a.lookup(tx);
    if lookup.LookupFailed? {
      return AnteErr(st), top;
    }
    if lookup.Found? {
      if !ValidateTimeout(mode, a.height, ToInt64(lookup.request.timeout)) {
        return AnteErr(st), top;
      }
      var highest: Option<Coin> := None;
      if !mode.Deliver? {
        var topTx := GetTopAuctionTx(index);
        top := topTx;
        if topTx.Some? {
          if a.encode(topTx.value).None? || a.encode(tx).None? {
            return AnteErr(st), top;
          }
          if a.encode(topTx.value) != a.encode(tx) {
            var topLookup := a.lookup(topTx.value);
            if !topLookup.Found? {
              return AnteErr(st), top;
            }
            highest := topLookup.request.bid;
          }
        }
      }
      var valid := ValidateBidInfo(a, lookup.request, highest);
      if !valid {
        return AnteErr(st), top;
      }
    }
    r := a.next(st, tx);
  }

  // ---------------------------------------------------------------- admission

  /** The bundle's transactions, decoded and verified one after the other. A lookup error counts as no
      bid here; the ante handler then refuses the transaction. */
  ghost predicate BundleVerifies<S, X>(a: Auction<S, X>, mode: Mode, st: S, bundle: seq<Bytes>) {
    bundle == [] ||
    match a.decode(bundle[0])
    case None => false
    case Some(x) =>
      && !a.lookup(x).Found?
      && DecoratorAccepts(a, mode, None, x)
      && a.next(st, x).AnteOk?
      && BundleVerifies(a, mode, a.next(st, x).state, bundle[1..])
  }

  ghost predicate BidVerifies<S, X>(a: Auction<S, X>, mode: Mode, top: Option<X>, st: S, tx: X) {
    && a.lookup(tx).Found?
    && DecoratorAccepts(a, mode, top, tx)
    && a.next(st, tx).AnteOk?
    && BundleVerifies(a, mode, a.next(st, tx).state, a.lookup(tx).request.transactions)
  }

  method ValidateBidTx<S(!new), X(!new)>(a: Auction<S, X>, mode: Mode, index: PriorityNonceMempool<X>, st: S, tx: X, request: BidRequest)
    returns (ok: bool, ghost top: Option<X>)
    requires index.Valid() && a.lookup(tx) == Found(request) && !mode.Deliver?
    modifies index`priorityIndex, index`scores, index`contents
    ensures index.Valid() && SameButWeights(old(index.contents), index.contents)
    ensures ComparesBids(a, mode, tx) ==> IsTop(old(index.contents), top)
    ensures ok <==> BidVerifies(a, mode, top, st, tx)
  {
    hide DecoratorAccepts, IsTop, Consistent;
    var verdict;
    verdict, top := AnteHandle(a, mode, index, st, tx);
    if verdict.AnteErr? {
      return false, top;
    }
    ok := VerifyBundled(a, mode, index, verdict.state, request.transactions);
  }

  method VerifyBundled<S(!new), X(!new)>(a: Auction<S, X>, mode: Mode, index: PriorityNonceMempool<X>, st: S, bundle: seq<Bytes>)
    returns (ok: bool)
    requires index.Valid()
    modifies index`priorityIndex, index`scores, index`contents
    ensures index.Valid() && index.contents == old(index.contents)
    ensures ok <==> BundleVerifies(a, mode, st, bundle)
  {
    hide DecoratorAccepts, IsTop, SameButWeights, Consistent;
    var st' := st;
    for i := 0 to |bundle|
      invariant index.Valid() && index.contents == old(index.contents)
      invariant BundleVerifies(a, mode, st, bundle) <==> BundleVerifies(a, mode, st', bundle[i..])
    {
      assert bundle[i..][0] == bundle[i] && bundle[i..][1..] == bundle[i + 1..];
      var bundled := a.decode(bundle[i]);
      if bundled.None? {
        return false;
      }
      if a.lookup(bundled.value).Found? {
        return false;
      }
      var verdict, top := AnteHandle(a, mode, index, st', bundled.value);
      WithoutBidTopIsIrrelevant(a, mode, top, bundled.value);
      if verdict.AnteErr? {
        return false;
      }
      st' := verdict.state;
    }
    return true;
  }

  lemma WithoutBidTopIsIrrelevant<S, X>(a: Auction<S, X>, mode: Mode, top: Option<X>, tx: X)
    requires !a.lookup(tx).Found?
    ensures DecoratorAccepts(a, mode, top, tx) <==> DecoratorAccepts(a, mode, None, tx)
  {
  }

  datatype CheckResult = Refused | PassedOn | Admitted

  /** A bid that entered the mempool: the transaction that was on top before, and the contents after
      the lookup of the top bid. */
  datatype Admission<X> = Admission(mode: Mode, tx: X, top: Option<X>, reordered: Contents<X>)

  /** One admission, from contents to contents; refused transactions and iterations that come after it
      can only reorder. */
  ghost predicate Admits<S, X>(a: Auction<S, X>, cfg: Config<X>, c: Contents<X>, adm: Admission<X>, c': Contents<X>) {
    && !adm.mode.Deliver?
    && IsTop(c, adm.top) && SameButWeights(c, adm.reordered)
    && a.lookup(adm.tx).Found? && DecoratorAccepts(a, adm.mode, adm.top, adm.tx)
    && InsertOutcome(cfg, adm.reordered, adm.tx).Inserted?
    && SameButWeights(AfterInsert(cfg, adm.reordered, adm.tx), c')
  }

  /** The node's check of an incoming transaction. Bids are verified on a state that is then discarded,
      against the top bid of the mempool, and exactly those that verify are inserted; transactions without
      a bid are passed on to the application. */
  method CheckTx<S(!new), X(!new)>(a: Auction<S, X>, mode: Mode, lane: ConstructorMempool<X>, st: S, bytes: Bytes)
    returns (r: CheckResult, ghost top: Option<X>, ghost reordered: Contents<X>)
    requires lane.Valid() && !mode.Deliver?
    modifies lane, lane.index
    ensures lane.Valid() && SameButWeights(old(lane.index.contents), reordered)
    ensures r.PassedOn? <==> a.decode(bytes).Some? && a.lookup(a.decode(bytes).value).NoBid?
    ensures a.decode(bytes).Some? && ComparesBids(a, mode, a.decode(bytes).value) ==> IsTop(old(lane.index.contents), top)
    ensures r.Admitted? <==>
              && a.decode(bytes).Some?
              && var tx := a.decode(bytes).value;
                 && BidVerifies(a, mode, top, st, tx)
                 && InsertOutcome(lane.index.cfg, reordered, tx).Inserted?
                 && lane.hash(tx).Some?
    ensures var m := MempoolState(reordered, old(lane.txCache));
            lane.State() == if a.decode(bytes).Some? && BidVerifies(a, mode, top, st, a.decode(bytes).value)
                            then InsertStep(lane.index.cfg, lane.hash, m, a.decode(bytes).value) else m
    ensures r.Admitted? ==> Admits(a, lane.index.cfg, old(lane.index.contents),
                                   Admission(mode, a.decode(bytes).value, top, reordered), lane.index.contents)
  {
    hide DecoratorAccepts, IsTop, Consistent, ToInt64, BundleVerifies;
    top, reordered := None, lane.index.contents;
    var decoded := a.decode(bytes);
    if decoded.None? {
      return Refused, top, reordered;
    }
    var tx := decoded.value;
    var lookup := a.lookup(tx);
    if lookup.LookupFailed? {
      return Refused, top, reordered;
    }
    if lookup.NoBid? {
      return PassedOn, top, reordered;
    }
    var ok;
    ok, top := ValidateBidTx(a, mode, lane.index, st, tx, lookup.request);
    reordered := lane.index.contents;
    if !ok {
      return Refused, top, reordered;
    }
    VerifiedIsCompared(a, mode, top, tx);
    var inserted := lane.Insert(tx);
    if !inserted.Ok? {
      return Refused, top, reordered;
    }
    return Admitted, top, reordered;
  }

  lemma VerifiedIsCompared<S, X>(a: Auction<S, X>, mode: Mode, top: Option<X>, tx: X)
    requires !mode.Deliver? && a.lookup(tx).Found? && DecoratorAccepts(a, mode, top, tx)
    ensures ComparesBids(a, mode, tx)
  {
  }

  // ---------------------------------------------------------------- what admission means

  /** When the decorator passes a bid on: the transaction is known when rechecked, its timeout lies ahead,
      its bundle is not too long and fair if that is asked for, and the bid is in the reserve's
      denomination, at least the reserve, covered by the bidder's balance, and, unless the transaction is
      itself on top, at least an increment above the top bid. */
  lemma BidPassesIff<S, X>(a: Auction<S, X>, mode: Mode, top: Option<X>, tx: X, request: BidRequest)
    requires a.lookup(tx) == Found(request)
    ensures DecoratorAccepts(a, mode, top, tx) <==>
              && (mode.Recheck? ==> a.known(tx))
              && ToInt64(request.timeout) >= (if mode.Deliver? then a.height else a.height + 1)
              && |request.transactions| % TWO_TO_THE_32 <= a.params.maxBundleSize
              && (a.params.frontRunningProtection ==> IsFairBundle(request.bidder, request.signers))
              && request.bid.Some?
              && request.bid.value.denom == a.params.reserveFee.denom
              && request.bid.value.amount >= a.params.reserveFee.amount
              && a.balance(request.bidder, request.bid.value.denom) >= request.bid.value.amount
              && (!mode.Deliver? && top.Some? ==>
                    && a.encode(tx).Some? && a.encode(top.value).Some?
                    && (a.encode(tx) != a.encode(top.value) ==>
                          && a.lookup(top.value).Found?
                          && (a.lookup(top.value).request.bid.Some? ==>
                                var highest := a.lookup(top.value).request.bid.value;
                                && highest.denom == a.params.minBidIncrement.denom == request.bid.value.denom
                                && request.bid.value.amount >= highest.amount + a.params.minBidIncrement.amount)))
  {
    hide IsFairBundle, ToInt64;
  }

  /** A transaction without a bid passes unless it is rechecked and unknown. */
  lemma NoBidPassesIff<S, X>(a: Auction<S, X>, mode: Mode, top: Option<X>, tx: X)
    requires !a.lookup(tx).Found?
    ensures DecoratorAccepts(a, mode, top, tx) <==> a.lookup(tx).NoBid? && (mode.Recheck? ==> a.known(tx))
  {
  }

  /** A bundle verifies exactly when it decodes to transactions without bids, known when rechecked, that
      the rest of the ante chain accepts one after the other. */
  lemma {:induction false} BundleVerifiesIff<S(!new), X(!new)>(a: Auction<S, X>, mode: Mode, st: S, bundle: seq<Bytes>)
    ensures BundleVerifies(a, mode, st, bundle) <==>
            exists xs: seq<X>, states: seq<S> :: BundleRuns(a, mode, st, bundle, xs, states)
    decreases |bundle|
  {
    hide DecoratorAccepts;
    if BundleVerifies(a, mode, st, bundle) {
      if bundle == [] {
        assert BundleRuns(a, mode, st, bundle, [], [st]);
      } else {
        var x := a.decode(bundle[0]).value;
        NoBidPassesIff(a, mode, None, x);
        var next := a.next(st, x).state;
        BundleVerifiesIff(a, mode, next, bundle[1..]);
        var xs: seq<X>, states: seq<S> :| BundleRuns(a, mode, next, bundle[1..], xs, states);
        assert BundleRuns(a, mode, st, bundle, [x] + xs, [st] + states);
      }
    }
    if xs: seq<X>, states: seq<S> :| BundleRuns(a, mode, st, bundle, xs, states) {
      if bundle != [] {
        assert a.decode(bundle[0]) == Some(xs[0]) && a.next(states[0], xs[0]) == AnteOk(states[1]);
        NoBidPassesIff(a, mode, None, xs[0]);
        assert BundleRuns(a, mode, states[1], bundle[1..], xs[1..], states[1..]);
        BundleVerifiesIff(a, mode, states[1], bundle[1..]);
      }
    }
  }

  ghost predicate BundleRuns<S, X>(a: Auction<S, X>, mode: Mode, st: S, bundle: seq<Bytes>, xs: seq<X>, states: seq<S>) {
    && |xs| == |bundle| && |states| == |xs| + 1 && states[0] == st
    && forall i {:trigger xs[i]} :: 0 <= i < |xs| ==>
         && a.decode(bundle[i]) == Some(xs[i])
         && a.lookup(xs[i]).NoBid? && (mode.Recheck? ==> a.known(xs[i]))
         && a.next(states[i], xs[i]) == AnteOk(states[i + 1])
  }

  /** Whatever is admitted can be paid: it is in the reserve's denomination, at least the reserve, and
      covered by its bidder's balance. */
  lemma AdmittedIsFunded<S, X>(a: Auction<S, X>, cfg: Config<X>, c: Contents<X>, adm: Admission<X>, c': Contents<X>)
    requires Admits(a, cfg, c, adm, c')
    ensures var request := a.lookup(adm.tx).request;
            && request.bid.Some?
            && request.bid.value.denom == a.params.reserveFee.denom
            && request.bid.value.amount >= a.params.reserveFee.amount
            && a.balance(request.bidder, request.bid.value.denom) >= request.bid.value.amount
  {
    BidPassesIff(a, adm.mode, adm.top, adm.tx, a.lookup(adm.tx).request);
    hide DecoratorAccepts, IsTop, SameButWeights;
  }

  /** So it is with every admission of a run. */
  lemma EveryAdmissionIsFunded<S, X>(a: Auction<S, X>, cfg: Config<X>, cs: seq<Contents<X>>, adms: seq<Admission<X>>, i: nat)
    requires IsLadder(a, cfg, cs, adms) && i < |adms|
    ensures a.lookup(adms[i].tx).Found?
    ensures var request := a.lookup(adms[i].tx).request;
            && request.bid.Some?
            && request.bid.value.denom == a.params.reserveFee.denom
            && request.bid.value.amount >= a.params.reserveFee.amount
            && a.balance(request.bidder, request.bid.value.denom) >= request.bid.value.amount
  {
    assert Climbs(a, cfg, cs, adms, i);
    AdmittedIsFunded(a, cfg, cs[i], adms[i], cs[i + 1]);
  }

  // ---------------------------------------------------------------- the ladder

  /** The lane ranks bids by their amounts, stores what it takes, and equal bytes mean equal transactions. */
  ghost predicate RanksBids<S, X(!new)>(a: Auction<S, X>, cfg: Config<X>) {
    && cfg.maxTx >= 0
    && (forall x {:trigger a.lookup(x)} :: a.lookup(x).Found? && a.lookup(x).request.bid.Some? ==>
          cfg.priorityOf(x) == a.lookup(x).request.bid.value.amount)
    && forall x, y {:trigger a.encode(x), a.encode(y)} :: a.encode(x).Some? && a.encode(x) == a.encode(y) ==> x == y
  }

  /** Every stored transaction is a bid, stored under its own id and ranked by its amount. */
  ghost predicate StoresBids<S, X>(a: Auction<S, X>, cfg: Config<X>, c: Contents<X>) {
    forall id {:trigger c[id]} :: id in c ==>
      && Signed(cfg, c[id].tx) && TxId(cfg, c[id].tx) == id
      && a.lookup(c[id].tx).Found? && a.lookup(c[id].tx).request.bid.Some?
      && c[id].priority == a.lookup(c[id].tx).request.bid.value.amount
  }

  /** The admitted transaction is not, byte for byte, the one that was on top. */
  predicate Raises<S, X>(a: Auction<S, X>, adm: Admission<X>) {
    !(adm.top.Some? && SameBytes(a, adm.tx, adm.top.value))
  }

  /** Some transaction that an iteration may hand out first bids at least `p`. */
  ghost predicate TopIsAtLeast<X>(c: Contents<X>, p: int) {
    exists id :: id in c && IsFirst(c, id) && c[id].priority >= p
  }

  /** No transaction of the same sender waits with a lower nonce. */
  ghost predicate ComesFirst<X>(cfg: Config<X>, c: Contents<X>, tx: X) {
    Signed(cfg, tx) ==> IsFirst(c, TxId(cfg, tx))
  }

  lemma AdmittedIsStored<S, X(!new)>(a: Auction<S, X>, cfg: Config<X>, c: Contents<X>, adm: Admission<X>, c': Contents<X>)
    requires RanksBids(a, cfg) && StoresBids(a, cfg, c) && Admits(a, cfg, c, adm, c')
    ensures Signed(cfg, adm.tx) && a.lookup(adm.tx).request.bid.Some?
    ensures a.lookup(adm.tx).request.bid.value.amount >= a.params.reserveFee.amount
    ensures var id := TxId(cfg, adm.tx);
            && c'.Keys == c.Keys + {id} && c'[id].tx == adm.tx
            && c'[id].priority == a.lookup(adm.tx).request.bid.value.amount
            && forall other :: other in c && other != id ==> c'[other].tx == c[other].tx && c'[other].priority == c[other].priority
    ensures StoresBids(a, cfg, c')
  {
    hide IsTop, IsFairBundle, BidToBeat, ToInt64, Size;
    var id := TxId(cfg, adm.tx);
    var inserted := AfterInsert(cfg, adm.reordered, adm.tx);
    assert c'.Keys == c.Keys + {id};
    assert c'[id].(weight := inserted[id].weight) == inserted[id];
    forall other | other in c && other != id ensures c'[other].tx == c[other].tx && c'[other].priority == c[other].priority {
      assert inserted[other] == adm.reordered[other];
      assert c'[other].(weight := inserted[other].weight) == inserted[other];
      assert adm.reordered[other].(weight := c[other].weight) == c[other];
    }
  }

  /** A bid that raises exceeds the top bid by the increment. */
  lemma RaisingBeatsTheTop<S, X(!new)>(a: Auction<S, X>, cfg: Config<X>, c: Contents<X>, adm: Admission<X>, c': Contents<X>, p: int)
    requires RanksBids(a, cfg) && StoresBids(a, cfg, c) && Admits(a, cfg, c, adm, c')
    requires Raises(a, adm) && TopIsAtLeast(c, p)
    ensures a.lookup(adm.tx).request.bid.value.amount >= p + a.params.minBidIncrement.amount
  {
    hide IsFairBundle, IsFirst;
    var first :| first in c && IsFirst(c, first) && c[first].priority >= p;
    var id :| IsTopId(c, id) && c[id].tx == adm.top.value;
    assert c[id].priority >= c[first].priority;
  }

  lemma AdmissionClimbs<S, X(!new)>(a: Auction<S, X>, cfg: Config<X>, c: Contents<X>, adm: Admission<X>, c': Contents<X>, p: int)
    requires RanksBids(a, cfg) && StoresBids(a, cfg, c) && Admits(a, cfg, c, adm, c')
    ensures IsRung(a, cfg, c, adm) ==> TopIsAtLeast(c', a.params.reserveFee.amount)
    ensures TopIsAtLeast(c, p) ==> TopIsAtLeast(c', p + if IsRung(a, cfg, c, adm) then a.params.minBidIncrement.amount else 0)
  {
    AdmittedIsStored(a, cfg, c, adm, c');
    var id := TxId(cfg, adm.tx);
    if IsRung(a, cfg, c, adm) {
      assert IsFirst(c', id);
      if TopIsAtLeast(c, p) {
        RaisingBeatsTheTop(a, cfg, c, adm, c', p);
      }
    } else if !Raises(a, adm) {
      RepeatedTopStays(a, cfg, c, adm);
      assert IsFirst(c', id) && c'[id].priority == c[id].priority;
    } else if first :| first in c && IsFirst(c, first) && c[first].priority >= p {
      assert first != id && IsFirst(c', first);
    }
  }

  /** A transaction equal to the top one has the top one's place. */
  lemma RepeatedTopStays<S, X(!new)>(a: Auction<S, X>, cfg: Config<X>, c: Contents<X>, adm: Admission<X>)
    requires RanksBids(a, cfg) && StoresBids(a, cfg, c) && IsTop(c, adm.top)
    requires !Raises(a, adm)
    ensures Signed(cfg, adm.tx) && IsTopId(c, TxId(cfg, adm.tx)) && c[TxId(cfg, adm.tx)].tx == adm.tx
  {
    var top :| IsTopId(c, top) && c[top].tx == adm.top.value;
    assert adm.tx == adm.top.value;
  }

  /** A run of admissions from an empty mempool, with nothing removed in between. */
  ghost predicate IsLadder<S, X>(a: Auction<S, X>, cfg: Config<X>, cs: seq<Contents<X>>, adms: seq<Admission<X>>) {
    && |cs| == |adms| + 1 && cs[0] == map[]
    && forall i {:trigger adms[i]} :: 0 <= i < |adms| ==> Climbs(a, cfg, cs, adms, i)
  }

  ghost predicate Climbs<S, X>(a: Auction<S, X>, cfg: Config<X>, cs: seq<Contents<X>>, adms: seq<Admission<X>>, i: nat)
    requires i < |adms| && |cs| == |adms| + 1
  {
    Admits(a, cfg, cs[i], adms[i], cs[i + 1])
  }

  /** An admission that raises and does not wait behind a lower nonce of its sender. */
  ghost predicate IsRung<S, X>(a: Auction<S, X>, cfg: Config<X>, c: Contents<X>, adm: Admission<X>) {
    Raises(a, adm) && ComesFirst(cfg, c, adm.tx)
  }

  /** How many of the first `n` admissions are rungs. */
  ghost function Rungs<S, X>(a: Auction<S, X>, cfg: Config<X>, cs: seq<Contents<X>>, adms: seq<Admission<X>>, n: nat): nat
    requires n <= |adms| < |cs|
  {
    if n == 0 then 0 else Rungs(a, cfg, cs, adms, n - 1) + if IsRung(a, cfg, cs[n - 1], adms[n - 1]) then 1 else 0
  }

  /** How many of the first `n` admissions raise. */
  function Raisings<S, X>(a: Auction<S, X>, adms: seq<Admission<X>>, n: nat): nat
    requires n <= |adms|
  {
    if n == 0 then 0 else Raisings(a, adms, n - 1) + if Raises(a, adms[n - 1]) then 1 else 0
  }

  /** What the top bid is at least after `k` rungs. */
  function Height(params: Params, k: nat): int {
    params.reserveFee.amount + (k - 1) * params.minBidIncrement.amount
  }

  /** Over any run, after `k` raising admissions that do not wait behind a lower nonce of their sender the
      top bid is at least the reserve fee plus `k - 1` increments, whatever else was admitted. */
  lemma {:induction false} LadderClimbs<S, X(!new)>(a: Auction<S, X>, cfg: Config<X>, cs: seq<Contents<X>>, adms: seq<Admission<X>>, n: nat)
    requires RanksBids(a, cfg) && IsLadder(a, cfg, cs, adms) && n <= |adms|
    ensures StoresBids(a, cfg, cs[n])
    ensures Rungs(a, cfg, cs, adms, n) > 0 ==> TopIsAtLeast(cs[n], Height(a.params, Rungs(a, cfg, cs, adms, n)))
    decreases n
  {
    hide RanksBids, StoresBids, TopIsAtLeast, IsRung, Height, Admits;
    if n == 0 {
      NothingStored(a, cfg);
    } else {
      LadderClimbs(a, cfg, cs, adms, n - 1);
      assert Climbs(a, cfg, cs, adms, n - 1);
      OneRung(a, cfg, cs[n - 1], adms[n - 1], cs[n], Rungs(a, cfg, cs, adms, n - 1));
    }
  }

  lemma NothingStored<S, X>(a: Auction<S, X>, cfg: Config<X>)
    ensures StoresBids(a, cfg, map[])
  {
  }

  lemma OneRung<S, X(!new)>(a: Auction<S, X>, cfg: Config<X>, c: Contents<X>, adm: Admission<X>, c': Contents<X>, k: nat)
    requires RanksBids(a, cfg) && StoresBids(a, cfg, c) && Admits(a, cfg, c, adm, c')
    requires k > 0 ==> TopIsAtLeast(c, Height(a.params, k))
    ensures StoresBids(a, cfg, c')
    ensures var k' := k + if IsRung(a, cfg, c, adm) then 1 else 0;
            k' > 0 ==> TopIsAtLeast(c', Height(a.params, k'))
  {
    hide RanksBids, StoresBids, TopIsAtLeast, IsRung, Admits, Height;
    AdmittedIsStored(a, cfg, c, adm, c');
    AdmissionClimbs(a, cfg, c, adm, c', Height(a.params, k));
    HeightGrows(a.params, k);
  }

  lemma HeightGrows(params: Params, k: nat)
    ensures Height(params, 1) == params.reserveFee.amount
    ensures Height(params, k + 1) == Height(params, k) + params.minBidIncrement.amount
  {
  }

  ghost predicate OneNoncePerSender<X>(cfg: Config<X>, adms: seq<Admission<X>>) {
    forall i, j {:trigger adms[i], adms[j]} :: 0 <= i < |adms| && 0 <= j < |adms| ==>
      && Signed(cfg, adms[i].tx) && Signed(cfg, adms[j].tx)
      && (TxId(cfg, adms[i].tx).sender == TxId(cfg, adms[j].tx).sender ==> TxId(cfg, adms[i].tx) == TxId(cfg, adms[j].tx))
  }

  /** When every admission comes first, every raising one is a rung. */
  lemma {:induction false} RaisingsAreRungs<S, X>(a: Auction<S, X>, cfg: Config<X>, cs: seq<Contents<X>>, adms: seq<Admission<X>>, n: nat)
    requires n <= |adms| < |cs|
    requires forall i {:trigger adms[i]} :: 0 <= i < n ==> ComesFirst(cfg, cs[i], adms[i].tx)
    ensures Rungs(a, cfg, cs, adms, n) == Raisings(a, adms, n)
    decreases n
  {
    hide Raises, ComesFirst;
    if n > 0 {
      RaisingsAreRungs(a, cfg, cs, adms, n - 1);
      assert ComesFirst(cfg, cs[n - 1], adms[n - 1].tx);
    }
  }

  lemma NoneWaitsBefore<S, X(!new)>(a: Auction<S, X>, cfg: Config<X>, cs: seq<Contents<X>>, adms: seq<Admission<X>>, n: nat)
    requires RanksBids(a, cfg) && IsLadder(a, cfg, cs, adms) && OneNoncePerSender(cfg, adms) && n < |adms|
    ensures ComesFirst(cfg, cs[n], adms[n].tx)
  {
    StoredWereAdmitted(a, cfg, cs, adms, n);
    hide RanksBids, IsLadder, Climbs;
    forall other | other in cs[n] && other.sender == TxId(cfg, adms[n].tx).sender ensures other == TxId(cfg, adms[n].tx) {
      var i :| 0 <= i < n && Signed(cfg, adms[i].tx) && TxId(cfg, adms[i].tx) == other;
    }
  }

  /** With one nonce per sender, every run of admissions climbs. */
  lemma OneNoncePerSenderClimbs<S, X(!new)>(a: Auction<S, X>, cfg: Config<X>, cs: seq<Contents<X>>, adms: seq<Admission<X>>, top: Id)
    requires RanksBids(a, cfg) && IsLadder(a, cfg, cs, adms) && OneNoncePerSender(cfg, adms)
    requires Raisings(a, adms, |adms|) > 0 && IsTopId(cs[|adms|], top)
    ensures cs[|adms|][top].priority >= Height(a.params, Raisings(a, adms, |adms|))
  {
    hide RanksBids, IsLadder, OneNoncePerSender, ComesFirst, Height, Raisings, Rungs;
    LadderLength(a, cfg, cs, adms);
    forall i | 0 <= i < |adms| ensures ComesFirst(cfg, cs[i], adms[i].tx) {
      NoneWaitsBefore(a, cfg, cs, adms, i);
    }
    RaisingsAreRungs(a, cfg, cs, adms, |adms|);
    LadderClimbs(a, cfg, cs, adms, |adms|);
  }

  lemma LadderLength<S, X>(a: Auction<S, X>, cfg: Config<X>, cs: seq<Contents<X>>, adms: seq<Admission<X>>)
    requires IsLadder(a, cfg, cs, adms)
    ensures |cs| == |adms| + 1
  {
  }

  /** Without removals, what is stored was admitted. */
  lemma {:induction false} StoredWereAdmitted<S, X(!new)>(a: Auction<S, X>, cfg: Config<X>, cs: seq<Contents<X>>, adms: seq<Admission<X>>, n: nat)
    requires RanksBids(a, cfg) && IsLadder(a, cfg, cs, adms) && n <= |adms|
    ensures forall id :: id in cs[n] ==> exists i :: 0 <= i < n && Signed(cfg, adms[i].tx) && TxId(cfg, adms[i].tx) == id
  {
    if n > 0 {
      StoredWereAdmitted(a, cfg, cs, adms, n - 1);
      assert Climbs(a, cfg, cs, adms, n - 1);
      hide IsTop, DecoratorAccepts;
      forall id | id in cs[n] ensures exists i :: 0 <= i < n && Signed(cfg, adms[i].tx) && TxId(cfg, adms[i].tx) == id {
        if id in cs[n - 1] {
          var i :| 0 <= i < n - 1 && Signed(cfg, adms[i].tx) && TxId(cfg, adms[i].tx) == id;
        } else {
          assert id == TxId(cfg, adms[n - 1].tx);
        }
      }
    }
  }

  /** When a raising bid becomes the top one: exactly when no transaction of its sender waits with a
      lower nonce. */
  lemma RaisingBidIsTopIffFirst<S, X(!new)>(a: Auction<S, X>, cfg: Config<X>, c: Contents<X>, adm: Admission<X>, c': Contents<X>, top: Id)
    requires RanksBids(a, cfg) && StoresBids(a, cfg, c) && Admits(a, cfg, c, adm, c')
    requires Raises(a, adm) && a.params.minBidIncrement.amount > 0 && IsTopId(c', top)
    ensures c'[top].priority >= a.lookup(adm.tx).request.bid.value.amount <==> ComesFirst(cfg, c, adm.tx)
  {
    AdmittedIsStored(a, cfg, c, adm, c');
    var id := TxId(cfg, adm.tx);
    if ComesFirst(cfg, c, adm.tx) {
      assert IsFirst(c', id);
    } else {
      assert top != id;
      assert IsFirst(c, top);
      RaisingBeatsTheTop(a, cfg, c, adm, c', c[top].priority);
    }
  }
}

/** A sender that waits with a low bid under a low nonce pins the ladder down. */
module PinnedLadder {
  import opened PriorityIndices
  import opened PriorityNonce
  import opened Lanes
  import opened Proposals
  import opened Bundles
  import opened Ladder

  /** Two bids of one sender: 1 under nonce 1, and 11 under nonce 2. */
  datatype Bid = Low | High

  function Amount(x: Bid): nat {
    if x.Low? then 1 else 11
  }

  function Request(x: Bid): BidRequest {
    BidRequest(0, Some(Coin("stake", Amount(x))), 1, [], [])
  }

  function PinnedAuction(): Auction<(), Bid> {
    Auction(Params(0, Coin("stake", 1), Coin("stake", 10), true), 0, (who: Address, denom: string) => 100, (x: Bid) => true,
            (x: Bid) => Some(if x.Low? then [0] else [1]),
            (tx: Bytes) => if tx == [0] then Some(Low) else if tx == [1] then Some(High) else None,
            (x: Bid) => Found(Request(x)), (st: (), x: Bid) => AnteOk(st))
  }

  function PinnedConfig(): Config<Bid> {
    Config((x: Bid) => Signatures([Signer(0, if x.Low? then 1 else 2)]), (x: Bid) => Amount(x), -1, 0, AlwaysReplace, 0)
  }

  function WithLow(): Contents<Bid> {
    map[Id(0, 1) := Entry(1, 0, Low)]
  }

  function WithBoth(): Contents<Bid> {
    WithLow()[Id(0, 2) := Entry(11, 0, High)]
  }

  lemma LowIsAdmitted(a: Auction<(), Bid>, cfg: Config<Bid>)
    requires a == PinnedAuction() && cfg == PinnedConfig()
    ensures Admits(a, cfg, map[], Admission(Check, Low, None, map[]), WithLow())
  {
    assert IsFairBundle(0, []);
  }

  lemma HighIsAdmitted(a: Auction<(), Bid>, cfg: Config<Bid>)
    requires a == PinnedAuction() && cfg == PinnedConfig()
    ensures Admits(a, cfg, WithLow(), Admission(Check, High, Some(Low), WithLow()), WithBoth())
  {
    var c1 := WithLow();
    assert IsTopId(c1, Id(0, 1)) && c1[Id(0, 1)].tx == Low;
    assert IsFairBundle(0, []);
    assert BidToBeat(a, Check, Some(Low), High) == Some(Some(Coin("stake", 1)));
  }

  lemma LowIsTop()
    ensures IsTopId(WithBoth(), Id(0, 1)) && WithBoth()[Id(0, 1)].priority == 1
  {
    var low := Id(0, 1);
    forall id | id in WithBoth() && IsFirst(WithBoth(), id) ensures id == low {
      assert low in WithBoth();
    }
  }

  lemma PinnedRanks(a: Auction<(), Bid>, cfg: Config<Bid>)
    requires a == PinnedAuction() && cfg == PinnedConfig()
    ensures RanksBids(a, cfg) && Height(a.params, 2) == 11
    ensures !SameBytes(a, High, Low)
  {
  }

  /** Both bids raise and are admitted, with an increment of 10 over a reserve of 1; yet the top bid is
      still 1: an iteration hands out a sender's transactions by nonce. */
  lemma TwoNoncesPinTheTop(a: Auction<(), Bid>, cfg: Config<Bid>) returns (cs: seq<Contents<Bid>>, adms: seq<Admission<Bid>>, top: Id)
    requires a == PinnedAuction() && cfg == PinnedConfig()
    ensures RanksBids(a, cfg) && IsLadder(a, cfg, cs, adms) && |adms| == 2
    ensures Raisings(a, adms, 2) == 2 && IsTopId(cs[2], top)
    ensures cs[2][top].priority < Height(a.params, 2)
  {
    LowIsAdmitted(a, cfg);
    HighIsAdmitted(a, cfg);
    LowIsTop();
    PinnedRanks(a, cfg);
    hide Admits, WithLow, WithBoth, IsTopId, RanksBids, PinnedAuction, PinnedConfig, SameBytes, Height;
    cs := [map[], WithLow(), WithBoth()];
    adms, top := [Admission(Check, Low, None, map[]), Admission(Check, High, Some(Low), WithLow())], Id(0, 1);
    assert Climbs(a, cfg, cs, adms, 0) && Climbs(a, cfg, cs, adms, 1);
    assert Raisings(a, adms, 1) == 1;
  }
}
