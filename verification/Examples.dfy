/** Proposals that a validator with the proposer's own state and configuration rejects: what the
    conditions of agreement shut out does happen. */
module Examples {
  import opened Proposals
  import opened Lanes
  import opened Chain
  import opened Segments
  import opened Agreement
  import opened PriorityIndices
  import opened SkipList
  import opened GreedyMerge
  import opened HonestProposals

  /** A bid with an empty bundle, a bid whose bundle is that bid, and two transactions of one sender. */
  datatype Tx = InnerBid | OuterBid | First | Second

  /** A bid's encoding contains its bundle. */
  function Encode(x: Tx): Bytes {
    match x case InnerBid => [0] case OuterBid => [3, 0] case First => [1] case Second => [2]
  }

  function Decode(tx: Bytes): Option<Tx> {
    if tx == [0] then Some(InnerBid)
    else if tx == [3, 0] then Some(OuterBid)
    else if tx == [1] then Some(First)
    else if tx == [2] then Some(Second)
    else None
  }

  function BidOf(x: Tx): BidInfo {
    match x case InnerBid => Bid([]) case OuterBid => Bid([Encode(InnerBid)]) case _ => NotABid
  }

  /** A hash without collisions. */
  function Text(tx: Bytes): string {
    seq(|tx|, i requires 0 <= i < |tx| => tx[i] as char)
  }

  lemma TextIsInjective(a: Bytes, b: Bytes)
    requires Text(a) == Text(b)
    ensures a == b
  {
    assert |a| == |Text(a)| == |b|;
    forall i | 0 <= i < |a| ensures a[i] == b[i] {
      assert Text(a)[i] == a[i] as char && Text(b)[i] == b[i] as char;
    }
  }

  function ExampleEnv(): Env<Tx> {
    Env((x: Tx) => Some(Encode(x)), (tx: Bytes) => Decode(tx), (tx: Bytes) => Text(tx), (x: Tx) => BidOf(x))
  }

  function PriorityOf(x: Tx): int {
    match x case First => 1 case Second => 2 case _ => 0
  }

  /** A lane for everything, whose one sender pays more for its second nonce than for its first. */
  function RisingLane(): Lane<(), Tx> {
    Lane((x: Tx) => true, (x: Tx) => PriorityOf(x), (st: (), x: Tx) => AnteOk(st), 0, [First, Second], DefaultHandlers)
  }

  function RisingQueues(): Queues<Tx> {
    map[0 := [Node(1, Queued(1, First)), Node(2, Queued(2, Second))]]
  }

  /** An auction lane that holds the bid on a bid. */
  function NestedBidLane(): Lane<(), Tx> {
    Lane((x: Tx) => BidOf(x).Bid?, (x: Tx) => 0, (st: (), x: Tx) => AnteOk(st), 0, [OuterBid], AuctionHandlers)
  }

  ghost predicate CollisionFree(env: Env<Tx>) {
    forall a, b {:trigger env.hash(a), env.hash(b)} :: env.hash(a) == env.hash(b) ==> a == b
  }

  lemma ExampleEnvIsCanonical()
    ensures Canonical(ExampleEnv()) && CollisionFree(ExampleEnv())
  {
    var env := ExampleEnv();
    forall a, b | env.hash(a) == env.hash(b) ensures a == b {
      TextIsInjective(a, b);
    }
    forall x | env.encode(x).Some? ensures env.decode(env.encode(x).value) == Some(x) {
      match x case InnerBid => case OuterBid => case First => case Second =>
    }
  }

  /** A sender that pays more for a later nonce makes honest proposers build blocks that honest
      validators reject: the mempool hands out its transactions in nonce order. */
  lemma RisingSenderIsRejected()
    ensures Configured(ExampleEnv(), [RisingLane()]) && Canonical(ExampleEnv())
    ensures DrainsMempool(RisingLane(), RisingQueues(), [FirstPick(), SecondPick()])
    ensures PrepareAll(ExampleEnv(), [RisingLane()], 2, Built([], ())).txs == [[1], [2]]
    ensures ProcessBlock(ExampleEnv(), [RisingLane()], (), [[1], [2]]) == Reject
  {
    var env, l := ExampleEnv(), RisingLane();
    ExampleEnvIsCanonical();
    hide CollisionFree;
    RisingMempool();
    var s := RisingSelection();
    hide DefaultSelect;
    assert LaneLimit(2, SumLen([]), 0) == 2 && Hashes(env.hash, []) == {};
    var segs := Contributions(env, [l], 2, Built([], ()));
    assert segs[0] == [First, Second];
    assert l.priority(segs[0][0]) < l.priority(segs[0][1]);
    ProposalIsAcceptedIff(env, [l], 2, Built([], ()), ());
    assert [] + s.txs == s.txs;
  }

  lemma RisingSelection() returns (s: Selection<(), Tx>)
    ensures s == DefaultSelect(ExampleEnv(), RisingLane(), {}, (), 0, 2, RisingLane().order)
    ensures s.txs == [[1], [2]] && s.picks == [First, Second] && SumLen(s.txs) == 2
  {
    var env, l := ExampleEnv(), RisingLane();
    assert env.encode(First) == Some([1]) && env.encode(Second) == Some([2]);
    assert l.order[1..] == [Second] && l.order[1..][1..] == [];
    var none := DefaultSelect(env, l, {}, (), 2, 2, []);
    var last := DefaultSelect(env, l, {}, (), 1, 2, [Second]);
    assert last == Picking(Second, [2], none);
    s := DefaultSelect(env, l, {}, (), 0, 2, l.order);
    assert s == Picking(First, [1], last);
    assert s.txs[1..] == [[2]] && [[2]][1..] == [] && SumLen([[2]]) == 1;
  }

  function FirstPick(): Pick<Tx> {
    Pick(0, Node(1, Queued(1, First)))
  }

  function SecondPick(): Pick<Tx> {
    Pick(0, Node(2, Queued(2, Second)))
  }

  lemma RisingPicks()
    ensures forall s :: PicksOf<Tx>([], s) == []
    ensures PicksOf([FirstPick()], 0) == [FirstPick().node]
    ensures PicksOf([FirstPick(), SecondPick()], 0) == [FirstPick().node, SecondPick().node]
  {
    PicksOfAppend([], FirstPick(), 0);
    PicksOfAppend([FirstPick()], SecondPick(), 0);
    assert [] + [FirstPick()] == [FirstPick()] && [FirstPick()] + [SecondPick()] == [FirstPick(), SecondPick()];
  }

  lemma RisingMempool()
    ensures DrainsMempool(RisingLane(), RisingQueues(), [FirstPick(), SecondPick()])
  {
    var q, a, b := RisingQueues(), FirstPick(), SecondPick();
    RisingPicks();
    hide PicksOf, GreedyPrefix;
    assert GreedyPrefix(q, []) by {
      NothingIsGreedy(q);
    }
    assert GreedyChoice(q, [], a);
    GreedyPrefixAppend(q, [], a);
    assert GreedyChoice(q, [a], b);
    GreedyPrefixAppend(q, [a], b);
    assert [] + [a] == [a] && [a] + [b] == [a, b];
    assert forall s :: Waiting(q, [a, b], s) ==> s == 0;
  }

  lemma NothingIsGreedy(q: Queues<Tx>)
    ensures GreedyPrefix(q, [])
  {
  }

  lemma NestedSelection() returns (s: Selection<(), Tx>)
    ensures s == AuctionSelect(ExampleEnv(), NestedBidLane(), {}, (), 3, NestedBidLane().order)
    ensures s.picks == [OuterBid, InnerBid] && s.txs == [Encode(OuterBid), Encode(InnerBid)] && SumLen(s.txs) == 3
  {
    var env, l := ExampleEnv(), NestedBidLane();
    ExampleEnvIsCanonical();
    hide CollisionFree;
    var bundle := [Encode(InnerBid)];
    assert env.bidInfo(OuterBid) == Bid(bundle) && bundle[1..] == [];
    assert env.decode(Encode(InnerBid)) == Some(InnerBid);
    assert WrapBundle(env, {}, []) == Wrapped([], []);
    assert WrapBundle(env, {}, bundle) == Wrapped([InnerBid], bundle);
    assert VerifyBundle(env, l, (), []) == Some(());
    assert VerifyTx(env, l, (), OuterBid, Bid(bundle)) == Some(());
    s := AuctionSelect(env, l, {}, (), 3, l.order);
    assert s == Selection([OuterBid] + [InnerBid], [Encode(OuterBid)] + bundle, [], ());
    assert s.txs[1..] == bundle;
  }

  /** A bid whose bundle contains a bid is selected by the proposer and refused by the validator. */
  lemma NestedBidIsRejected()
    ensures Configured(ExampleEnv(), [NestedBidLane()]) && Canonical(ExampleEnv())
    ensures PrepareAll(ExampleEnv(), [NestedBidLane()], 3, Built([], ())).txs == [Encode(OuterBid), Encode(InnerBid)]
    ensures ProcessBlock(ExampleEnv(), [NestedBidLane()], (), [Encode(OuterBid), Encode(InnerBid)]) == Reject
  {
    var env, l := ExampleEnv(), NestedBidLane();
    ExampleEnvIsCanonical();
    hide CollisionFree;
    var s := NestedSelection();
    hide AuctionSelect;
    assert LaneLimit(3, SumLen([]), 0) == 3 && Hashes(env.hash, []) == {};
    var segs := Contributions(env, [l], 3, Built([], ()));
    assert segs[0] == [OuterBid, InnerBid];
    assert l.matches(segs[0][1]);
    ProposalIsAcceptedIff(env, [l], 3, Built([], ()), ());
    assert [] + s.txs == s.txs;
  }

  /** An ante handler that writes before it fails: it rejects `First` but leaves the state set, and
      accepts `Second` only when the state is set. */
  function LeakyAnte(st: bool, x: Tx): AnteResult<bool> {
    if x.First? then AnteErr(true) else if st then AnteOk(st) else AnteErr(st)
  }

  function LeakyLane(): Lane<bool, Tx> {
    Lane((x: Tx) => true, (x: Tx) => 0, (st: bool, x: Tx) => LeakyAnte(st, x), 0, [First, Second], DefaultHandlers)
  }

  lemma LeakySelection() returns (s: Selection<bool, Tx>)
    ensures s == DefaultSelect(ExampleEnv(), LeakyLane(), {}, false, 0, 1, LeakyLane().order)
    ensures s.txs == [[2]] && s.picks == [Second] && SumLen(s.txs) == 1
  {
    var env, l := ExampleEnv(), LeakyLane();
    assert env.encode(First) == Some([1]) && env.encode(Second) == Some([2]);
    assert l.order[1..] == [Second] && [Second][1..] == [];
    var last := DefaultSelect(env, l, {}, true, 0, 1, [Second]);
    assert last == Picking(Second, [2], DefaultSelect(env, l, {}, true, 1, 1, []));
    s := DefaultSelect(env, l, {}, false, 0, 1, l.order);
    assert s == Dropping(First, last);
    assert [[2]][1..] == [];
  }

  /** Without failure-neutral verification the proposer builds on writes of a transaction it dropped: the
      contribution is in order, but replaying it fails, and the validator rejects the block. */
  lemma LeakyAnteIsRejected()
    ensures Configured(ExampleEnv(), [LeakyLane()]) && Canonical(ExampleEnv())
    ensures var segs := Contributions(ExampleEnv(), [LeakyLane()], 1, Built([], false));
            AllInOrder(ExampleEnv(), [LeakyLane()], segs) && Replay([LeakyLane()], segs, false) == None
    ensures PrepareAll(ExampleEnv(), [LeakyLane()], 1, Built([], false)).txs == [[2]]
    ensures ProcessBlock(ExampleEnv(), [LeakyLane()], false, [[2]]) == Reject
  {
    var env, l, b := ExampleEnv(), LeakyLane(), Built([], false);
    ExampleEnvIsCanonical();
    hide CollisionFree;
    var s := LeakySelection();
    hide DefaultSelect, ProcessBlock;
    assert LaneLimit(1, SumLen([]), 0) == 1 && Hashes(env.hash, []) == {};
    assert [] + s.txs == s.txs;
    var segs := Contributions(env, [l], 1, b);
    assert segs[0] == [Second];
    assert VerifyAll(l, false, segs[0]) == None;
    ProposalIsAcceptedIff(env, [l], 1, b, false);
  }
}
