/** The two chains of lanes (blockbuster/abci/abci.go, blockbuster/lane_abci.go): building a
    proposal lane by lane, with recovery from errors and panics, and verifying one. */
module Chain {
  import opened Proposals
  import opened Lanes

  /** The end-of-chain lane, which the chains append to themselves, and every other lane. */
  datatype Link<!S, !X> = Terminator | LaneLink(lane: Lane<S, X>)

  /** A branch of the application state. */
  class Context<S(!new)> {
    var state: S

    constructor (state: S)
      ensures this.state == state
    {
      this.state := state;
    }

    method CacheContext() returns (cached: Context<S>)
      ensures fresh(cached) && cached.state == state
    {
      cached := new Context(state);
    }

    /** Commits a cached branch. Nothing else writes to this one in between. */
    method Write(cached: Context<S>)
      modifies this
      ensures state == cached.state
    {
      state := cached.state;
    }
  }

  /** Which lanes ran their prepare handler, and what they asked to drop from their mempools. */
  class Record<S(!new), X(!new)> {
    var prepared: seq<Lane<S, X>>
    var dropped: seq<X>

    constructor ()
      ensures prepared == [] && dropped == []
    {
      prepared, dropped := [], [];
    }
  }

  // ---------------------------------------------------------------- preparing

  function RunPrepare<S, X>(env: Env<X>, l: Lane<S, X>, st: S, txs: seq<Bytes>, max: int): PrepareOutcome<S, X> {
    match l.handlers
    case DefaultHandlers =>
      var s := DefaultSelect(env, l, Hashes(env.hash, txs), st, 0, max, l.order);
      Prepared(s.txs, s.toRemove, s.state)
    case AuctionHandlers =>
      var s := AuctionSelect(env, l, Hashes(env.hash, txs), st, max, l.order);
      Prepared(s.txs, s.toRemove, s.state)
    case CustomHandlers(prepare, _, _) => prepare(st, txs, max)
  }

  /** A proposal under construction: its transactions and the state they lead to. */
  datatype Built<S> = Built(txs: seq<Bytes>, state: S)

  /** One lane's contribution: all that its handler selected, or nothing if the handler failed or the
      proposal refuses the selection. */
  function PrepareOne<S, X>(env: Env<X>, l: Lane<S, X>, max: int, b: Built<S>): Built<S> {
    match RunPrepare(env, l, b.state, b.txs, LaneLimit(max, SumLen(b.txs), l.share))
    case Prepared(txs, _, st) =>
      if Fits(max, SumLen(b.txs), l.share, txs) then Built(b.txs + txs, st) else b
    case _ => b
  }

  /** The plain meaning of the chain: a left fold over the lanes that skips those that fail. */
  function PrepareAll<S, X>(env: Env<X>, lanes: seq<Lane<S, X>>, max: int, b: Built<S>): Built<S> {
    if lanes == [] then b else PrepareAll(env, lanes[1..], max, PrepareOne(env, lanes[0], max, b))
  }

  /** What a lane asks to drop from its mempool: nothing if its handler failed. */
  function DropOne<S, X>(env: Env<X>, l: Lane<S, X>, max: int, b: Built<S>): seq<X> {
    match RunPrepare(env, l, b.state, b.txs, LaneLimit(max, SumLen(b.txs), l.share))
    case Prepared(_, toRemove, _) => toRemove
    case _ => []
  }

  /** What all lanes ask to drop, in registry order, also those whose selection the proposal refuses. */
  function DropAll<S, X>(env: Env<X>, lanes: seq<Lane<S, X>>, max: int, b: Built<S>): seq<X> {
    if lanes == [] then []
    else DropOne(env, lanes[0], max, b) + DropAll(env, lanes[1..], max, PrepareOne(env, lanes[0], max, b))
  }

  /** The lanes of a chain: those before its first terminator. */
  function LanesOf<S, X>(chain: seq<Link<S, X>>): seq<Lane<S, X>> {
    if chain == [] || chain[0].Terminator? then [] else [chain[0].lane] + LanesOf(chain[1..])
  }

  method RunPrepareHandler<S(!new), X(!new)>(env: Env<X>, l: Lane<S, X>, st: S, proposal: Proposal, max: int)
    returns (outcome: PrepareOutcome<S, X>)
    requires proposal.Valid() && proposal.hash == env.hash
    ensures outcome == RunPrepare(env, l, st, proposal.txs, max)
  {
    match l.handlers
    case DefaultHandlers =>
      var txs, toRemove, st' := DefaultPrepareLaneHandler(env, l, proposal.cache, st, max);
      outcome := Prepared(txs, toRemove, st');
    case AuctionHandlers =>
      var txs, toRemove, st' := AuctionPrepareLaneHandler(env, l, proposal.cache, st, max);
      outcome := Prepared(txs, toRemove, st');
    case CustomHandlers(prepare, _, _) =>
      outcome := prepare(st, proposal.txs, max);
  }

  /** Runs a lane inside the chain: handler, removals, update, then the rest of the chain on the same
      context. Fails, without having touched the proposal, on an error or a panic. */
  method PrepareLane<S(!new), X(!new)>(env: Env<X>, link: Link<S, X>, ctx: Context<S>, proposal: Proposal, max: int,
                                       next: seq<Link<S, X>>, record: Record<S, X>)
    returns (ok: bool)
    requires proposal.Valid() && proposal.hash == env.hash
    requires link.LaneLink? ==> next != [] && next[|next| - 1].Terminator?
    requires link.LaneLink? ==> max == LaneLimit(proposal.maxTxBytes, SumLen(proposal.txs), link.lane.share)
    modifies ctx, proposal, record
    ensures proposal.Valid()
    ensures !ok ==>
              && link.LaneLink? && proposal.txs == old(proposal.txs) && record.prepared == old(record.prepared) + [link.lane]
              && record.dropped == old(record.dropped)
                                   + DropOne(env, link.lane, proposal.maxTxBytes, Built(old(proposal.txs), old(ctx.state)))
    ensures link.LaneLink? ==>
              var b := PrepareOne(env, link.lane, proposal.maxTxBytes, Built(old(proposal.txs), old(ctx.state)));
              if ok
              then && Built(proposal.txs, ctx.state) == PrepareAll(env, LanesOf(next), proposal.maxTxBytes, b)
                   && record.prepared == old(record.prepared) + [link.lane] + LanesOf(next)
                   && record.dropped == old(record.dropped)
                                        + DropOne(env, link.lane, proposal.maxTxBytes, Built(old(proposal.txs), old(ctx.state)))
                                        + DropAll(env, LanesOf(next), proposal.maxTxBytes, b)
              else b == Built(old(proposal.txs), old(ctx.state))
    ensures link.Terminator? ==> ok && proposal.txs == old(proposal.txs) && ctx.state == old(ctx.state)
                                 && record.prepared == old(record.prepared) && record.dropped == old(record.dropped)
    decreases |next|, 1
  {
    if link.Terminator? {
      return true;
    }
    var l := link.lane;
    var outcome := RunPrepareHandler(env, l, ctx.state, proposal, max);
    record.prepared := record.prepared + [l];
    ctx.state := outcome.state;
    if !outcome.Prepared? {
      assert record.dropped + [] == record.dropped;
      return false;
    }
    record.dropped := record.dropped + outcome.toRemove;
    var updated := proposal.UpdateProposal(l.share, outcome.txs);
    if !updated {
      return false;
    }
    PrepareChain(env, next, ctx, proposal, record);
    return true;
  }

  /** One step of the fold, seen from the chain. */
  lemma LanesOfChain<S, X>(env: Env<X>, chain: seq<Link<S, X>>, max: int, b: Built<S>, ran: seq<Lane<S, X>>, dropped: seq<X>)
    requires chain != []
    ensures chain[0].Terminator? || (|chain| == 2 && chain[1].Terminator?) ==>
              var rest := if chain[0].Terminator? then chain else chain[1..];
              && PrepareAll(env, LanesOf(rest), max, b) == b
              && ran + LanesOf(rest) == ran && dropped + DropAll(env, LanesOf(rest), max, b) == dropped
    ensures chain[0].LaneLink? ==>
              var b' := PrepareOne(env, chain[0].lane, max, b);
              && PrepareAll(env, LanesOf(chain), max, b) == PrepareAll(env, LanesOf(chain[1..]), max, b')
              && ran + LanesOf(chain) == ran + [chain[0].lane] + LanesOf(chain[1..])
              && dropped + DropAll(env, LanesOf(chain), max, b)
                 == dropped + DropOne(env, chain[0].lane, max, b) + DropAll(env, LanesOf(chain[1..]), max, b')
  {
    hide PrepareOne, DropOne;
    if chain[0].LaneLink? {
      assert LanesOf(chain)[1..] == LanesOf(chain[1..]);
    }
  }

  /** The chain proper. The lane at its head works on a cached branch of the context, which is
      committed only if the lane succeeds; otherwise the rest of the chain runs on the context itself. */
  method PrepareChain<S(!new), X(!new)>(env: Env<X>, chain: seq<Link<S, X>>, ctx: Context<S>, proposal: Proposal, record: Record<S, X>)
    requires proposal.Valid() && proposal.hash == env.hash
    requires chain != [] && chain[|chain| - 1].Terminator?
    modifies ctx, proposal, record
    ensures proposal.Valid()
    ensures Built(proposal.txs, ctx.state)
            == PrepareAll(env, LanesOf(chain), proposal.maxTxBytes, Built(old(proposal.txs), old(ctx.state)))
    ensures record.prepared == old(record.prepared) + LanesOf(chain)
    ensures record.dropped == old(record.dropped)
                              + DropAll(env, LanesOf(chain), proposal.maxTxBytes, Built(old(proposal.txs), old(ctx.state)))
    decreases |chain|, 0
  {
    hide PrepareOne, LaneLimit, PrepareAll, LanesOf, DropOne, DropAll;
    LanesOfChain(env, chain, proposal.maxTxBytes, Built(proposal.txs, ctx.state), record.prepared, record.dropped);
    var link := chain[0];
    var cacheCtx := ctx.CacheContext();
    var max := LaneLimit(proposal.maxTxBytes, proposal.totalTxBytes, if link.LaneLink? then link.lane.share else 0);
    var ok := PrepareLane(env, link, cacheCtx, proposal, max, chain[1..], record);
    if !ok {
      if |chain| <= 2 {
        // only the terminator is left: the proposal is returned as it is
        LanesOfChain(env, chain, proposal.maxTxBytes, Built(proposal.txs, ctx.state), record.prepared, record.dropped);
      } else {
        PrepareChain(env, chain[1..], ctx, proposal, record);
      }
    } else {
      ctx.Write(cacheCtx);
    }
  }

  /** The prepare handler: appends the terminator if the chain lacks it. */
  method ChainPrepareLanes<S(!new), X(!new)>(env: Env<X>, chain: seq<Link<S, X>>, ctx: Context<S>, proposal: Proposal, record: Record<S, X>)
    requires proposal.Valid() && proposal.hash == env.hash
    requires chain != []
    modifies ctx, proposal, record
    ensures proposal.Valid()
    ensures Built(proposal.txs, ctx.state)
            == PrepareAll(env, LanesOf(chain), proposal.maxTxBytes, Built(old(proposal.txs), old(ctx.state)))
    ensures record.prepared == old(record.prepared) + LanesOf(chain)
    ensures record.dropped == old(record.dropped)
                              + DropAll(env, LanesOf(chain), proposal.maxTxBytes, Built(old(proposal.txs), old(ctx.state)))
  {
    var terminated := if chain[|chain| - 1].Terminator? then chain else chain + [Terminator];
    TerminatedLanes(chain);
    PrepareChain(env, terminated, ctx, proposal, record);
  }

  lemma {:induction false} TerminatedLanes<S, X>(chain: seq<Link<S, X>>)
    ensures LanesOf(chain + [Terminator]) == LanesOf(chain)
  {
    if chain != [] {
      assert (chain + [Terminator])[1..] == chain[1..] + [Terminator];
      TerminatedLanes(chain[1..]);
    }
  }

  // ---------------------------------------------------------------- processing

  datatype Verdict<S> = Accept(state: S) | Reject

  ghost predicate CheckOrder<S, X>(env: Env<X>, l: Lane<S, X>, xs: seq<X>) {
    match l.handlers
    case DefaultHandlers => DefaultOrdered(l, xs)
    case AuctionHandlers => AuctionOrdered(env, l, xs)
    case CustomHandlers(_, checkOrder, _) => checkOrder(xs)
  }

  function RunProcess<S, X>(env: Env<X>, l: Lane<S, X>, st: S, xs: seq<X>): ProcessOutcome<S, X> {
    match l.handlers
    case DefaultHandlers => DefaultProcess(l, st, xs)
    case AuctionHandlers => AuctionProcess(env, l, st, xs)
    case CustomHandlers(_, _, process) => process(st, xs)
  }

  /** Each lane checks the order of all remaining transactions, verifies its own, and hands on the
      rest; the terminator takes whatever is left. */
  ghost function ProcessAll<S, X>(env: Env<X>, lanes: seq<Lane<S, X>>, st: S, xs: seq<X>): Verdict<S> {
    if xs == [] || lanes == [] then Accept(st)
    else if !CheckOrder(env, lanes[0], xs) then Reject
    else match RunProcess(env, lanes[0], st, xs)
      case Rejected => Reject
      case Processed(rest, st') => ProcessAll(env, lanes[1..], st', rest)
  }

  /** The verdict on a block: a malformed transaction rejects it, an empty block is accepted. */
  ghost function ProcessBlock<S, X>(env: Env<X>, lanes: seq<Lane<S, X>>, st: S, txs: seq<Bytes>): Verdict<S> {
    match DecodeAll(env, txs)
    case None => Reject
    case Some(xs) => ProcessAll(env, lanes, st, xs)
  }

  method RunCheckOrder<S, X>(env: Env<X>, l: Lane<S, X>, xs: seq<X>) returns (ok: bool)
    ensures ok <==> CheckOrder(env, l, xs)
  {
    match l.handlers
    case DefaultHandlers => ok := DefaultCheckOrderHandler(l, xs);
    case AuctionHandlers => ok := AuctionCheckOrderHandler(env, l, xs);
    case CustomHandlers(_, checkOrder, _) => ok := checkOrder(xs);
  }

  method RunProcessHandler<S(!new), X(!new)>(env: Env<X>, l: Lane<S, X>, st: S, xs: seq<X>) returns (r: ProcessOutcome<S, X>)
    ensures r == RunProcess(env, l, st, xs)
  {
    match l.handlers
    case DefaultHandlers => r := DefaultProcessLaneHandler(l, st, xs);
    case AuctionHandlers => r := AuctionProcessLaneHandler(env, l, st, xs);
    case CustomHandlers(_, _, process) => r := process(st, xs);
  }

  method ProcessChain<S(!new), X(!new)>(env: Env<X>, chain: seq<Link<S, X>>, st: S, xs: seq<X>) returns (v: Verdict<S>)
    requires chain != [] && chain[|chain| - 1].Terminator?
    ensures v == ProcessAll(env, LanesOf(chain), st, xs)
    decreases |chain|
  {
    if |xs| == 0 {
      return Accept(st);
    }
    if chain[0].Terminator? {
      return Accept(st);
    }
    var l := chain[0].lane;
    var ordered := RunCheckOrder(env, l, xs);
    if !ordered {
      return Reject;
    }
    var outcome := RunProcessHandler(env, l, st, xs);
    if outcome.Rejected? {
      return Reject;
    }
    v := ProcessChain(env, chain[1..], outcome.state, outcome.rest);
  }

  method GetDecodedTxs<X(!new)>(env: Env<X>, txs: seq<Bytes>) returns (decoded: Option<seq<X>>)
    ensures decoded == DecodeAll(env, txs)
  {
    var xs := [];
    ghost var rest := DecodeAll(env, txs);
    assert txs[0..] == txs;
    assert rest.Some? ==> [] + rest.value == rest.value;
    for i := 0 to |txs|
      invariant rest == DecodeAll(env, txs[i..])
      invariant DecodeAll(env, txs) == if rest.None? then None else Some(xs + rest.value)
    {
      assert txs[i..][0] == txs[i] && txs[i..][1..] == txs[i + 1..];
      var x := env.decode(txs[i]);
      if x.None? {
        return None;
      }
      rest := DecodeAll(env, txs[i + 1..]);
      if rest.Some? {
        Shift(xs, x.value, rest.value);
      }
      xs := xs + [x.value];
    }
    assert xs + [] == xs;
    return Some(xs);
  }

  /** The process handler. */
  method ProcessProposal<S(!new), X(!new)>(env: Env<X>, chain: seq<Link<S, X>>, st: S, txs: seq<Bytes>) returns (v: Verdict<S>)
    requires chain != []
    ensures v == ProcessBlock(env, LanesOf(chain), st, txs)
  {
    if |txs| == 0 {
      return Accept(st);
    }
    var decoded := GetDecodedTxs(env, txs);
    if decoded.None? {
      return Reject;
    }
    var terminated := if chain[|chain| - 1].Terminator? then chain else chain + [Terminator];
    TerminatedLanes(chain);
    v := ProcessChain(env, terminated, st, decoded.value);
  }
}
