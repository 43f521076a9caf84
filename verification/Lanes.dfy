/** Lanes: what a lane is configured with, how it selects transactions for a proposal and how it
    checks its part of one (blockbuster/lane_constructor.go, blockbuster/lane_handlers.go,
    blockbuster/lanes/auction/abci.go). `S` is the application state and `X` a transaction. */
module Lanes {
  import opened Proposals

  datatype Option<T> = None | Some(value: T)

  /** The verdict of a lane's ante handler, with the state it leaves behind. */
  datatype AnteResult<S> = AnteOk(state: S) | AnteErr(state: S)

  /** What a transaction says about bidding: nothing, something malformed, or a bid on a bundle. */
  datatype BidInfo = NotABid | BadBid | Bid(transactions: seq<Bytes>)

  /** The functions all lanes share. */
  datatype Env<!X> = Env(
    encode: X -> Option<Bytes>,
    decode: Bytes -> Option<X>,
    hash: Bytes -> string,
    bidInfo: X -> BidInfo)

  datatype PrepareOutcome<S, X> =
    | Prepared(txs: seq<Bytes>, toRemove: seq<X>, state: S)
    | PrepareFailed(state: S)
    | PreparePanicked(state: S)

  datatype ProcessOutcome<S, X> = Processed(rest: seq<X>, state: S) | Rejected

  /** A lane's handlers: the default ones, the auction's, or an application's own. */
  datatype Handlers<!S, !X> =
    | DefaultHandlers
    | AuctionHandlers
    | CustomHandlers(
        prepare: (S, seq<Bytes>, int) -> PrepareOutcome<S, X>,
        checkOrder: seq<X> -> bool,
        process: (S, seq<X>) -> ProcessOutcome<S, X>)

  /** `matches` is the lane's match test after its ignore list, and `order` the order in which
      iterating the lane's mempool hands out its transactions. */
  datatype Lane<!S, !X> = Lane(
    matches: X -> bool,
    priority: X -> int,
    ante: (S, X) -> AnteResult<S>,
    share: int,
    order: seq<X>,
    handlers: Handlers<S, X>)

  // ---------------------------------------------------------------- selecting

  /** The outcome of selecting: the transactions picked, their bytes, those to drop from the
      mempool, and the state reached by verifying the picked ones. */
  datatype Selection<S, X> = Selection(picks: seq<X>, txs: seq<Bytes>, toRemove: seq<X>, state: S)

  function Dropping<S, X>(x: X, rest: Selection<S, X>): Selection<S, X> {
    rest.(toRemove := [x] + rest.toRemove)
  }

  function Picking<S, X>(x: X, tx: Bytes, rest: Selection<S, X>): Selection<S, X> {
    rest.(picks := [x] + rest.picks, txs := [tx] + rest.txs)
  }

  /** What the default prepare handler selects from `order`, having filled `total` bytes. A
      transaction that does not fit ends the selection. */
  function DefaultSelect<S, X>(env: Env<X>, l: Lane<S, X>, cache: set<string>, st: S, total: int, max: int, order: seq<X>)
    : Selection<S, X>
    decreases |order|
  {
    if order == [] then Selection([], [], [], st)
    else
      var x := order[0];
      match env.encode(x)
      case None => Dropping(x, DefaultSelect(env, l, cache, st, total, max, order[1..]))
      case Some(tx) =>
        if !l.matches(x) then Dropping(x, DefaultSelect(env, l, cache, st, total, max, order[1..]))
        else if env.hash(tx) in cache then DefaultSelect(env, l, cache, st, total, max, order[1..])
        else if total + |tx| > max then Selection([], [], [], st)
        else match l.ante(st, x)
          case AnteErr(st') => Dropping(x, DefaultSelect(env, l, cache, st', total, max, order[1..]))
          case AnteOk(st') => Picking(x, tx, DefaultSelect(env, l, cache, st', total + |tx|, max, order[1..]))
  }

  lemma Shift<T>(a: seq<T>, x: T, rest: seq<T>)
    ensures a + ([x] + rest) == a + [x] + rest
  {
  }

  method DefaultPrepareLaneHandler<S(!new), X(!new)>(env: Env<X>, l: Lane<S, X>, cache: set<string>, st: S, max: int)
    returns (txs: seq<Bytes>, toRemove: seq<X>, st': S)
    ensures var s := DefaultSelect(env, l, cache, st, 0, max, l.order);
            txs == s.txs && toRemove == s.toRemove && st' == s.state
  {
    var totalSize := 0;
    txs, toRemove, st' := [], [], st;
    ghost var whole := DefaultSelect(env, l, cache, st, 0, max, l.order);
    ghost var rest := whole;
    for i := 0 to |l.order|
      invariant rest == DefaultSelect(env, l, cache, st', totalSize, max, l.order[i..])
      invariant whole.txs == txs + rest.txs && whole.toRemove == toRemove + rest.toRemove && whole.state == rest.state
    {
      var x := l.order[i];
      assert l.order[i..][0] == x && l.order[i..][1..] == l.order[i + 1..];
      var encoded := env.encode(x);
      if encoded.None? {
        rest := DefaultSelect(env, l, cache, st', totalSize, max, l.order[i + 1..]);
        Shift(toRemove, x, rest.toRemove);
        toRemove := toRemove + [x];
        continue;
      }
      var tx := encoded.value;
      if !l.matches(x) {
        rest := DefaultSelect(env, l, cache, st', totalSize, max, l.order[i + 1..]);
        Shift(toRemove, x, rest.toRemove);
        toRemove := toRemove + [x];
        continue;
      }
      if env.hash(tx) in cache {
        continue;
      }
      if totalSize + |tx| > max {
        return;
      }
      var verdict := l.ante(st', x);
      st' := verdict.state;
      if verdict.AnteErr? {
        rest := DefaultSelect(env, l, cache, st', totalSize, max, l.order[i + 1..]);
        Shift(toRemove, x, rest.toRemove);
        toRemove := toRemove + [x];
        continue;
      }
      totalSize := totalSize + |tx|;
      rest := DefaultSelect(env, l, cache, st', totalSize, max, l.order[i + 1..]);
      Shift(txs, tx, rest.txs);
      txs := txs + [tx];
    }
  }

  /** Runs the ante handler over transactions in order; fails at the first one it rejects. */
  function VerifyAll<S, X>(l: Lane<S, X>, st: S, xs: seq<X>): Option<S> {
    if xs == [] then Some(st)
    else match l.ante(st, xs[0])
      case AnteErr(_) => None
      case AnteOk(st') => VerifyAll(l, st', xs[1..])
  }

  /** Decodes byte strings in order; fails at the first malformed one. */
  function DecodeAll<X>(env: Env<X>, txs: seq<Bytes>): Option<seq<X>> {
    if txs == [] then Some([])
    else match env.decode(txs[0])
      case None => None
      case Some(x) =>
        match DecodeAll(env, txs[1..])
        case None => None
        case Some(rest) => Some([x] + rest)
  }

  /** The bid and its bundle, decoded one by one as they are verified. */
  function VerifyBundle<S, X>(env: Env<X>, l: Lane<S, X>, st: S, bundle: seq<Bytes>): Option<S> {
    if bundle == [] then Some(st)
    else match env.decode(bundle[0])
      case None => None
      case Some(x) =>
        match l.ante(st, x)
        case AnteErr(_) => None
        case AnteOk(st') => VerifyBundle(env, l, st', bundle[1..])
  }

  function VerifyTx<S, X>(env: Env<X>, l: Lane<S, X>, st: S, bid: X, info: BidInfo): (verified: Option<S>)
    ensures verified.Some? ==> info.Bid? && l.ante(st, bid).AnteOk?
  {
    match info
    case Bid(bundle) =>
      (match l.ante(st, bid)
       case AnteErr(_) => None
       case AnteOk(st') => VerifyBundle(env, l, st', bundle))
    case _ => None
  }

  datatype Wrapping<X> = Wrapped(xs: seq<X>, txs: seq<Bytes>) | WrapFailed | AlreadyIncluded

  /** Re-encodes a bundle; the first malformed or already included transaction decides. */
  function WrapBundle<X>(env: Env<X>, cache: set<string>, bundle: seq<Bytes>): Wrapping<X> {
    if bundle == [] then Wrapped([], [])
    else match env.decode(bundle[0])
      case None => WrapFailed
      case Some(x) =>
        match env.encode(x)
        case None => WrapFailed
        case Some(tx) =>
          if env.hash(tx) in cache then AlreadyIncluded
          else match WrapBundle(env, cache, bundle[1..])
            case Wrapped(xs, txs) => Wrapped([x] + xs, [tx] + txs)
            case other => other
  }

  /** What the auction lane selects: the first bid, with its bundle, that passes every check. Only
      the bid's own size is compared with the lane's limit. */
  function AuctionSelect<S, X>(env: Env<X>, l: Lane<S, X>, cache: set<string>, st: S, max: int, order: seq<X>)
    : Selection<S, X>
  {
    if order == [] then Selection([], [], [], st)
    else
      var bid := order[0];
      match env.encode(bid)
      case None => Dropping(bid, AuctionSelect(env, l, cache, st, max, order[1..]))
      case Some(tx) =>
        if env.hash(tx) in cache || |tx| > max then AuctionSelect(env, l, cache, st, max, order[1..])
        else
          var info := env.bidInfo(bid);
          match VerifyTx(env, l, st, bid, info)
          case None => Dropping(bid, AuctionSelect(env, l, cache, st, max, order[1..]))
          case Some(st') =>
            match WrapBundle(env, cache, info.transactions)
            case WrapFailed => Dropping(bid, AuctionSelect(env, l, cache, st, max, order[1..]))
            case AlreadyIncluded => AuctionSelect(env, l, cache, st, max, order[1..])
            case Wrapped(xs, txs) => Selection([bid] + xs, [tx] + txs, [], st')
  }

  /** The auction's verification of a bid, on a cached state. */
  method VerifyBidTx<S(!new), X(!new)>(env: Env<X>, l: Lane<S, X>, st: S, bid: X, info: BidInfo) returns (verified: Option<S>)
    ensures verified == VerifyTx(env, l, st, bid, info)
  {
    if !info.Bid? {
      return None;
    }
    var verdict := l.ante(st, bid);
    if verdict.AnteErr? {
      return None;
    }
    var st' := verdict.state;
    for i := 0 to |info.transactions|
      invariant VerifyTx(env, l, st, bid, info) == VerifyBundle(env, l, st', info.transactions[i..])
    {
      assert info.transactions[i..][1..] == info.transactions[i + 1..];
      var bundled := env.decode(info.transactions[i]);
      if bundled.None? {
        return None;
      }
      var bundledVerdict := l.ante(st', bundled.value);
      if bundledVerdict.AnteErr? {
        return None;
      }
      st' := bundledVerdict.state;
    }
    return Some(st');
  }

  method WrapBundledTxs<X(!new)>(env: Env<X>, cache: set<string>, bundle: seq<Bytes>) returns (w: Wrapping<X>)
    ensures w == WrapBundle(env, cache, bundle)
  {
    var xs, txs := [], [];
    for i := 0 to |bundle|
      invariant WrapBundle(env, cache, bundle) ==
                match WrapBundle(env, cache, bundle[i..])
                case Wrapped(xs', txs') => Wrapped(xs + xs', txs + txs')
                case other => other
    {
      assert bundle[i..][1..] == bundle[i + 1..];
      var x := env.decode(bundle[i]);
      if x.None? {
        return WrapFailed;
      }
      var tx := env.encode(x.value);
      if tx.None? {
        return WrapFailed;
      }
      if env.hash(tx.value) in cache {
        return AlreadyIncluded;
      }
      xs, txs := xs + [x.value], txs + [tx.value];
    }
    return Wrapped(xs, txs);
  }

  method AuctionPrepareLaneHandler<S(!new), X(!new)>(env: Env<X>, l: Lane<S, X>, cache: set<string>, st: S, max: int)
    returns (txs: seq<Bytes>, toRemove: seq<X>, st': S)
    ensures var s := AuctionSelect(env, l, cache, st, max, l.order);
            txs == s.txs && toRemove == s.toRemove && st' == s.state
  {
    hide VerifyTx, WrapBundle;
    txs, toRemove, st' := [], [], st;
    ghost var whole := AuctionSelect(env, l, cache, st, max, l.order);
    for i := 0 to |l.order|
      invariant txs == [] && st' == st
      invariant var rest := AuctionSelect(env, l, cache, st, max, l.order[i..]);
                whole.txs == rest.txs && whole.toRemove == toRemove + rest.toRemove && whole.state == rest.state
    {
      var bid := l.order[i];
      assert l.order[i..][0] == bid && l.order[i..][1..] == l.order[i + 1..];
      Shift(toRemove, bid, AuctionSelect(env, l, cache, st, max, l.order[i + 1..]).toRemove);
      var encoded := env.encode(bid);
      if encoded.None? {
        toRemove := toRemove + [bid];
        continue;
      }
      if env.hash(encoded.value) in cache {
        continue;
      }
      if |encoded.value| <= max {
        var info := env.bidInfo(bid);
        if info.BadBid? {
          toRemove := toRemove + [bid];
          continue;
        }
        var verified := VerifyBidTx(env, l, st, bid, info);
        if verified.None? {
          toRemove := toRemove + [bid];
          continue;
        }
        var wrapped := WrapBundledTxs(env, cache, info.transactions);
        if wrapped.WrapFailed? {
          toRemove := toRemove + [bid];
          continue;
        }
        if wrapped.AlreadyIncluded? {
          continue;
        }
        txs := [encoded.value] + wrapped.txs;
        st' := verified.value;
        return;
      }
    }
  }

  // ---------------------------------------------------------------- checking

  /** What the default check of a lane's part of a block asks of every position: a transaction of the
      lane comes after transactions of the lane only, and does not outrank the one before it. */
  ghost predicate DefaultOrdered<S, X>(l: Lane<S, X>, xs: seq<X>) {
    forall i :: 0 <= i < |xs| && l.matches(xs[i]) ==>
      && (forall j :: 0 <= j < i ==> l.matches(xs[j]))
      && (i > 0 ==> l.priority(xs[i - 1]) >= l.priority(xs[i]))
  }

  method DefaultCheckOrderHandler<S, X>(l: Lane<S, X>, xs: seq<X>) returns (ok: bool)
    ensures ok <==> DefaultOrdered(l, xs)
  {
    var seenOtherLaneTx := false;
    for i := 0 to |xs|
      invariant seenOtherLaneTx <==> exists j :: 0 <= j < i && !l.matches(xs[j])
      invariant forall k :: 0 <= k < i && l.matches(xs[k]) ==>
                  && (forall j :: 0 <= j < k ==> l.matches(xs[j]))
                  && (k > 0 ==> l.priority(xs[k - 1]) >= l.priority(xs[k]))
    {
      if l.matches(xs[i]) {
        if seenOtherLaneTx {
          return false;
        }
        if i > 0 && l.priority(xs[i - 1]) < l.priority(xs[i]) {
          return false;
        }
      } else {
        seenOtherLaneTx := true;
      }
    }
    return true;
  }

  /** Verifies the leading transactions that match the lane and hands on the rest. */
  function DefaultProcess<S, X>(l: Lane<S, X>, st: S, xs: seq<X>): ProcessOutcome<S, X> {
    if xs == [] then Processed([], st)
    else if !l.matches(xs[0]) then Processed(xs, st)
    else match l.ante(st, xs[0])
      case AnteErr(_) => Rejected
      case AnteOk(st') => DefaultProcess(l, st', xs[1..])
  }

  method DefaultProcessLaneHandler<S(!new), X(!new)>(l: Lane<S, X>, st: S, xs: seq<X>) returns (r: ProcessOutcome<S, X>)
    ensures r == DefaultProcess(l, st, xs)
  {
    var st' := st;
    for i := 0 to |xs|
      invariant DefaultProcess(l, st, xs) == DefaultProcess(l, st', xs[i..])
    {
      assert xs[i..][0] == xs[i] && xs[i..][1..] == xs[i + 1..];
      if l.matches(xs[i]) {
        var verdict := l.ante(st', xs[i]);
        if verdict.AnteErr? {
          return Rejected;
        }
        st' := verdict.state;
      } else {
        return Processed(xs[i..], st');
      }
    }
    return Processed([], st');
  }

  /** A block's bids as the auction lane wants them: at most one, in front, followed by exactly its
      bundle, byte for byte, and none in the bundle. */
  ghost predicate AuctionOrdered<S, X>(env: Env<X>, l: Lane<S, X>, xs: seq<X>) {
    xs == [] ||
    (forall i :: 0 <= i < |xs| ==> !l.matches(xs[i])) ||
    (&& l.matches(xs[0])
     && (forall i :: 0 < i < |xs| ==> !l.matches(xs[i]))
     && var info := env.bidInfo(xs[0]);
        && info.Bid?
        && |xs| >= |info.transactions| + 1
        && forall i :: 0 < i <= |info.transactions| ==> env.encode(xs[i]) == Some(info.transactions[i - 1]))
  }

  /** The auction lane's check. A first transaction that matches the lane without being a bid would
      dereference a nil bid, a panic that the proposal handler turns into a rejection. */
  method AuctionCheckOrderHandler<S, X>(env: Env<X>, l: Lane<S, X>, xs: seq<X>) returns (ok: bool)
    ensures ok <==> AuctionOrdered(env, l, xs)
  {
    if |xs| == 0 {
      return true;
    }
    var bid := xs[0];
    if !l.matches(bid) {
      for i := 1 to |xs|
        invariant forall j :: 0 <= j < i ==> !l.matches(xs[j])
      {
        if l.matches(xs[i]) {
          return false;
        }
      }
      return true;
    }
    var info := env.bidInfo(bid);
    if !info.Bid? {
      return false;
    }
    var bundle := info.transactions;
    if |xs| < |bundle| + 1 {
      return false;
    }
    for i := 1 to |bundle| + 1
      invariant forall j :: 0 < j < i ==> !l.matches(xs[j])
      invariant forall j :: 0 < j < i ==> env.encode(xs[j]) == Some(bundle[j - 1])
    {
      if l.matches(xs[i]) {
        return false;
      }
      var tx := env.encode(xs[i]);
      if tx.None? {
        return false;
      }
      if tx.value != bundle[i - 1] {
        return false;
      }
    }
    for i := |bundle| + 1 to |xs|
      invariant forall j :: 0 < j < i ==> !l.matches(xs[j])
    {
      if l.matches(xs[i]) {
        return false;
      }
    }
    return true;
  }

  /** Verifies a leading bid with its bundle and hands on what follows the bundle. */
  function AuctionProcess<S, X>(env: Env<X>, l: Lane<S, X>, st: S, xs: seq<X>): ProcessOutcome<S, X> {
    if xs == [] || !l.matches(xs[0]) then Processed(xs, st)
    else
      var info := env.bidInfo(xs[0]);
      match VerifyTx(env, l, st, xs[0], info)
      case None => Rejected
      case Some(st') =>
        if |xs| < |info.transactions| + 1 then Rejected else Processed(xs[|info.transactions| + 1..], st')
  }

  method AuctionProcessLaneHandler<S(!new), X(!new)>(env: Env<X>, l: Lane<S, X>, st: S, xs: seq<X>)
    returns (r: ProcessOutcome<S, X>)
    ensures r == AuctionProcess(env, l, st, xs)
  {
    if |xs| == 0 {
      return Processed(xs, st);
    }
    var bid := xs[0];
    if !l.matches(bid) {
      return Processed(xs, st);
    }
    var info := env.bidInfo(bid);
    if info.BadBid? {
      return Rejected;
    }
    var verified := VerifyBidTx(env, l, st, bid, info);
    if verified.None? {
      return Rejected;
    }
    if |xs| < |info.transactions| + 1 {
      return Rejected;
    }
    return Processed(xs[|info.transactions| + 1..], verified.value);
  }
}
