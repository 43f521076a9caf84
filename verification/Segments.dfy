/** What a lane's part of a block is, and that a block is accepted exactly when it splits into one
    verified part per lane, in registry order. */
module Segments {
  import opened Proposals
  import opened Lanes
  import opened Chain

  /** Decoding undoes encoding. */
  ghost predicate Canonical<X(!new)>(env: Env<X>) {
    forall x {:trigger env.encode(x)} :: env.encode(x).Some? ==> env.decode(env.encode(x).value) == Some(x)
  }

  /** All lanes use the handlers that come with the repository. */
  ghost predicate Standard<S, X>(lanes: seq<Lane<S, X>>) {
    forall i :: 0 <= i < |lanes| ==> !lanes[i].handlers.CustomHandlers?
  }

  function Flatten<X>(segs: seq<seq<X>>): seq<X> {
    if segs == [] then [] else segs[0] + Flatten(segs[1..])
  }

  ghost predicate NoneMatch<S, X>(l: Lane<S, X>, xs: seq<X>) {
    forall i :: 0 <= i < |xs| ==> !l.matches(xs[i])
  }

  ghost predicate AllMatch<S, X>(l: Lane<S, X>, xs: seq<X>) {
    forall i :: 0 <= i < |xs| ==> l.matches(xs[i])
  }

  ghost predicate PriorityOrdered<S, X>(l: Lane<S, X>, xs: seq<X>) {
    forall i :: 0 < i < |xs| ==> l.priority(xs[i - 1]) >= l.priority(xs[i])
  }

  /** `seg` has the extent of the lane's part of a block that continues with `rest`. */
  ghost predicate HasShape<S, X>(env: Env<X>, l: Lane<S, X>, seg: seq<X>, rest: seq<X>) {
    && NoneMatch(l, rest)
    && (l.handlers.DefaultHandlers? ==> AllMatch(l, seg))
    && (l.handlers.AuctionHandlers? && seg != [] ==>
          && l.matches(seg[0]) && env.bidInfo(seg[0]).Bid?
          && |seg| == |env.bidInfo(seg[0]).transactions| + 1)
  }

  /** The lane's part is in order: by priority, or a bid followed by its bundle, byte for byte and
      without further bids. */
  ghost predicate InOrder<S, X>(env: Env<X>, l: Lane<S, X>, seg: seq<X>) {
    && (l.handlers.DefaultHandlers? ==> PriorityOrdered(l, seg))
    && (l.handlers.AuctionHandlers? && seg != [] ==>
          var info := env.bidInfo(seg[0]);
          && info.Bid?
          && forall i :: 0 < i < |seg| ==>
               && !l.matches(seg[i])
               && i <= |info.transactions| && env.encode(seg[i]) == Some(info.transactions[i - 1]))
  }

  // ---------------------------------------------------------------- one lane

  lemma DefaultOrderedIffInOrder<S, X>(env: Env<X>, l: Lane<S, X>, seg: seq<X>, rest: seq<X>)
    requires l.handlers.DefaultHandlers? && HasShape(env, l, seg, rest)
    ensures DefaultOrdered(l, seg + rest) <==> InOrder(env, l, seg)
  {
    var xs := seg + rest;
    assert forall i :: 0 <= i < |xs| ==> (l.matches(xs[i]) <==> i < |seg|);
    if DefaultOrdered(l, xs) {
      forall i | 0 < i < |seg| ensures l.priority(seg[i - 1]) >= l.priority(seg[i]) {
        assert xs[i] == seg[i] && xs[i - 1] == seg[i - 1];
      }
    }
    if InOrder(env, l, seg) {
      forall i | 0 < i < |xs| && l.matches(xs[i]) ensures l.priority(xs[i - 1]) >= l.priority(xs[i]) {
        assert xs[i] == seg[i] && xs[i - 1] == seg[i - 1];
      }
    }
  }

  lemma AuctionOrderedIffInOrder<S, X>(env: Env<X>, l: Lane<S, X>, seg: seq<X>, rest: seq<X>)
    requires l.handlers.AuctionHandlers? && HasShape(env, l, seg, rest)
    ensures AuctionOrdered(env, l, seg + rest) <==> InOrder(env, l, seg)
  {
    var xs := seg + rest;
    if seg == [] {
      assert xs == rest;
    } else {
      assert xs[0] == seg[0];
      if AuctionOrdered(env, l, xs) {
        forall i | 0 < i < |seg|
          ensures !l.matches(seg[i]) && env.encode(seg[i]) == Some(env.bidInfo(seg[0]).transactions[i - 1])
        {
          assert xs[i] == seg[i];
        }
      }
      if InOrder(env, l, seg) {
        forall i | 0 < i < |xs| ensures !l.matches(xs[i]) {
          assert xs[i] == if i < |seg| then seg[i] else rest[i - |seg|];
        }
        forall i | 0 < i <= |env.bidInfo(xs[0]).transactions|
          ensures env.encode(xs[i]) == Some(env.bidInfo(xs[0]).transactions[i - 1])
        {
          assert xs[i] == seg[i];
        }
      }
    }
  }

  /** A lane's order check looks at its own part only. */
  lemma CheckOrderIffInOrder<S, X>(env: Env<X>, l: Lane<S, X>, seg: seq<X>, rest: seq<X>)
    requires !l.handlers.CustomHandlers? && HasShape(env, l, seg, rest)
    ensures CheckOrder(env, l, seg + rest) <==> InOrder(env, l, seg)
  {
    if l.handlers.DefaultHandlers? {
      DefaultOrderedIffInOrder(env, l, seg, rest);
    } else {
      AuctionOrderedIffInOrder(env, l, seg, rest);
    }
  }

  function Outcome<S, X>(verified: Option<S>, rest: seq<X>): ProcessOutcome<S, X> {
    if verified.None? then Rejected else Processed(rest, verified.value)
  }

  lemma {:induction false} DefaultProcessOfSegment<S, X>(l: Lane<S, X>, st: S, seg: seq<X>, rest: seq<X>)
    requires AllMatch(l, seg) && NoneMatch(l, rest)
    ensures DefaultProcess(l, st, seg + rest) == Outcome(VerifyAll(l, st, seg), rest)
  {
    if seg == [] {
      assert seg + rest == rest;
    } else {
      assert (seg + rest)[1..] == seg[1..] + rest && (seg + rest)[0] == seg[0];
      match l.ante(st, seg[0])
      case AnteErr(_) =>
      case AnteOk(st') => DefaultProcessOfSegment(l, st', seg[1..], rest);
    }
  }

  lemma {:induction false} BundleVerifiesAsSegment<S, X(!new)>(env: Env<X>, l: Lane<S, X>, st: S, bundle: seq<Bytes>, xs: seq<X>)
    requires |bundle| == |xs|
    requires forall i :: 0 <= i < |xs| ==> env.decode(bundle[i]) == Some(xs[i])
    ensures VerifyBundle(env, l, st, bundle) == VerifyAll(l, st, xs)
  {
    if xs != [] {
      match l.ante(st, xs[0])
      case AnteErr(_) =>
      case AnteOk(st') => BundleVerifiesAsSegment(env, l, st', bundle[1..], xs[1..]);
    }
  }

  lemma AuctionProcessOfSegment<S, X(!new)>(env: Env<X>, l: Lane<S, X>, st: S, seg: seq<X>, rest: seq<X>)
    requires Canonical(env) && l.handlers.AuctionHandlers?
    requires HasShape(env, l, seg, rest) && InOrder(env, l, seg)
    ensures AuctionProcess(env, l, st, seg + rest) == Outcome(VerifyAll(l, st, seg), rest)
  {
    var xs := seg + rest;
    if seg == [] {
      assert xs == rest;
    } else {
      assert xs[0] == seg[0] && xs[|seg|..] == rest;
      var bundle := env.bidInfo(seg[0]).transactions;
      forall i | 0 <= i < |bundle| ensures env.decode(bundle[i]) == Some(seg[1..][i]) {
        assert env.encode(seg[i + 1]) == Some(bundle[i]);
      }
      match l.ante(st, seg[0])
      case AnteErr(_) =>
      case AnteOk(st') => BundleVerifiesAsSegment(env, l, st', bundle, seg[1..]);
    }
  }

  /** A lane's process handler verifies its own part, in order, and hands on exactly the rest. */
  lemma ProcessOfSegment<S, X(!new)>(env: Env<X>, l: Lane<S, X>, st: S, seg: seq<X>, rest: seq<X>)
    requires Canonical(env) && !l.handlers.CustomHandlers?
    requires HasShape(env, l, seg, rest) && InOrder(env, l, seg)
    ensures RunProcess(env, l, st, seg + rest) == Outcome(VerifyAll(l, st, seg), rest)
  {
    if l.handlers.DefaultHandlers? {
      DefaultProcessOfSegment(l, st, seg, rest);
    } else {
      AuctionProcessOfSegment(env, l, st, seg, rest);
    }
  }

  function LeadingMatches<S, X>(l: Lane<S, X>, xs: seq<X>): (k: nat)
    ensures k <= |xs|
    ensures forall i :: 0 <= i < k ==> l.matches(xs[i])
    ensures k < |xs| ==> !l.matches(xs[k])
  {
    if xs == [] || !l.matches(xs[0]) then 0 else 1 + LeadingMatches(l, xs[1..])
  }

  /** Whatever passes a lane's order check has a part for that lane. */
  lemma OrderedHasSegment<S, X>(env: Env<X>, l: Lane<S, X>, xs: seq<X>) returns (k: nat)
    requires !l.handlers.CustomHandlers? && CheckOrder(env, l, xs)
    ensures k <= |xs| && HasShape(env, l, xs[..k], xs[k..])
  {
    if l.handlers.DefaultHandlers? {
      k := LeadingMatches(l, xs);
      assert NoneMatch(l, xs[k..]);
    } else if xs == [] || !l.matches(xs[0]) {
      k := 0;
    } else {
      k := |env.bidInfo(xs[0]).transactions| + 1;
    }
  }

  // ---------------------------------------------------------------- the whole block

  /** `segs` gives each lane its part of a block that ends in `leftover`; verifying the parts in block
      order, each transaction by its lane's ante handler, leads from `st` to `st'`. */
  ghost predicate IsSplit<S, X>(env: Env<X>, lanes: seq<Lane<S, X>>, st: S, segs: seq<seq<X>>, leftover: seq<X>, st': S) {
    && |segs| == |lanes|
    && if lanes == [] then st == st'
       else
         && HasShape(env, lanes[0], segs[0], Flatten(segs[1..]) + leftover)
         && InOrder(env, lanes[0], segs[0])
         && VerifyAll(lanes[0], st, segs[0]).Some?
         && IsSplit(env, lanes[1..], VerifyAll(lanes[0], st, segs[0]).value, segs[1..], leftover, st')
  }

  lemma EmptySegment<S, X>(env: Env<X>, l: Lane<S, X>, st: S)
    ensures HasShape(env, l, [], []) && InOrder(env, l, []) && VerifyAll(l, st, []) == Some(st)
  {
  }

  /** An accepted block splits into one verified part per lane, in registry order. */
  lemma {:induction false} AcceptedBlockSplits<S, X(!new)>(env: Env<X>, lanes: seq<Lane<S, X>>, st: S, xs: seq<X>)
    returns (segs: seq<seq<X>>, leftover: seq<X>)
    requires Canonical(env) && Standard(lanes)
    requires ProcessAll(env, lanes, st, xs).Accept?
    ensures xs == Flatten(segs) + leftover
    ensures IsSplit(env, lanes, st, segs, leftover, ProcessAll(env, lanes, st, xs).state)
    decreases |lanes|
  {
    hide HasShape, InOrder, CheckOrder, RunProcess, VerifyAll, Canonical;
    if lanes == [] {
      segs, leftover := [], xs;
    } else if xs == [] {
      EmptySegment(env, lanes[0], st);
      var tail, left := AcceptedBlockSplits(env, lanes[1..], st, []);
      segs, leftover := [[]] + tail, left;
      assert segs[1..] == tail;
      assert Flatten(tail) + left == [];
    } else {
      var l := lanes[0];
      var k := OrderedHasSegment(env, l, xs);
      var seg, rest := xs[..k], xs[k..];
      assert seg + rest == xs;
      CheckOrderIffInOrder(env, l, seg, rest);
      ProcessOfSegment(env, l, st, seg, rest);
      var st' := VerifyAll(l, st, seg).value;
      var tail, left := AcceptedBlockSplits(env, lanes[1..], st', rest);
      segs, leftover := [seg] + tail, left;
      assert segs[1..] == tail;
      assert Flatten(segs) == seg + Flatten(tail);
    }
  }

  /** A block that splits into one verified part per lane is accepted, with the state the parts lead to. */
  lemma {:induction false} SplitBlockIsAccepted<S, X(!new)>(env: Env<X>, lanes: seq<Lane<S, X>>, st: S,
                                                            segs: seq<seq<X>>, leftover: seq<X>, st': S)
    requires Canonical(env) && Standard(lanes)
    requires IsSplit(env, lanes, st, segs, leftover, st')
    ensures ProcessAll(env, lanes, st, Flatten(segs) + leftover) == Accept(st')
    decreases |lanes|
  {
    if lanes != [] {
      var l, rest := lanes[0], Flatten(segs[1..]) + leftover;
      assert Flatten(segs) + leftover == segs[0] + rest;
      CheckOrderIffInOrder(env, l, segs[0], rest);
      ProcessOfSegment(env, l, st, segs[0], rest);
      SplitBlockIsAccepted(env, lanes[1..], VerifyAll(l, st, segs[0]).value, segs[1..], leftover, st');
      if segs[0] + rest == [] {
        EmptyIsAccepted(env, lanes[1..], VerifyAll(l, st, segs[0]).value);
      }
    }
  }

  lemma EmptyIsAccepted<S, X>(env: Env<X>, lanes: seq<Lane<S, X>>, st: S)
    ensures ProcessAll(env, lanes, st, []) == Accept(st)
  {
  }

  /** Acceptance, both ways: a decoded block is accepted with state `st'` exactly when it splits. */
  lemma AcceptedIffSplits<S, X(!new)>(env: Env<X>, lanes: seq<Lane<S, X>>, st: S, xs: seq<X>, st': S)
    requires Canonical(env) && Standard(lanes)
    ensures ProcessAll(env, lanes, st, xs) == Accept(st') <==>
            exists segs, leftover :: xs == Flatten(segs) + leftover && IsSplit(env, lanes, st, segs, leftover, st')
  {
    if ProcessAll(env, lanes, st, xs) == Accept(st') {
      var segs, leftover := AcceptedBlockSplits(env, lanes, st, xs);
    }
    if segs, leftover :| xs == Flatten(segs) + leftover && IsSplit(env, lanes, st, segs, leftover, st') {
      SplitBlockIsAccepted(env, lanes, st, segs, leftover, st');
    }
  }

  /** What the terminator is left with belongs to no lane. */
  lemma {:induction false} LeftoverMatchesNoLane<S, X>(env: Env<X>, lanes: seq<Lane<S, X>>, st: S,
                                                       segs: seq<seq<X>>, leftover: seq<X>, st': S, i: nat)
    requires IsSplit(env, lanes, st, segs, leftover, st') && i < |lanes|
    ensures NoneMatch(lanes[i], leftover)
    decreases |lanes|
  {
    if i == 0 {
      var rest := Flatten(segs[1..]) + leftover;
      forall j | 0 <= j < |leftover| ensures !lanes[0].matches(leftover[j]) {
        assert rest[|Flatten(segs[1..])| + j] == leftover[j];
      }
    } else {
      LeftoverMatchesNoLane(env, lanes[1..], VerifyAll(lanes[0], st, segs[0]).value, segs[1..], leftover, st', i - 1);
    }
  }

  ghost predicate SomeLaneMatches<S, X>(lanes: seq<Lane<S, X>>, x: X) {
    exists i :: 0 <= i < |lanes| && lanes[i].matches(x)
  }

  /** With a lane for every transaction, an accepted block leaves the terminator nothing: all of it has
      been verified, in block order. */
  lemma AcceptedBlockIsFullyVerified<S, X(!new)>(env: Env<X>, lanes: seq<Lane<S, X>>, st: S, xs: seq<X>)
    returns (segs: seq<seq<X>>)
    requires Canonical(env) && Standard(lanes)
    requires forall x :: SomeLaneMatches(lanes, x)
    requires ProcessAll(env, lanes, st, xs).Accept?
    ensures xs == Flatten(segs)
    ensures IsSplit(env, lanes, st, segs, [], ProcessAll(env, lanes, st, xs).state)
  {
    var leftover;
    segs, leftover := AcceptedBlockSplits(env, lanes, st, xs);
    if leftover != [] {
      assert SomeLaneMatches(lanes, leftover[0]);
      var i :| 0 <= i < |lanes| && lanes[i].matches(leftover[0]);
      LeftoverMatchesNoLane(env, lanes, st, segs, leftover, ProcessAll(env, lanes, st, xs).state, i);
      assert false;
    }
    assert Flatten(segs) + [] == Flatten(segs);
  }
}
