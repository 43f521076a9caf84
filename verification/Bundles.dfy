/** Front-running protection: which bundles of signer sets the builder keeper accepts
    (x/builder/keeper/auction.go). */
module Bundles {
  import opened PriorityIndices

  /** The signers of one bundled transaction: a Go map, shared by reference. */
  class SignerSet {
    var signers: set<Address>

    constructor (signers: set<Address>)
      ensures this.signers == signers
    {
      this.signers := signers;
    }
  }

  /** Some account signed all of the first `k` transactions. */
  ghost predicate ShareSigner(bundle: seq<set<Address>>, k: nat)
    requires k <= |bundle|
  {
    exists a: Address :: SignsFirst(bundle, k, a)
  }

  ghost predicate SignsFirst(bundle: seq<set<Address>>, k: nat, a: Address)
    requires k <= |bundle|
  {
    forall i :: 0 <= i < k ==> a in bundle[i]
  }

  /** The bidder signed every transaction from position `k` on. */
  ghost predicate BidderSignsFrom(bidder: Address, bundle: seq<set<Address>>, k: nat) {
    forall i :: k <= i < |bundle| ==> bidder in bundle[i]
  }

  /** The first `k` transactions share a signer, and the bidder signed the others. A single
      transaction counts as sharing a signer even when nobody signed it. */
  ghost predicate HandsOverAt(bidder: Address, bundle: seq<set<Address>>, k: nat)
    requires 1 <= k <= |bundle|
  {
    (k == 1 || ShareSigner(bundle, k)) && BidderSignsFrom(bidder, bundle, k)
  }

  /** The bundles that pass: up to one transaction, a common signer of all, or a handover to a bidder
      who has not signed the first transaction. */
  ghost predicate IsFairBundle(bidder: Address, bundle: seq<set<Address>>) {
    || |bundle| <= 1
    || ShareSigner(bundle, |bundle|)
    || (bidder !in bundle[0] && exists k :: 1 <= k < |bundle| && HandsOverAt(bidder, bundle, k))
  }

  /** Keeps the signers that also signed the other transaction, deleting the rest one by one. */
  method FilterSigners(current: SignerSet, tx: SignerSet)
    modifies current
    ensures current.signers == old(current.signers) * old(tx.signers)
  {
    var pending := current.signers;
    while exists a :: a in pending
      invariant pending <= current.signers <= old(current.signers)
      invariant current != tx ==> tx.signers == old(tx.signers)
      invariant forall a :: a in old(current.signers) && a !in pending ==> (a in current.signers <==> a in old(tx.signers))
      invariant current == tx ==> current.signers == old(current.signers)
      decreases pending
    {
      var a :| a in pending;
      pending := pending - {a};
      if a !in tx.signers {
        current.signers := current.signers - {a};
      }
    }
    assert forall a :: a in current.signers <==> a in old(current.signers) * old(tx.signers);
  }

  ghost function Signers(bundle: seq<SignerSet>): (s: seq<set<Address>>)
    reads bundle
    ensures |s| == |bundle| && forall i :: 0 <= i < |s| ==> s[i] == bundle[i].signers
  {
    seq(|bundle|, i requires 0 <= i < |bundle| reads bundle => bundle[i].signers)
  }

  /** The accounts that signed all of the first `k` transactions. */
  ghost function CommonSigners(bundle: seq<set<Address>>, k: nat): (s: set<Address>)
    requires 1 <= k <= |bundle|
    ensures forall a :: a in s <==> SignsFirst(bundle, k, a)
  {
    if k == 1 then bundle[0] else CommonSigners(bundle, k - 1) * bundle[k - 1]
  }

  lemma OneMoreSigner(bundle: seq<set<Address>>, k: nat)
    requires k < |bundle|
    ensures CommonSigners(bundle, k + 1) == if k == 0 then bundle[0] else CommonSigners(bundle, k) * bundle[k]
  {
  }

  lemma Member<T>(s: set<T>) returns (x: T)
    requires s != {}
    ensures x in s
  {
    x :| x in s;
  }

  /** When nobody signed all of the first `n + 1` transactions, and the bidder signed the first one or
      missed the transaction at `n` or an earlier one after the handover, the bundle is not fair. */
  lemma BrokenBundle(bidder: Address, bundle: seq<set<Address>>, n: nat, k: nat)
    requires 1 <= k <= n < |bundle| && CommonSigners(bundle, k + 1) == {}
    requires bidder in bundle[0] || bidder !in bundle[n]
    ensures !IsFairBundle(bidder, bundle)
  {
    forall m | k < m <= |bundle| ensures !ShareSigner(bundle, m) {
      forall a: Address ensures !SignsFirst(bundle, m, a) {
        assert a !in CommonSigners(bundle, k + 1);
      }
    }
  }

  lemma FairSoFar(bidder: Address, bundle: seq<set<Address>>, k: nat)
    requires 1 <= k <= |bundle|
    requires CommonSigners(bundle, k) != {} || k == 1
    requires k < |bundle| ==> bidder !in bundle[0] && BidderSignsFrom(bidder, bundle, k)
    ensures IsFairBundle(bidder, bundle)
  {
    if CommonSigners(bundle, k) != {} {
      var a := Member(CommonSigners(bundle, k));
      assert SignsFirst(bundle, k, a);
    }
    if k < |bundle| {
      assert HandsOverAt(bidder, bundle, k);
    }
  }

  /** The pass after `n` transactions: `prev` are the signers all of the first `k` share; before the
      handover to the bidder `k` is `n`, after it `prev` is the bidder alone. */
  ghost predicate Narrowed(bidder: Address, bundle: seq<set<Address>>, n: nat, k: nat, handedOver: bool, prev: set<Address>, seenBidder: bool)
    requires 1 <= k <= n <= |bundle|
  {
    && (CommonSigners(bundle, k) != {} || k == 1)
    && if handedOver
       then && k < n && prev == {bidder} && seenBidder && bidder !in bundle[0]
            && CommonSigners(bundle, k + 1) == {}
            && forall i :: k <= i < n ==> bidder in bundle[i]
       else k == n && prev == CommonSigners(bundle, n) && (seenBidder <==> bidder in bundle[0])
  }

  /** One step of the pass, in its three outcomes: it narrows, hands over, or fails. */
  lemma NarrowOne(bidder: Address, bundle: seq<set<Address>>, n: nat, k: nat, handedOver: bool, prev: set<Address>, seenBidder: bool)
    requires 1 <= k <= n < |bundle| && Narrowed(bidder, bundle, n, k, handedOver, prev, seenBidder)
    ensures var kept, bidderOnly := prev * bundle[n], {bidder} * bundle[n];
            if kept != {} then Narrowed(bidder, bundle, n + 1, if handedOver then k else n + 1, handedOver, kept, seenBidder)
            else if seenBidder || bidderOnly == {} then !IsFairBundle(bidder, bundle)
            else Narrowed(bidder, bundle, n + 1, k, true, bidderOnly, true)
  {
    hide SignsFirst, CommonSigners, IsFairBundle;
    OneMoreSigner(bundle, n);
    var kept, bidderOnly := prev * bundle[n], {bidder} * bundle[n];
    assert bidder in bundle[n] ==> bidderOnly == {bidder};
    assert bidder !in bundle[n] ==> bidderOnly == {};
    if kept == {} && (seenBidder || bidderOnly == {}) {
      BrokenBundle(bidder, bundle, n, k);
    }
  }

  lemma NarrowedToTheEnd(bidder: Address, bundle: seq<set<Address>>, k: nat, handedOver: bool, prev: set<Address>, seenBidder: bool)
    requires 1 <= k <= |bundle| && Narrowed(bidder, bundle, |bundle|, k, handedOver, prev, seenBidder)
    ensures IsFairBundle(bidder, bundle)
  {
    hide SignsFirst, CommonSigners, IsFairBundle;
    FairSoFar(bidder, bundle, k);
  }

  lemma NothingNarrowed(bidder: Address, bundle: seq<set<Address>>)
    requires bundle != []
    ensures Narrowed(bidder, bundle, 1, 1, false, bundle[0], bidder in bundle[0])
  {
  }

  /** The keeper's single pass, which narrows the first transaction's own signer map down as it goes. */
  method ValidateAuctionBundle(bidder: Address, bundle: seq<SignerSet>) returns (ok: bool)
    requires forall i :: 0 < i < |bundle| ==> bundle[i] != bundle[0]
    modifies if bundle == [] then {} else {bundle[0]}
    ensures ok <==> IsFairBundle(bidder, old(Signers(bundle)))
    ensures bundle != [] ==> bundle[0].signers <= old(bundle[0].signers)
  {
    if |bundle| <= 1 {
      return true;
    }
    ghost var given := Signers(bundle);
    hide IsFairBundle, Narrowed, Signers;
    NothingNarrowed(bidder, given);
    var prev := bundle[0];
    var seenBidder := bidder in prev.signers;
    ghost var k, handedOver := 1, false;
    for n := 1 to |bundle|
      invariant 1 <= k <= n && Narrowed(bidder, given, n, k, handedOver, prev.signers, seenBidder)
      invariant forall i :: 0 < i < |bundle| ==> bundle[i].signers == given[i]
      invariant bundle[0].signers <= given[0]
      invariant if handedOver then fresh(prev) else prev == bundle[0]
    {
      NarrowOne(bidder, given, n, k, handedOver, prev.signers, seenBidder);
      FilterSigners(prev, bundle[n]);
      if |prev.signers| == 0 {
        if seenBidder {
          return false;
        }
        seenBidder := true;
        prev := new SignerSet({bidder});
        handedOver := true;
        FilterSigners(prev, bundle[n]);
        if |prev.signers| == 0 {
          return false;
        }
      } else if !handedOver {
        k := n + 1;
      }
    }
    NarrowedToTheEnd(bidder, given, k, handedOver, prev.signers, seenBidder);
    return true;
  }

  // ---------------------------------------------------------------- the documented rule

  /** The rule as documented: an initial part with a common signer, the rest signed by the bidder. */
  ghost predicate DocumentedRule(bidder: Address, bundle: seq<set<Address>>) {
    |bundle| <= 1 || exists k :: 1 <= k <= |bundle| && ShareSigner(bundle, k) && BidderSignsFrom(bidder, bundle, k)
  }

  /** On bundles of signed transactions, the code is the documented rule, except that it refuses a
      handover to a bidder who signed the first transaction, however the bundle goes on. */
  lemma FairIffDocumentedAndNotSeen(bidder: Address, bundle: seq<set<Address>>)
    requires forall i :: 0 <= i < |bundle| ==> bundle[i] != {}
    ensures IsFairBundle(bidder, bundle) <==>
            && DocumentedRule(bidder, bundle)
            && (|bundle| <= 1 || ShareSigner(bundle, |bundle|) || bidder !in bundle[0])
  {
    if |bundle| > 1 {
      var a := Member(bundle[0]);
      assert SignsFirst(bundle, 1, a);
      forall k | 1 <= k < |bundle| && ShareSigner(bundle, k) && BidderSignsFrom(bidder, bundle, k)
        ensures HandsOverAt(bidder, bundle, k)
      {
      }
    }
  }

  /** A bundle whose first transaction nobody signed passes exactly when the bidder signed all the others. */
  lemma UnsignedFirst(bidder: Address, bundle: seq<set<Address>>)
    requires |bundle| > 1 && bundle[0] == {}
    ensures IsFairBundle(bidder, bundle) <==> forall i :: 1 <= i < |bundle| ==> bidder in bundle[i]
  {
    forall a: Address, k | 1 <= k <= |bundle| ensures !SignsFirst(bundle, k, a) {
      assert a !in bundle[0];
    }
    if forall i :: 1 <= i < |bundle| ==> bidder in bundle[i] {
      assert HandsOverAt(bidder, bundle, 1);
    }
  }

  /** The difference is real: here the first two transactions share a signer and the bidder signed the
      third, but the bidder also signed the first, and the bundle is refused. */
  lemma DocumentedButRefused()
    ensures DocumentedRule(0, [{0, 1}, {1}, {0}]) && !IsFairBundle(0, [{0, 1}, {1}, {0}])
  {
    var bundle: seq<set<Address>> := [{0, 1}, {1}, {0}];
    assert SignsFirst(bundle, 2, 1);
    assert BidderSignsFrom(0, bundle, 2);
    forall a: Address ensures !SignsFirst(bundle, 3, a) {
      assert a in bundle[1] && a in bundle[2] ==> a == 1 && a == 0;
    }
  }
}
