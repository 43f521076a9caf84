/** Who is paid for a winning bid (x/builder/keeper/msg_server.go): the proposer's truncated share and
    the rest to escrow, in 18-digit decimals, and what that means for balances over runs of bids. */
module BidSplit {
  import opened Integers
  import opened PriorityIndices
  import opened Proposals
  import opened Lanes
  import opened Sequences

  /** Balances in the bid's denomination. */
  type Balances = map<Address, int>

  /** `proposerFee` is a decimal with 18 fractional digits. */
  datatype FeeParams = FeeParams(proposerFee: int, escrow: Address, maxBundleSize: nat)

  datatype Payment = Payment(bidder: Option<Address>, amount: nat, rewards: Option<Address>, bundleSize: nat)

  function BalanceOf(b: Balances, who: Address): int {
    Get(b, who, 0)
  }

  function Sent(b: Balances, from: Address, to: Address, amount: int): Balances {
    var taken := b[from := BalanceOf(b, from) - amount];
    taken[to := BalanceOf(taken, to) + amount]
  }

  class Bank {
    var balances: Balances

    constructor (balances: Balances)
      ensures this.balances == balances
    {
      this.balances := balances;
    }

    method SendCoins(from: Address, to: Address, amount: int) returns (ok: bool)
      modifies this
      ensures ok <==> 0 <= amount <= BalanceOf(old(balances), from)
      ensures balances == if ok then Sent(old(balances), from, to, amount) else old(balances)
    {
      if amount < 0 || BalanceOf(balances, from) < amount {
        return false;
      }
      balances := balances[from := BalanceOf(balances, from) - amount];
      balances := balances[to := BalanceOf(balances, to) + amount];
      return true;
    }
  }

  /** A decimal product, truncated to 18 fractional digits. */
  function MulTruncate(a: int, b: int): int {
    TruncDiv(a * b, ONE)
  }

  function TruncateInt(a: int): int {
    TruncDiv(a, ONE)
  }

  /** The share: the integer part of the product of bid and fee. */
  function ProposerShare(amount: nat, fee: int): int {
    TruncateInt(MulTruncate(amount * ONE, fee))
  }

  function EscrowShare(amount: nat, fee: int): int {
    TruncateInt(amount * ONE - ProposerShare(amount, fee) * ONE)
  }

  lemma TruncDivOfMultiple(a: int)
    ensures TruncDiv(a * ONE, ONE) == a
  {
  }

  lemma MulAssociates(a: int, b: int, c: int)
    ensures (a * b) * c == (a * c) * b
  {
  }

  /** Nothing is lost to rounding: the proposer gets the floor of bid times fee, at most the bid, and
      escrow gets exactly the rest. */
  lemma SharesAddUp(amount: nat, fee: int)
    requires 0 <= fee <= ONE
    ensures var share := ProposerShare(amount, fee);
            && 0 <= share <= amount
            && share * ONE <= amount * fee < (share + 1) * ONE
            && EscrowShare(amount, fee) == amount - share
  {
    MulAssociates(amount, ONE, fee);
    TruncDivOfMultiple(amount * fee);
    assert MulTruncate(amount * ONE, fee) == amount * fee;
    var share := ProposerShare(amount, fee);
    assert 0 <= amount * fee <= amount * ONE by {
      ProductIsMonotone(amount, fee, ONE);
    }
    TruncDivOfMultiple(amount - share);
    assert (amount - share) * ONE == amount * ONE - share * ONE;
  }

  lemma ProductIsMonotone(a: nat, b: int, c: int)
    requires 0 <= b <= c
    ensures 0 <= a * b <= a * c
  {
  }

  /** Who gets the proposer's share: escrow, if there is no address to reward. */
  function RewardsAddress(p: FeeParams, pay: Payment): Address {
    if p.proposerFee == 0 || pay.rewards.None? then p.escrow else pay.rewards.value
  }

  /** The bidder can cover both transfers, made one after the other. */
  predicate Affordable(p: FeeParams, b: Balances, pay: Payment) {
    && pay.bidder.Some? && pay.bundleSize % TWO_TO_THE_32 <= p.maxBundleSize
    && var share := ProposerShare(pay.amount, p.proposerFee);
       var balance := BalanceOf(b, pay.bidder.value);
       balance >= if RewardsAddress(p, pay) == pay.bidder.value && p.proposerFee != 0
                  then (if share >= pay.amount - share then share else pay.amount - share) else pay.amount
  }

  /** What a successful bid does to an account, whichever of the three roles it has. */
  function NetEffect(p: FeeParams, pay: Payment, who: Address): int
    requires pay.bidder.Some?
  {
    var share := ProposerShare(pay.amount, p.proposerFee);
    (if who == RewardsAddress(p, pay) then share else 0)
    + (if who == p.escrow then pay.amount - share else 0)
    - (if who == pay.bidder.value then pay.amount else 0)
  }

  /** Every account's balance moves by the bid's effect on it. */
  ghost predicate Pays(p: FeeParams, pay: Payment, b: Balances, b': Balances)
    requires pay.bidder.Some?
  {
    forall who {:trigger BalanceOf(b', who)} :: BalanceOf(b', who) == BalanceOf(b, who) + NetEffect(p, pay, who)
  }

  /** The two transfers together, or the one of everything, pay the bid. */
  lemma TransfersPay(p: FeeParams, b: Balances, pay: Payment)
    requires pay.bidder.Some?
    ensures var share := ProposerShare(pay.amount, p.proposerFee);
            && Pays(p, pay, b, Sent(Sent(b, pay.bidder.value, RewardsAddress(p, pay), share),
                                    pay.bidder.value, p.escrow, pay.amount - share))
            && (share == 0 && RewardsAddress(p, pay) == p.escrow ==>
                  Pays(p, pay, b, Sent(b, pay.bidder.value, p.escrow, pay.amount)))
  {
    hide ProposerShare;
  }

  /** What the bidder has left after the proposer has been paid. */
  lemma BalanceAfterShare(b: Balances, from: Address, to: Address, amount: int)
    ensures BalanceOf(Sent(b, from, to, amount), from) == BalanceOf(b, from) - if from == to then 0 else amount
  {
  }

  /** Executes a bid. A failure may come after the proposer has been paid; the transaction that carries
      the message is then rolled back. */
  method AuctionBid(p: FeeParams, bank: Bank, pay: Payment) returns (ok: bool)
    requires 0 <= p.proposerFee <= ONE
    modifies bank
    ensures ok <==> Affordable(p, old(bank.balances), pay)
    ensures ok ==> Pays(p, pay, old(bank.balances), bank.balances)
    ensures !ok ==> || bank.balances == old(bank.balances)
                    || (pay.bidder.Some? && bank.balances == Sent(old(bank.balances), pay.bidder.value, RewardsAddress(p, pay),
                                                                  ProposerShare(pay.amount, p.proposerFee)))
  {
    hide ProposerShare, EscrowShare, Sent, Pays;
    SharesAddUp(pay.amount, p.proposerFee);
    if pay.bidder.None? {
      return false;
    }
    var bidder := pay.bidder.value;
    TransfersPay(p, bank.balances, pay);
    BalanceAfterShare(bank.balances, bidder, RewardsAddress(p, pay), ProposerShare(pay.amount, p.proposerFee));
    if pay.bundleSize % TWO_TO_THE_32 > p.maxBundleSize {
      return false;
    }
    if p.proposerFee == 0 {
      var sent := bank.SendCoins(bidder, p.escrow, pay.amount);
      return sent;
    }
    var rewardsAddress := if pay.rewards.None? then p.escrow else pay.rewards.value;
    var share := ProposerShare(pay.amount, p.proposerFee);
    var paid := bank.SendCoins(bidder, rewardsAddress, share);
    if !paid {
      return false;
    }
    var rest := EscrowShare(pay.amount, p.proposerFee);
    var escrowed := bank.SendCoins(bidder, p.escrow, rest);
    return escrowed;
  }

  /** With a fee and a rewards address, and three different accounts: the address gains the floor of bid
      times fee, escrow the rest, the bidder loses the bid, no other account changes, and the bidder's
      balance decides whether the bid can be paid. */
  lemma EachGetsItsShare(p: FeeParams, b: Balances, pay: Payment, who: Address)
    requires 0 < p.proposerFee <= ONE && pay.bidder.Some? && pay.rewards.Some?
    requires pay.bidder.value != pay.rewards.value && pay.bidder.value != p.escrow && pay.rewards.value != p.escrow
    ensures Affordable(p, b, pay) <==>
              pay.bundleSize % TWO_TO_THE_32 <= p.maxBundleSize && BalanceOf(b, pay.bidder.value) >= pay.amount
    ensures var share := NetEffect(p, pay, pay.rewards.value);
            && share * ONE <= pay.amount * p.proposerFee < (share + 1) * ONE
            && NetEffect(p, pay, p.escrow) == pay.amount - share
    ensures NetEffect(p, pay, pay.bidder.value) + pay.amount == 0
    ensures who !in {pay.bidder.value, pay.rewards.value, p.escrow} ==> NetEffect(p, pay, who) == 0
  {
    SharesAddUp(pay.amount, p.proposerFee);
    hide ProposerShare, EscrowShare;
  }

  /** A bidder who is rewarded for the own bid must cover the larger share only; one who is the escrow
      account, all of it. */
  lemma CoincidingRoles(p: FeeParams, b: Balances, pay: Payment)
    requires 0 < p.proposerFee <= ONE && pay.bidder.Some? && pay.rewards.Some?
    requires pay.bundleSize % TWO_TO_THE_32 <= p.maxBundleSize
    ensures var share, balance := ProposerShare(pay.amount, p.proposerFee), BalanceOf(b, pay.bidder.value);
            && (pay.rewards.value == pay.bidder.value ==> (Affordable(p, b, pay) <==> balance >= share && balance >= pay.amount - share))
            && (pay.rewards.value != pay.bidder.value ==> (Affordable(p, b, pay) <==> balance >= pay.amount))
  {
    hide ProposerShare;
  }

  // ---------------------------------------------------------------- runs of bids

  function SumOf(b: Balances, accounts: seq<Address>): int {
    if accounts == [] then 0 else BalanceOf(b, accounts[0]) + SumOf(b, accounts[1..])
  }

  function Effects(p: FeeParams, pay: Payment, accounts: seq<Address>): int
    requires pay.bidder.Some?
  {
    if accounts == [] then 0 else NetEffect(p, pay, accounts[0]) + Effects(p, pay, accounts[1..])
  }

  function At(who: Address, amount: int, accounts: seq<Address>): int {
    if who in accounts then amount else 0
  }

  /** Over distinct accounts, each role counts once. */
  lemma {:induction false} EffectsByRole(p: FeeParams, pay: Payment, accounts: seq<Address>)
    requires pay.bidder.Some? && Distinct(accounts)
    ensures var share := ProposerShare(pay.amount, p.proposerFee);
            Effects(p, pay, accounts)
            == At(RewardsAddress(p, pay), share, accounts) + At(p.escrow, pay.amount - share, accounts)
               - At(pay.bidder.value, pay.amount, accounts)
  {
    if accounts != [] {
      hide ProposerShare, RewardsAddress;
      EffectsByRole(p, pay, accounts[1..]);
      assert accounts == [accounts[0]] + accounts[1..];
      forall i | 0 <= i < |accounts[1..]| ensures accounts[1..][i] != accounts[0] {
        assert accounts[i + 1] != accounts[0];
      }
    }
  }

  lemma {:induction false} SumMovesByEffects(p: FeeParams, pay: Payment, b: Balances, b': Balances, accounts: seq<Address>)
    requires pay.bidder.Some?
    requires Pays(p, pay, b, b')
    ensures SumOf(b', accounts) == SumOf(b, accounts) + Effects(p, pay, accounts)
  {
    if accounts != [] {
      SumMovesByEffects(p, pay, b, b', accounts[1..]);
    }
  }

  /** The states a chain goes through: a bid that fails is rolled back. */
  ghost predicate IsBidRun(p: FeeParams, bs: seq<Balances>, pays: seq<Payment>) {
    && |bs| == |pays| + 1
    && forall i {:trigger pays[i]} :: 0 <= i < |pays| ==> BidStep(p, bs, pays, i)
  }

  ghost predicate BidStep(p: FeeParams, bs: seq<Balances>, pays: seq<Payment>, i: nat)
    requires i < |pays| && |bs| == |pays| + 1
  {
    if Affordable(p, bs[i], pays[i])
    then Pays(p, pays[i], bs[i], bs[i + 1])
    else bs[i + 1] == bs[i]
  }

  /** The sum of the first `n` bids that succeed. */
  function Paid(p: FeeParams, bs: seq<Balances>, pays: seq<Payment>, n: nat): nat
    requires |bs| == |pays| + 1 && n <= |pays|
  {
    if n == 0 then 0
    else Paid(p, bs, pays, n - 1) + if Affordable(p, bs[n - 1], pays[n - 1]) then pays[n - 1].amount else 0
  }

  /** The accounts include everyone a payment can reach. */
  ghost predicate Involves(p: FeeParams, pay: Payment, accounts: seq<Address>) {
    && p.escrow in accounts && RewardsAddress(p, pay) in accounts
    && (pay.bidder.Some? ==> pay.bidder.value in accounts)
  }

  /** Both shares of a payment go to the recipients, and the bidder is not one of them. */
  ghost predicate GoesTo(p: FeeParams, pay: Payment, recipients: seq<Address>) {
    && p.escrow in recipients && RewardsAddress(p, pay) in recipients
    && (pay.bidder.Some? ==> pay.bidder.value !in recipients)
  }

  /** Over any run of bids the total of all accounts involved is conserved. */
  lemma {:induction false} TotalIsConserved(p: FeeParams, bs: seq<Balances>, pays: seq<Payment>, accounts: seq<Address>, n: nat)
    requires IsBidRun(p, bs, pays) && Distinct(accounts) && n <= |pays|
    requires forall i :: 0 <= i < n ==> Involves(p, pays[i], accounts)
    ensures SumOf(bs[n], accounts) == SumOf(bs[0], accounts)
  {
    if n > 0 {
      TotalIsConserved(p, bs, pays, accounts, n - 1);
      var pay := pays[n - 1];
      assert BidStep(p, bs, pays, n - 1);
      if Affordable(p, bs[n - 1], pay) {
        hide ProposerShare, Pays;
        SumMovesByEffects(p, pay, bs[n - 1], bs[n], accounts);
        EffectsByRole(p, pay, accounts);
      }
    }
  }

  /** Recipients that never bid gain exactly the sum of the successful bids: no part of a bid is left
      with its bidder, and none is paid twice. */
  lemma {:induction false} RecipientsGainTheBids(p: FeeParams, bs: seq<Balances>, pays: seq<Payment>, recipients: seq<Address>, n: nat)
    requires IsBidRun(p, bs, pays) && Distinct(recipients) && n <= |pays|
    requires forall i :: 0 <= i < n ==> GoesTo(p, pays[i], recipients)
    ensures SumOf(bs[n], recipients) == SumOf(bs[0], recipients) + Paid(p, bs, pays, n)
  {
    if n > 0 {
      RecipientsGainTheBids(p, bs, pays, recipients, n - 1);
      var pay := pays[n - 1];
      assert BidStep(p, bs, pays, n - 1);
      if Affordable(p, bs[n - 1], pay) {
        hide ProposerShare, Pays;
        SumMovesByEffects(p, pay, bs[n - 1], bs[n], recipients);
        EffectsByRole(p, pay, recipients);
      }
    }
  }

  /** Without a rewards address, or without a fee, escrow gets all of a bid. */
  lemma EscrowIsTheFallback(p: FeeParams, pay: Payment)
    requires pay.bidder.Some? && pay.bidder.value != p.escrow
    requires pay.rewards.None? || p.proposerFee == 0
    ensures NetEffect(p, pay, p.escrow) == pay.amount
  {
  }
}
