/** Block proposals and their byte accounting (blockbuster/proposals.go, blockbuster/utils/utils.go,
    blockbuster/mempool.go, blockbuster/types.go). */
module Proposals {

  type Byte = x: int | 0 <= x < 256
  type Bytes = seq<Byte>

  /** A share of the block is a decimal with 18 fractional digits, held as an integer. */
  const ONE := 1_000_000_000_000_000_000

  /** Integer division that truncates toward zero. */
  function TruncDiv(a: int, b: int): int
    requires b > 0
  {
    if a >= 0 then a / b else -((-a) / b)
  }

  function SumLen(txs: seq<Bytes>): nat {
    if txs == [] then 0 else |txs[0]| + SumLen(txs[1..])
  }

  /** The most bytes a lane with the given share may add to a proposal. */
  function LaneLimit(maxTxBytes: int, totalTxBytes: int, share: int): int {
    if share == 0 then
      if maxTxBytes - totalTxBytes < 0 then 0 else maxTxBytes - totalTxBytes
    else TruncDiv(share * maxTxBytes, ONE)
  }

  /** Whether a proposal of `total` bytes takes the transactions of a lane. */
  predicate Fits(maxTxBytes: int, total: int, share: int, txs: seq<Bytes>) {
    txs == [] || (SumLen(txs) <= LaneLimit(maxTxBytes, total, share) && total + SumLen(txs) <= maxTxBytes)
  }

  lemma {:induction false} SumLenAppend(a: seq<Bytes>, b: seq<Bytes>)
    ensures SumLen(a + b) == SumLen(a) + SumLen(b)
  {
    if a == [] {
      assert a + b == b;
    } else {
      assert (a + b)[1..] == a[1..] + b;
      SumLenAppend(a[1..], b);
    }
  }

  function Hashes(hash: Bytes -> string, txs: seq<Bytes>): set<string> {
    set tx | tx in txs :: hash(tx)
  }

  lemma HashesAppend(hash: Bytes -> string, a: seq<Bytes>, b: seq<Bytes>)
    ensures Hashes(hash, a + b) == Hashes(hash, a) + Hashes(hash, b)
  {
  }

  class Proposal {
    const hash: Bytes -> string
    const maxTxBytes: int
    var txs: seq<Bytes>
    var cache: set<string>
    var totalTxBytes: int

    ghost predicate Valid()
      reads this
    {
      && totalTxBytes == SumLen(txs)
      && (txs == [] || totalTxBytes <= maxTxBytes)
      && cache == Hashes(hash, txs)
    }

    constructor (hash: Bytes -> string, maxTxBytes: int)
      ensures Valid() && txs == [] && this.hash == hash && this.maxTxBytes == maxTxBytes
    {
      this.hash, this.maxTxBytes := hash, maxTxBytes;
      txs, cache, totalTxBytes := [], {}, 0;
    }

    /** Takes all the transactions of a lane, or none of them. */
    method UpdateProposal(share: int, partial: seq<Bytes>) returns (ok: bool)
      requires Valid()
      modifies this
      ensures Valid()
      ensures ok <==> Fits(maxTxBytes, SumLen(old(txs)), share, partial)
      ensures txs == if ok then old(txs) + partial else old(txs)
    {
      if |partial| == 0 {
        assert txs + partial == txs;
        return true;
      }

      var size := 0;
      for i := 0 to |partial|
        invariant size == SumLen(partial[..i])
        invariant unchanged(this)
      {
        assert partial[..i + 1] == partial[..i] + [partial[i]];
        SumLenAppend(partial[..i], [partial[i]]);
        size := size + |partial[i]|;
      }
      assert partial[..|partial|] == partial;

      if size > LaneLimit(maxTxBytes, totalTxBytes, share) {
        return false;
      }
      var updatedSize := totalTxBytes + size;
      if updatedSize > maxTxBytes {
        return false;
      }
      totalTxBytes := updatedSize;
      SumLenAppend(txs, partial);
      txs := txs + partial;

      for i := 0 to |partial|
        invariant cache == old(cache) + Hashes(hash, partial[..i])
        invariant txs == old(txs) + partial && totalTxBytes == updatedSize
      {
        HashesAppend(hash, partial[..i], [partial[i]]);
        assert partial[..i + 1] == partial[..i] + [partial[i]];
        cache := cache + {hash(partial[i])};
      }
      assert partial[..|partial|] == partial;
      HashesAppend(hash, old(txs), partial);
      return true;
    }

    /** Membership, by hash. */
    method Contains(tx: Bytes) returns (found: bool)
      requires Valid()
      ensures found <==> hash(tx) in Hashes(hash, txs)
    {
      found := hash(tx) in cache;
    }
  }

  /** With a collision-free hash, looking up the hash is exactly membership. */
  lemma ContainsIsMembership(hash: Bytes -> string, txs: seq<Bytes>, tx: Bytes)
    requires forall a, b :: hash(a) == hash(b) ==> a == b
    ensures hash(tx) in Hashes(hash, txs) <==> tx in txs
  {
    if hash(tx) in Hashes(hash, txs) {
      var b :| b in txs && hash(b) == hash(tx);
      assert b == tx;
    }
  }

  // ---------------------------------------------------------------- reserved space

  function SumShares(shares: seq<int>): int {
    if shares == [] then 0 else shares[0] + SumShares(shares[1..])
  }

  /** The registry check on the lanes' shares: none is left over unless some lane is unlimited. */
  predicate ValidShares(shares: seq<int>) {
    SumShares(shares) == ONE || (SumShares(shares) < ONE && 0 in shares)
  }

  /** Shares that exceed the block are refused, and so are shares that leave some of it when no lane is
      unlimited; all others are accepted. */
  lemma RefusedShares(shares: seq<int>)
    ensures SumShares(shares) > ONE ==> !ValidShares(shares)
    ensures SumShares(shares) < ONE ==> (ValidShares(shares) <==> exists i :: 0 <= i < |shares| && shares[i] == 0)
    ensures SumShares(shares) == ONE ==> ValidShares(shares)
  {
  }

  /** The registry check, in the form of the loop that runs it. */
  method ValidateBasic(shares: seq<int>) returns (ok: bool)
    ensures ok <==> ValidShares(shares)
  {
    var sum := 0;
    var seenZero := false;
    for i := 0 to |shares|
      invariant sum == SumShares(shares[..i])
      invariant seenZero <==> 0 in shares[..i]
    {
      assert shares[..i + 1] == shares[..i] + [shares[i]];
      SumSharesAppend(shares[..i], [shares[i]]);
      if shares[i] == 0 {
        seenZero := true;
      }
      sum := sum + shares[i];
    }
    assert shares[..|shares|] == shares;
    if sum > ONE {
      return false;
    } else if sum < ONE && !seenZero {
      return false;
    }
    return true;
  }

  lemma {:induction false} SumSharesAppend(a: seq<int>, b: seq<int>)
    ensures SumShares(a + b) == SumShares(a) + SumShares(b)
  {
    if a == [] {
      assert a + b == b;
    } else {
      assert (a + b)[1..] == a[1..] + b;
      SumSharesAppend(a[1..], b);
    }
  }

  /** A truncated limit is at most its share of the block. */
  lemma LimitIsAtMostShare(maxTxBytes: nat, total: int, share: int)
    requires share > 0
    ensures LaneLimit(maxTxBytes, total, share) * ONE <= share * maxTxBytes
  {
    assert share * maxTxBytes >= 0;
    assert (share * maxTxBytes / ONE) * ONE <= share * maxTxBytes;
  }

  /** A positive share's limit is the whole number of bytes in it, and an unlimited lane's what is left. */
  lemma LimitIsTheFloor(maxTxBytes: nat, total: int, share: int)
    ensures share > 0 ==> LaneLimit(maxTxBytes, total, share) * ONE <= share * maxTxBytes < (LaneLimit(maxTxBytes, total, share) + 1) * ONE
    ensures share == 0 && total <= maxTxBytes ==> total + LaneLimit(maxTxBytes, total, share) == maxTxBytes
    ensures share == 0 && total > maxTxBytes ==> LaneLimit(maxTxBytes, total, share) == 0
  {
    if share > 0 {
      assert share * maxTxBytes >= 0;
      FloorDivision(share * maxTxBytes, ONE);
    }
  }

  lemma FloorDivision(a: nat, b: nat)
    requires b > 0
    ensures (a / b) * b <= a < (a / b + 1) * b
  {
  }

  lemma AddProducts(a: int, b: int, m: int)
    ensures (a + b) * m == a * m + b * m
  {
  }
}
