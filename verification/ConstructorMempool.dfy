/** A lane's mempool (blockbuster/lane_mempool.go): the priority-nonce index, plus a cache of the
    hashes of what it stores. */
module LaneMempool {
  import opened PriorityIndices
  import opened PriorityNonce
  import opened Lanes

  /** The index and the cache as values. */
  datatype MempoolState<T> = MempoolState(contents: Contents<T>, cache: set<string>)

  /** An insertion that the index takes is cached; if the transaction has no hash it is removed again,
      together with whatever it replaced. */
  function InsertStep<T>(cfg: Config<T>, hash: T -> Option<string>, m: MempoolState<T>, tx: T): MempoolState<T> {
    if !InsertOutcome(cfg, m.contents, tx).Inserted? then m
    else
      var c := AfterInsert(cfg, m.contents, tx);
      match hash(tx)
      case None => MempoolState(AfterRemove(cfg, c, tx), m.cache)
      case Some(h) => MempoolState(c, m.cache + {h})
  }

  /** A removal uncaches the hash of its argument, whether or not the index had it. */
  function RemoveStep<T>(cfg: Config<T>, hash: T -> Option<string>, m: MempoolState<T>, tx: T): MempoolState<T> {
    match RemoveOutcome(cfg, m.contents, tx)
    case RemoveErrSignatures => m
    case RemoveErrNoSigner => m
    case _ =>
      var c := AfterRemove(cfg, m.contents, tx);
      match hash(tx)
      case None => MempoolState(c, m.cache)
      case Some(h) => MempoolState(c, m.cache - {h})
  }

  datatype MempoolResult = Ok | IndexError | HashError

  class ConstructorMempool<T(!new)> {
    const index: PriorityNonceMempool<T>
    const hash: T -> Option<string>
    var txCache: set<string>

    ghost predicate Valid()
      reads this, index
    {
      index.Valid()
    }

    ghost function State(): MempoolState<T>
      reads this, index
    {
      MempoolState(index.contents, txCache)
    }

    constructor (cfg: Config<T>, hash: T -> Option<string>)
      ensures Valid() && fresh(index) && index.cfg == cfg && this.hash == hash && State() == MempoolState(map[], {})
    {
      index := new PriorityNonceMempool(cfg);
      this.hash := hash;
      txCache := {};
    }

    method Insert(tx: T) returns (r: MempoolResult)
      requires Valid()
      modifies this, index
      ensures Valid() && State() == InsertStep(index.cfg, hash, old(State()), tx)
      ensures r.Ok? <==> InsertOutcome(index.cfg, old(index.contents), tx).Inserted? && hash(tx).Some?
    {
      var inserted := index.Insert(tx);
      if !inserted.Inserted? {
        return IndexError;
      }
      if hash(tx).None? {
        var removed := Remove(tx);
        return HashError;
      }
      txCache := txCache + {hash(tx).value};
      return Ok;
    }

    method Remove(tx: T) returns (r: MempoolResult)
      requires Valid()
      modifies this, index
      ensures Valid() && State() == RemoveStep(index.cfg, hash, old(State()), tx)
      ensures r.Ok? <==> Signed(index.cfg, tx) && hash(tx).Some?
    {
      var removed := index.Remove(tx);
      if !removed.Removed? && !removed.ErrTxNotFound? {
        return IndexError;
      }
      if hash(tx).None? {
        return HashError;
      }
      txCache := txCache - {hash(tx).value};
      return Ok;
    }

    method Contains(tx: T) returns (found: bool)
      requires Valid()
      ensures found <==> IsCached(hash, State(), tx)
    {
      found := hash(tx).Some? && hash(tx).value in txCache;
    }
  }

  /** Whether removing a transaction from the lane returns no error. */
  predicate IsRemovable<T>(cfg: Config<T>, hash: T -> Option<string>, tx: T) {
    Signed(cfg, tx) && hash(tx).Some?
  }

  /** How many of the removals are attempted: they stop after the first one that fails. */
  function Attempts<T>(cfg: Config<T>, hash: T -> Option<string>, txs: seq<T>): (n: nat)
    ensures n <= |txs|
  {
    if txs == [] then 0 else if !IsRemovable(cfg, hash, txs[0]) then 1 else 1 + Attempts(cfg, hash, txs[1..])
  }

  function RemoveSteps<T>(cfg: Config<T>, hash: T -> Option<string>, m: MempoolState<T>, txs: seq<T>): MempoolState<T> {
    if txs == [] then m else RemoveStep(cfg, hash, RemoveSteps(cfg, hash, m, txs[..|txs| - 1]), txs[|txs| - 1])
  }

  /** Drops transactions from a lane after a proposal was prepared (blockbuster/utils/utils.go). One that
      cannot be encoded is removed from the index, but its error keeps those after it in the lane. */
  method RemoveTxsFromLane<T(!new)>(txs: seq<T>, lane: ConstructorMempool<T>) returns (ok: bool)
    requires lane.Valid()
    modifies lane, lane.index
    ensures lane.Valid()
    ensures lane.State() == RemoveSteps(lane.index.cfg, lane.hash, old(lane.State()), txs[..Attempts(lane.index.cfg, lane.hash, txs)])
    ensures ok <==> forall i :: 0 <= i < |txs| ==> IsRemovable(lane.index.cfg, lane.hash, txs[i])
  {
    hide RemoveStep;
    for i := 0 to |txs|
      invariant lane.Valid() && lane.State() == RemoveSteps(lane.index.cfg, lane.hash, old(lane.State()), txs[..i])
      invariant forall j :: 0 <= j < i ==> IsRemovable(lane.index.cfg, lane.hash, txs[j])
    {
      var r := lane.Remove(txs[i]);
      assert txs[..i + 1][..i] == txs[..i];
      if !r.Ok? {
        AttemptsStopAt(lane.index.cfg, lane.hash, txs, i);
        return false;
      }
    }
    AttemptsStopAt(lane.index.cfg, lane.hash, txs, |txs|);
    return true;
  }

  lemma {:induction false} AttemptsStopAt<T>(cfg: Config<T>, hash: T -> Option<string>, txs: seq<T>, n: nat)
    requires n <= |txs| && forall j :: 0 <= j < n ==> IsRemovable(cfg, hash, txs[j])
    requires n < |txs| ==> !IsRemovable(cfg, hash, txs[n])
    ensures Attempts(cfg, hash, txs) == if n < |txs| then n + 1 else n
  {
    if n > 0 {
      AttemptsStopAt(cfg, hash, txs[1..], n - 1);
    }
  }

  /** The index loses exactly what is stored under the ids of the removals attempted. */
  lemma {:induction false} RemovedByIds<T>(cfg: Config<T>, hash: T -> Option<string>, m: MempoolState<T>, txs: seq<T>)
    ensures forall id :: id in RemoveSteps(cfg, hash, m, txs).contents <==>
              id in m.contents && forall i :: 0 <= i < |txs| && Signed(cfg, txs[i]) ==> TxId(cfg, txs[i]) != id
  {
    if txs != [] {
      var front, last := txs[..|txs| - 1], txs[|txs| - 1];
      RemovedByIds(cfg, hash, m, front);
      var before := RemoveSteps(cfg, hash, m, front);
      forall id
        ensures id in RemoveStep(cfg, hash, before, last).contents <==>
                id in m.contents && forall i :: 0 <= i < |txs| && Signed(cfg, txs[i]) ==> TxId(cfg, txs[i]) != id
      {
        assert id in RemoveStep(cfg, hash, before, last).contents <==>
               id in before.contents && (Signed(cfg, last) ==> TxId(cfg, last) != id);
        assert forall i :: 0 <= i < |front| ==> front[i] == txs[i];
      }
    }
  }

  predicate IsCached<T>(hash: T -> Option<string>, m: MempoolState<T>, tx: T) {
    hash(tx).Some? && hash(tx).value in m.cache
  }

  /** Hashes identify transactions up to the id they are stored under. */
  ghost predicate HashFixesId<T(!new)>(cfg: Config<T>, hash: T -> Option<string>) {
    forall a, b {:trigger hash(a), hash(b)} :: Signed(cfg, a) && Signed(cfg, b) && hash(a).Some? && hash(a) == hash(b) ==>
      TxId(cfg, a) == TxId(cfg, b)
  }

  /** Every stored transaction is stored under its own id, and is cached: no false negatives. */
  ghost predicate AllCached<T>(cfg: Config<T>, hash: T -> Option<string>, m: MempoolState<T>) {
    forall id {:trigger m.contents[id]} :: id in m.contents ==>
      Signed(cfg, m.contents[id].tx) && TxId(cfg, m.contents[id].tx) == id && IsCached(hash, m, m.contents[id].tx)
  }

  /** The cache holds the hashes of the stored transactions and nothing else. */
  ghost predicate CacheIsExact<T>(cfg: Config<T>, hash: T -> Option<string>, m: MempoolState<T>) {
    && AllCached(cfg, hash, m)
    && forall h :: h in m.cache ==> StoredHash(hash, m.contents, h)
  }

  lemma InsertKeepsAllCached<T(!new)>(cfg: Config<T>, hash: T -> Option<string>, m: MempoolState<T>, tx: T)
    requires HashFixesId(cfg, hash) && AllCached(cfg, hash, m)
    ensures AllCached(cfg, hash, InsertStep(cfg, hash, m, tx))
  {
  }

  lemma RemoveKeepsAllCached<T(!new)>(cfg: Config<T>, hash: T -> Option<string>, m: MempoolState<T>, tx: T)
    requires HashFixesId(cfg, hash) && AllCached(cfg, hash, m)
    ensures AllCached(cfg, hash, RemoveStep(cfg, hash, m, tx))
  {
    var m' := RemoveStep(cfg, hash, m, tx);
    forall id | id in m'.contents
      ensures Signed(cfg, m'.contents[id].tx) && TxId(cfg, m'.contents[id].tx) == id && IsCached(hash, m', m'.contents[id].tx)
    {
      assert m'.contents[id] == m.contents[id];
      if Signed(cfg, tx) && hash(tx).Some? && hash(m.contents[id].tx) == hash(tx) {
        assert TxId(cfg, tx) == id;
      }
    }
  }

  /** A lane that takes a transaction stores it and finds it; after a removal without error it is neither
      stored nor found, whatever the cache held. */
  lemma TakenIsFound<T>(cfg: Config<T>, hash: T -> Option<string>, m: MempoolState<T>, tx: T)
    requires Signed(cfg, tx) && hash(tx).Some?
    ensures var m' := InsertStep(cfg, hash, m, tx);
            InsertOutcome(cfg, m.contents, tx).Inserted? ==>
              && hash(tx).value in m'.cache
              && (cfg.maxTx >= 0 ==> TxId(cfg, tx) in m'.contents && m'.contents[TxId(cfg, tx)].tx == tx)
    ensures var m' := RemoveStep(cfg, hash, m, tx);
            hash(tx).value !in m'.cache && TxId(cfg, tx) !in m'.contents
  {
  }

  datatype Op<T> = InsertOp(tx: T) | RemoveOp(tx: T)

  function Step<T>(cfg: Config<T>, hash: T -> Option<string>, m: MempoolState<T>, op: Op<T>): MempoolState<T> {
    match op
    case InsertOp(tx) => InsertStep(cfg, hash, m, tx)
    case RemoveOp(tx) => RemoveStep(cfg, hash, m, tx)
  }

  function Run<T>(cfg: Config<T>, hash: T -> Option<string>, m: MempoolState<T>, ops: seq<Op<T>>): MempoolState<T>
    decreases |ops|
  {
    if ops == [] then m else Run(cfg, hash, Step(cfg, hash, m, ops[0]), ops[1..])
  }

  /** Over any run, including encoder failures and negative capacities, no stored transaction is
      missing from the cache. */
  lemma {:induction false} NoFalseNegatives<T(!new)>(cfg: Config<T>, hash: T -> Option<string>, m: MempoolState<T>, ops: seq<Op<T>>)
    requires HashFixesId(cfg, hash) && AllCached(cfg, hash, m)
    ensures AllCached(cfg, hash, Run(cfg, hash, m, ops))
    decreases |ops|
  {
    if ops != [] {
      match ops[0]
      case InsertOp(tx) =>
        InsertKeepsAllCached(cfg, hash, m, tx);
        NoFalseNegatives(cfg, hash, InsertStep(cfg, hash, m, tx), ops[1..]);
      case RemoveOp(tx) =>
        RemoveKeepsAllCached(cfg, hash, m, tx);
        NoFalseNegatives(cfg, hash, RemoveStep(cfg, hash, m, tx), ops[1..]);
    }
  }

  // ---------------------------------------------------------------- exactness

  /** What is stored under the transaction's id, if anything, has its hash. */
  predicate HoldsSameHash<T>(cfg: Config<T>, hash: T -> Option<string>, m: MempoolState<T>, tx: T) {
    Signed(cfg, tx) && TxId(cfg, tx) in m.contents ==> hash(m.contents[TxId(cfg, tx)].tx) == hash(tx)
  }

  /** When a step keeps an exact cache exact. A removal, an insertion that the index takes, and one that
      is undone because the transaction has no hash, must displace no other bytes; an insertion that a
      negative cap makes the index ignore must not add a hash. */
  predicate KeepsExact<T>(cfg: Config<T>, hash: T -> Option<string>, m: MempoolState<T>, op: Op<T>) {
    match op
    case RemoveOp(tx) => HoldsSameHash(cfg, hash, m, tx)
    case InsertOp(tx) =>
      InsertOutcome(cfg, m.contents, tx).Inserted? ==>
        if cfg.maxTx < 0 && hash(tx).Some? then hash(tx).value in m.cache else HoldsSameHash(cfg, hash, m, tx)
  }

  ghost predicate StoredHash<T>(hash: T -> Option<string>, c: Contents<T>, h: string) {
    exists id :: id in c && hash(c[id].tx) == Some(h)
  }

  /** Taking one id out of an exactly cached content takes exactly its hash out. */
  lemma DropOne<T(!new)>(cfg: Config<T>, hash: T -> Option<string>, m: MempoolState<T>, id: Id)
    requires HashFixesId(cfg, hash) && AllCached(cfg, hash, m)
    ensures forall h :: StoredHash(hash, m.contents - {id}, h)
                   <==> StoredHash(hash, m.contents, h) && !(id in m.contents && hash(m.contents[id].tx) == Some(h))
  {
    var c := m.contents - {id};
    forall h
      ensures StoredHash(hash, c, h) <==> StoredHash(hash, m.contents, h) && !(id in m.contents && hash(m.contents[id].tx) == Some(h))
    {
      if other :| other in m.contents && hash(m.contents[other].tx) == Some(h) {
        if other != id {
          assert other in c && c[other] == m.contents[other];
        }
      }
      if other :| other in c && hash(c[other].tx) == Some(h) {
        assert c[other] == m.contents[other];
      }
    }
  }

  /** Putting a transaction under an id adds its hash and takes the hash stored there before out. */
  lemma PutOne<T(!new)>(cfg: Config<T>, hash: T -> Option<string>, m: MempoolState<T>, id: Id, e: Entry<T>)
    requires HashFixesId(cfg, hash) && AllCached(cfg, hash, m) && hash(e.tx).Some?
    ensures forall h :: StoredHash(hash, m.contents[id := e], h)
                   <==> h == hash(e.tx).value || StoredHash(hash, m.contents - {id}, h)
  {
    var c, d := m.contents[id := e], m.contents - {id};
    forall h ensures StoredHash(hash, c, h) <==> h == hash(e.tx).value || StoredHash(hash, d, h) {
      if h == hash(e.tx).value {
        assert c[id] == e;
      }
      if other :| other in c && hash(c[other].tx) == Some(h) {
        if other != id {
          assert other in d && d[other] == c[other];
        }
      }
      if other :| other in d && hash(d[other].tx) == Some(h) {
        assert other in c && c[other] == d[other];
      }
    }
  }

  /** A removal keeps the cache exact if and only if it displaces no other bytes. */
  lemma RemoveKeepsExactIff<T(!new)>(cfg: Config<T>, hash: T -> Option<string>, m: MempoolState<T>, tx: T)
    requires HashFixesId(cfg, hash) && CacheIsExact(cfg, hash, m)
    ensures CacheIsExact(cfg, hash, RemoveStep(cfg, hash, m, tx)) <==> KeepsExact(cfg, hash, m, RemoveOp(tx))
  {
    RemoveKeepsAllCached(cfg, hash, m, tx);
    if Signed(cfg, tx) {
      var id, m' := TxId(cfg, tx), RemoveStep(cfg, hash, m, tx);
      assert m'.contents == m.contents - {id};
      DropOne(cfg, hash, m, id);
      if id in m.contents {
        assert IsCached(hash, m, m.contents[id].tx);
        assert StoredHash(hash, m.contents, hash(m.contents[id].tx).value);
        assert !StoredHash(hash, m'.contents, hash(m.contents[id].tx).value);
      } else if hash(tx).Some? {
        NotStored(cfg, hash, m, tx);
      }
    }
  }

  /** An exact cache lacks the hash of a transaction whose id is free. */
  lemma NotStored<T(!new)>(cfg: Config<T>, hash: T -> Option<string>, m: MempoolState<T>, tx: T)
    requires HashFixesId(cfg, hash) && CacheIsExact(cfg, hash, m)
    requires Signed(cfg, tx) && TxId(cfg, tx) !in m.contents && hash(tx).Some?
    ensures hash(tx).value !in m.cache
  {
    forall other | other in m.contents ensures hash(m.contents[other].tx) != hash(tx) {
      assert TxId(cfg, m.contents[other].tx) == other;
    }
  }

  /** An insertion keeps the cache exact if and only if `KeepsExact` says so. */
  lemma InsertKeepsExactIff<T(!new)>(cfg: Config<T>, hash: T -> Option<string>, m: MempoolState<T>, tx: T)
    requires HashFixesId(cfg, hash) && CacheIsExact(cfg, hash, m)
    ensures CacheIsExact(cfg, hash, InsertStep(cfg, hash, m, tx)) <==> KeepsExact(cfg, hash, m, InsertOp(tx))
  {
    InsertKeepsAllCached(cfg, hash, m, tx);
    if InsertOutcome(cfg, m.contents, tx).Inserted? {
      var m' := InsertStep(cfg, hash, m, tx);
      if hash(tx).None? {
        InsertWithoutHash(cfg, hash, m, tx);
        RemoveKeepsExactIff(cfg, hash, m, tx);
      } else if cfg.maxTx >= 0 {
        var id := TxId(cfg, tx);
        var e := Entry(cfg.priorityOf(tx), cfg.zero, tx);
        PutOne(cfg, hash, m, id, e);
        DropOne(cfg, hash, m, id);
        if id in m.contents {
          assert IsCached(hash, m, m.contents[id].tx);
          assert StoredHash(hash, m.contents, hash(m.contents[id].tx).value);
        }
      } else if hash(tx).value in m.cache {
        assert m'.cache == m.cache;
      } else {
        assert hash(tx).value in m'.cache && !StoredHash(hash, m.contents, hash(tx).value);
      }
    }
  }

  /** A transaction without a hash leaves what removing it would have left. */
  lemma InsertWithoutHash<T>(cfg: Config<T>, hash: T -> Option<string>, m: MempoolState<T>, tx: T)
    requires InsertOutcome(cfg, m.contents, tx).Inserted? && hash(tx).None?
    ensures InsertStep(cfg, hash, m, tx) == RemoveStep(cfg, hash, m, tx)
  {
    if cfg.maxTx >= 0 {
      var id := TxId(cfg, tx);
      assert m.contents[id := Entry(cfg.priorityOf(tx), cfg.zero, tx)] - {id} == m.contents - {id};
      assert id !in m.contents ==> m.contents - {id} == m.contents;
    }
  }

  /** Every stored transaction and every operation's is one of `txs`. */
  ghost predicate Within<T>(m: MempoolState<T>, ops: seq<Op<T>>, txs: set<T>) {
    && (forall id :: id in m.contents ==> m.contents[id].tx in txs)
    && forall i :: 0 <= i < |ops| ==> ops[i].tx in txs
  }

  /** All transactions have hashes, and those with the same id have the same one. */
  ghost predicate OneHashPerId<T>(cfg: Config<T>, hash: T -> Option<string>, txs: set<T>) {
    && (forall tx :: tx in txs ==> hash(tx).Some?)
    && forall a, b {:trigger hash(a), hash(b)} ::
         a in txs && b in txs && Signed(cfg, a) && Signed(cfg, b) && TxId(cfg, a) == TxId(cfg, b) ==>
           hash(a) == hash(b)
  }

  /** On a run over transactions that all have hashes, one per id, the cache of a mempool without a
      negative cap is exact throughout. */
  lemma {:induction false} CacheIsExactOnCleanRuns<T(!new)>(cfg: Config<T>, hash: T -> Option<string>, m: MempoolState<T>,
                                                            ops: seq<Op<T>>, txs: set<T>)
    requires HashFixesId(cfg, hash) && CacheIsExact(cfg, hash, m) && Within(m, ops, txs)
    requires cfg.maxTx >= 0 && OneHashPerId(cfg, hash, txs)
    ensures CacheIsExact(cfg, hash, Run(cfg, hash, m, ops))
    decreases |ops|
  {
    if ops != [] {
      hide CacheIsExact, HashFixesId;
      StepStaysWithin(cfg, hash, m, ops, txs);
      assert HoldsSameHash(cfg, hash, m, ops[0].tx) by {
        CacheIsExactCaches(cfg, hash, m);
      }
      match ops[0]
      case InsertOp(tx) =>
        InsertKeepsExactIff(cfg, hash, m, tx);
        CacheIsExactOnCleanRuns(cfg, hash, InsertStep(cfg, hash, m, tx), ops[1..], txs);
      case RemoveOp(tx) =>
        RemoveKeepsExactIff(cfg, hash, m, tx);
        CacheIsExactOnCleanRuns(cfg, hash, RemoveStep(cfg, hash, m, tx), ops[1..], txs);
    }
  }

  lemma CacheIsExactCaches<T(!new)>(cfg: Config<T>, hash: T -> Option<string>, m: MempoolState<T>)
    requires CacheIsExact(cfg, hash, m)
    ensures AllCached(cfg, hash, m)
  {
  }

  lemma StepStaysWithin<T(!new)>(cfg: Config<T>, hash: T -> Option<string>, m: MempoolState<T>, ops: seq<Op<T>>, txs: set<T>)
    requires Within(m, ops, txs) && ops != []
    ensures Within(Step(cfg, hash, m, ops[0]), ops[1..], txs)
  {
    var m' := Step(cfg, hash, m, ops[0]);
    forall id | id in m'.contents ensures m'.contents[id].tx in txs {
      assert (id in m.contents && m'.contents[id] == m.contents[id]) || m'.contents[id].tx == ops[0].tx;
    }
  }
}
