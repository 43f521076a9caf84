/** What holds of the priority-nonce mempool over whole runs of insertions, removals and iterations. */
module MempoolRuns {
  import opened PriorityIndices
  import opened GreedyMerge
  import opened IterationProof
  import opened PriorityNonce

  /** One operation: an insertion or a removal, whether it succeeds or not, or an iteration, which
      reorders some ties. */
  ghost predicate Step<T(!new)>(cfg: Config<T>, c: Contents<T>, c': Contents<T>) {
    || (exists tx :: c' == AfterInsert(cfg, c, tx))
    || (exists tx :: c' == AfterRemove(cfg, c, tx))
    || (exists q: Queues<T>, ids :: c' == Reweigh(q, c, ids))
  }

  /** The contents a mempool goes through, from empty. */
  ghost predicate IsRun<T(!new)>(cfg: Config<T>, run: seq<Contents<T>>) {
    && run != [] && run[0] == map[]
    && forall i :: 0 < i < |run| ==> Step(cfg, run[i - 1], run[i])
  }

  /** Within capacity; every transaction under the id of its first signature, with its own priority. */
  ghost predicate WellStored<T>(cfg: Config<T>, c: Contents<T>) {
    && (cfg.maxTx > 0 ==> Size(c) <= cfg.maxTx)
    && (cfg.maxTx < 0 ==> c == map[])
    && forall id :: id in c ==>
         Signed(cfg, c[id].tx) && TxId(cfg, c[id].tx) == id && c[id].priority == cfg.priorityOf(c[id].tx)
  }

  lemma PutAddsAtMostOne<T>(c: Contents<T>, id: Id, e: Entry<T>)
    ensures Size(c[id := e]) <= Size(c) + 1
  {
    assert c[id := e].Keys == c.Keys + {id};
  }

  lemma DropShrinks<T>(c: Contents<T>, id: Id)
    ensures Size(c - {id}) <= Size(c)
  {
    assert (c - {id}).Keys <= c.Keys;
    SubsetSize((c - {id}).Keys, c.Keys);
  }

  lemma ReweighKeepsSize<T>(q: Queues<T>, c: Contents<T>, ids: set<Id>)
    ensures Size(Reweigh(q, c, ids)) == Size(c)
  {
    assert Reweigh(q, c, ids).Keys == c.Keys;
  }

  lemma StepKeepsWellStored<T(!new)>(cfg: Config<T>, c: Contents<T>, c': Contents<T>)
    requires WellStored(cfg, c) && Step(cfg, c, c')
    ensures WellStored(cfg, c')
  {
    hide Size;
    if tx :| c' == AfterInsert(cfg, c, tx) {
      if c' != c {
        PutAddsAtMostOne(c, TxId(cfg, tx), Entry(cfg.priorityOf(tx), cfg.zero, tx));
      }
    } else if tx :| c' == AfterRemove(cfg, c, tx) {
      if c' != c {
        DropShrinks(c, TxId(cfg, tx));
      }
    } else {
      var q: Queues<T>, ids :| c' == Reweigh(q, c, ids);
      ReweighKeepsSize(q, c, ids);
      assert c == map[] ==> c' == map[];
    }
  }

  /** No run exceeds a positive capacity, a negative one admits nothing, and what is stored is stored
      under its own id with its own priority. */
  lemma {:induction false} RunsAreWellStored<T(!new)>(cfg: Config<T>, run: seq<Contents<T>>, i: nat)
    requires IsRun(cfg, run) && i < |run|
    ensures WellStored(cfg, run[i])
  {
    if i > 0 {
      RunsAreWellStored(cfg, run, i - 1);
      StepKeepsWellStored(cfg, run[i - 1], run[i]);
    } else {
      assert Size<T>(map[]) == 0;
    }
  }
}
