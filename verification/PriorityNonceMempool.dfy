/** The priority-nonce mempool and its iterator (blockbuster/priority_nonce.go). */
module PriorityNonce {
  import opened SkipList
  import opened PriorityIndices
  import opened GreedyMerge
  import opened IterationProof

  datatype Signer = Signer(sender: Address, sequence: nat)

  /** What a transaction answers when asked for its signatures. */
  datatype Signatures = SignaturesError | Signatures(signers: seq<Signer>)

  datatype Replacement<!T> = AlwaysReplace | ReplaceIf(rule: (int, int, T, T) -> bool)

  /** `zero` is the zero value of the priority type: the weight of a key that no iteration has
      reordered yet. */
  datatype Config<!T> = Config(
    signatures: T -> Signatures,
    priorityOf: T -> int,
    minValue: int,
    zero: int,
    replacement: Replacement<T>,
    maxTx: int)

  datatype InsertResult = Inserted | ErrMaxCapacity | ErrSignatures | ErrNoSigner | ErrReplacement

  datatype RemoveResult = Removed | RemoveErrSignatures | RemoveErrNoSigner | ErrTxNotFound

  type Contents<T> = map<Id, Entry<T>>

  /** Insertion is refused at capacity, even of a replacement; a negative cap ignores it. */
  function InsertOutcome<T>(cfg: Config<T>, c: Contents<T>, tx: T): InsertResult {
    if cfg.maxTx > 0 && Size(c) >= cfg.maxTx then ErrMaxCapacity
    else if cfg.maxTx < 0 then Inserted
    else match cfg.signatures(tx)
      case SignaturesError => ErrSignatures
      case Signatures(signers) =>
        if signers == [] then ErrNoSigner
        else
          var id := Id(signers[0].sender, signers[0].sequence);
          if id in c && cfg.replacement.ReplaceIf?
             && !cfg.replacement.rule(c[id].priority, cfg.priorityOf(tx), c[id].tx, tx)
          then ErrReplacement
          else Inserted
  }

  /** The id a transaction is stored under: its first signature's sender and sequence. */
  function TxId<T>(cfg: Config<T>, tx: T): Id
    requires cfg.signatures(tx).Signatures? && cfg.signatures(tx).signers != []
  {
    var signer := cfg.signatures(tx).signers[0];
    Id(signer.sender, signer.sequence)
  }

  predicate Signed<T>(cfg: Config<T>, tx: T) {
    cfg.signatures(tx).Signatures? && cfg.signatures(tx).signers != []
  }

  function AfterInsert<T>(cfg: Config<T>, c: Contents<T>, tx: T): Contents<T> {
    if InsertOutcome(cfg, c, tx).Inserted? && cfg.maxTx >= 0
    then c[TxId(cfg, tx) := Entry(cfg.priorityOf(tx), cfg.zero, tx)]
    else c
  }

  function RemoveOutcome<T>(cfg: Config<T>, c: Contents<T>, tx: T): RemoveResult {
    match cfg.signatures(tx)
    case SignaturesError => RemoveErrSignatures
    case Signatures(signers) =>
      if signers == [] then RemoveErrNoSigner
      else if Id(signers[0].sender, signers[0].sequence) !in c then ErrTxNotFound
      else Removed
  }

  function AfterRemove<T>(cfg: Config<T>, c: Contents<T>, tx: T): Contents<T> {
    if RemoveOutcome(cfg, c, tx).Removed? then c - {TxId(cfg, tx)} else c
  }

  /** Which insertions are refused, and why: at capacity whatever the transaction is; otherwise, unless a
      negative cap ignores everything, one that cannot show a signer, or that the replacement rule refuses
      in place of what is stored under its id. All others are inserted. */
  lemma InsertedUnless<T>(cfg: Config<T>, c: Contents<T>, tx: T)
    ensures InsertOutcome(cfg, c, tx).ErrMaxCapacity? <==> cfg.maxTx > 0 && |c| >= cfg.maxTx
    ensures var below, sigs := cfg.maxTx == 0 || |c| < cfg.maxTx, cfg.signatures(tx);
            && (InsertOutcome(cfg, c, tx).ErrSignatures? <==> below && sigs.SignaturesError?)
            && (InsertOutcome(cfg, c, tx).ErrNoSigner? <==> below && sigs.Signatures? && sigs.signers == [])
            && (InsertOutcome(cfg, c, tx).ErrReplacement? <==>
                  && below && sigs.Signatures? && sigs.signers != []
                  && var id := Id(sigs.signers[0].sender, sigs.signers[0].sequence);
                     && id in c && cfg.replacement.ReplaceIf?
                     && !cfg.replacement.rule(c[id].priority, cfg.priorityOf(tx), c[id].tx, tx))
  {
  }

  /** Below capacity, or without one, a signed transaction with a free id is inserted, and so is any signed
      transaction if there is no replacement rule; it is then stored under its id, and nothing else changes. */
  lemma InsertedIsStored<T>(cfg: Config<T>, c: Contents<T>, tx: T, sender: Address, sequence: nat, rest: seq<Signer>)
    requires cfg.maxTx == 0 || |c| < cfg.maxTx
    requires cfg.signatures(tx) == Signatures([Signer(sender, sequence)] + rest)
    requires Id(sender, sequence) !in c || cfg.replacement.AlwaysReplace?
    ensures InsertOutcome(cfg, c, tx).Inserted?
    ensures var c', id := AfterInsert(cfg, c, tx), Id(sender, sequence);
            && id in c' && c'[id].tx == tx && c'[id].priority == cfg.priorityOf(tx) && c'[id].weight == cfg.zero
            && c' - {id} == c - {id}
  {
  }

  /** Removing finds exactly the transaction stored under the id, and takes out nothing else. */
  lemma RemovedIsGone<T>(cfg: Config<T>, c: Contents<T>, tx: T, sender: Address, sequence: nat, rest: seq<Signer>)
    requires cfg.signatures(tx) == Signatures([Signer(sender, sequence)] + rest)
    ensures RemoveOutcome(cfg, c, tx) == if Id(sender, sequence) in c then Removed else ErrTxNotFound
    ensures AfterRemove(cfg, c, tx).Keys == c.Keys - {Id(sender, sequence)}
    ensures forall id :: id in AfterRemove(cfg, c, tx) ==> AfterRemove(cfg, c, tx)[id] == c[id]
  {
    assert Id(sender, sequence) !in c ==> c.Keys - {Id(sender, sequence)} == c.Keys;
  }

  class PriorityNonceMempool<T(!new)> {
    const cfg: Config<T>
    var priorityIndex: seq<Node<PriorityKey, T>>
    var priorityCounts: map<int, int>
    var senderIndices: Queues<T>
    var scores: map<Id, Score>

    /** The transactions the four indices describe. */
    ghost var contents: Contents<T>

    ghost predicate Valid()
      reads this
    {
      Consistent(priorityIndex, priorityCounts, senderIndices, scores, contents)
    }

    constructor (cfg: Config<T>)
      ensures Valid() && this.cfg == cfg && contents == map[]
    {
      this.cfg := cfg;
      priorityIndex, priorityCounts, senderIndices, scores := [], map[], map[], map[];
      contents := map[];
    }

    method CountTx() returns (n: nat)
      requires Valid()
      ensures n == Size(contents)
    {
      PriorityIndexSize(priorityIndex, contents);
      n := |priorityIndex|;
    }

    method Insert(tx: T) returns (r: InsertResult)
      requires Valid()
      modifies this
      ensures Valid()
      ensures r == InsertOutcome(cfg, old(contents), tx)
      ensures contents == AfterInsert(cfg, old(contents), tx)
    {
      hide Consistent, Size;
      ConsistentScores(priorityIndex, priorityCounts, senderIndices, scores, contents);
      var n := CountTx();
      if cfg.maxTx > 0 && n >= cfg.maxTx {
        return ErrMaxCapacity;
      } else if cfg.maxTx < 0 {
        return Inserted;
      }

      var sigs := cfg.signatures(tx);
      if sigs.SignaturesError? {
        return ErrSignatures;
      }
      if |sigs.signers| == 0 {
        return ErrNoSigner;
      }

      var id := Id(sigs.signers[0].sender, sigs.signers[0].sequence);
      var priority := cfg.priorityOf(tx);
      var senderIndex := Get(senderIndices, id.sender, []);

      if id in scores {
        if cfg.replacement.ReplaceIf? {
          var oldTx := OldTx(id);
          if !cfg.replacement.rule(scores[id].priority, priority, oldTx, tx) {
            return ErrReplacement;
          }
        }
      }

      Put(id, priority, tx);
      return Inserted;
    }

    /** Writes a transaction to the four indices, in place of the one stored under its id. */
    method Put(id: Id, priority: int, tx: T)
      requires Valid()
      modifies this
      ensures Valid()
      ensures contents == old(contents)[id := Entry(priority, cfg.zero, tx)]
    {
      hide Consistent, Size;
      ConsistentScores(priorityIndex, priorityCounts, senderIndices, scores, contents);
      var index, counts, senders, newScores := priorityIndex, priorityCounts, senderIndices, scores;
      if id in newScores {
        var oldScore := newScores[id];
        index := SkipList.Remove(index, KeyOf(id, oldScore.priority, oldScore.weight));
        counts := Adjust(counts, oldScore.priority, -1);
      }
      counts := Adjust(counts, priority, 1);
      senders := senders[id.sender := Set(LowerNonce, Get(senders, id.sender, []), Node(id.nonce, Queued(priority, tx)))];
      newScores := newScores[id := Score(priority, cfg.zero)];
      index := Set(Higher, index, Node(KeyOf(id, priority, cfg.zero), tx));
      ghost var entry := Entry(priority, cfg.zero, tx);
      ghost var newContents := contents[id := entry];
      if id in scores {
        ReplaceKeepsConsistent(priorityIndex, priorityCounts, senderIndices, scores, contents, id, entry);
      } else {
        AddKeepsConsistent(priorityIndex, priorityCounts, senderIndices, scores, contents, id, entry);
      }
      priorityIndex, priorityCounts, senderIndices, scores, contents := index, counts, senders, newScores, newContents;
    }

    /** The stored transaction a new one would replace. */
    method OldTx(id: Id) returns (tx: T)
      requires Valid() && id in contents
      ensures tx == contents[id].tx
    {
      assert SenderNode(id, contents[id]) in senderIndices[id.sender];
      var list := senderIndices[id.sender];
      var i := Find(list, id.nonce);
      assert list[i] in list;
      tx := list[i].value.tx;
    }

    method Remove(tx: T) returns (r: RemoveResult)
      requires Valid()
      modifies this
      ensures Valid()
      ensures r == RemoveOutcome(cfg, old(contents), tx)
      ensures contents == AfterRemove(cfg, old(contents), tx)
    {
      hide Consistent, Size;
      ConsistentScores(priorityIndex, priorityCounts, senderIndices, scores, contents);
      var sigs := cfg.signatures(tx);
      if sigs.SignaturesError? {
        return RemoveErrSignatures;
      }
      if |sigs.signers| == 0 {
        return RemoveErrNoSigner;
      }

      var id := Id(sigs.signers[0].sender, sigs.signers[0].sequence);
      if id !in scores {
        return ErrTxNotFound;
      }

      RemoveKeepsConsistent(priorityIndex, priorityCounts, senderIndices, scores, contents, id);
      var score := scores[id];
      priorityIndex := SkipList.Remove(priorityIndex, KeyOf(id, score.priority, score.weight));
      senderIndices := senderIndices[id.sender := SkipList.Remove(Get(senderIndices, id.sender, []), id.nonce)];
      scores := scores - {id};
      priorityCounts := Adjust(priorityCounts, score.priority, -1);
      contents := contents - {id};
      return Removed;
    }

    /** Succeeds exactly when nothing is stored, although it looks at three of the indices. */
    method IsEmpty() returns (empty: bool)
      requires Valid()
      ensures empty <==> contents == map[]
    {
      PriorityIndexSize(priorityIndex, contents);
      if |priorityIndex| != 0 {
        return false;
      }

      var countKeys := priorityCounts.Keys;
      while exists p :: p in countKeys
        invariant countKeys <= priorityCounts.Keys
        decreases countKeys
      {
        var p :| p in countKeys;
        assert Get(priorityCounts, p, 0) == Count(priorityIndex, HasPriority(p));
        if priorityCounts[p] != 0 {
          return false;
        }
        countKeys := countKeys - {p};
      }

      var senderKeys := senderIndices.Keys;
      while exists s :: s in senderKeys
        invariant senderKeys <= senderIndices.Keys
        decreases senderKeys
      {
        var s :| s in senderKeys;
        if |senderIndices[s]| != 0 {
          QueuedIsStored(senderIndices, contents, s, 0);
          return false;
        }
        senderKeys := senderKeys - {s};
      }
      return true;
    }

    /** Walks the rest of a sender list, keeping the last priority that differs from the one kept
        so far; a cursor past the end is the nil cursor. */
    method SenderWeight(queue: Queue<T>, cursor: nat) returns (weight: int)
      ensures weight == if cursor < |queue| then LastPriority(queue) else cfg.minValue
    {
      if cursor >= |queue| {
        return cfg.minValue;
      }
      weight := queue[cursor].value.priority;
      var next := cursor + 1;
      while next < |queue|
        invariant cursor < next <= |queue|
        invariant weight == queue[next - 1].value.priority
      {
        var p := queue[next].value.priority;
        if p != weight {
          weight := p;
        }
        next := next + 1;
      }
    }

    /** The first pass of the reordering: the keys of all shared priorities with their new weights. */
    method CollectTies() returns (reordering: seq<ReorderKey<T>>)
      requires Valid()
      ensures reordering == TieKeys(priorityIndex, priorityCounts, senderIndices, |priorityIndex|)
    {
      reordering := [];
      for n := 0 to |priorityIndex|
        invariant reordering == TieKeys(priorityIndex, priorityCounts, senderIndices, n)
      {
        var key := priorityIndex[n].key;
        if Get(priorityCounts, key.priority, 0) > 1 {
          IndexedIsQueued(priorityIndex, senderIndices, contents, n);
          var queue := senderIndices[key.sender];
          var weight := SenderWeight(queue, Find(queue, key.nonce));
          reordering := reordering + [ReorderKey(key, key.(weight := weight), priorityIndex[n].value)];
        }
      }
    }

    /** One step of the second pass: moves a stored transaction to its new key. */
    method Rekey(k: ReorderKey<T>)
      requires Valid() && IsTieKey(k, priorityCounts, senderIndices, contents)
      modifies this`priorityIndex, this`scores, this`contents
      ensures Valid()
      ensures contents == old(contents)[IdOf(k.deleteKey) := old(contents)[IdOf(k.deleteKey)].(weight := k.insertKey.weight)]
    {
      hide Consistent;
      ghost var id := IdOf(k.deleteKey);
      ReweighKeepsConsistent(priorityIndex, priorityCounts, senderIndices, scores, contents, id, k.insertKey.weight);
      var index := SkipList.Remove(priorityIndex, k.deleteKey);
      var newScores := scores - {Id(k.deleteKey.sender, k.deleteKey.nonce)};
      priorityIndex := Set(Higher, index, Node(k.insertKey, k.tx));
      scores := newScores[Id(k.insertKey.sender, k.insertKey.nonce) := Score(k.insertKey.priority, k.insertKey.weight)];
      contents := contents[id := contents[id].(weight := k.insertKey.weight)];
    }

    /** The second pass of the reordering. */
    method RekeyAll(reordering: seq<ReorderKey<T>>)
      requires Valid()
      requires forall i :: 0 <= i < |reordering| ==> IsTieKey(reordering[i], priorityCounts, senderIndices, contents)
      requires DistinctIds(reordering)
      requires forall id :: id in TiedIds(priorityCounts, contents) ==>
                 exists i :: 0 <= i < |reordering| && IdOf(reordering[i].deleteKey) == id
      modifies this`priorityIndex, this`scores, this`contents
      ensures Valid()
      ensures contents == Reweigh(senderIndices, old(contents), TiedIds(priorityCounts, old(contents)))
    {
      ghost var before, ties := contents, TiedIds(priorityCounts, contents);
      ReweighNone(senderIndices, contents);
      hide Consistent, Reweigh, TiedIds;
      ghost var done: set<Id> := {};
      for n := 0 to |reordering|
        invariant Valid()
        invariant contents == Reweigh(senderIndices, before, done)
        invariant forall i :: 0 <= i < n ==> IdOf(reordering[i].deleteKey) in done
        invariant forall i :: n <= i < |reordering| ==> IdOf(reordering[i].deleteKey) !in done
        invariant done <= ties
      {
        ghost var id := IdOf(reordering[n].deleteKey);
        ReweighKeepsTieKey(reordering[n], priorityCounts, senderIndices, before, done);
        ReweighOneMore(senderIndices, before, done, id);
        Rekey(reordering[n]);
        done := done + {id};
      }
      assert done == ties;
    }

    /** Gives every transaction of a shared priority its sender's tie weight. */
    method ReorderPriorityTies()
      requires Valid()
      modifies this`priorityIndex, this`scores, this`contents
      ensures Valid()
      ensures contents == Reweigh(senderIndices, old(contents), TiedIds(priorityCounts, old(contents)))
      ensures TiesReordered(priorityIndex, senderIndices, contents)
      ensures WeighsTies(old(contents), contents)
    {
      ghost var before := contents;
      ReweighWeighsTies(priorityIndex, priorityCounts, senderIndices, scores, contents);
      var reordering := CollectTies();
      TieKeysAreTheTies(priorityIndex, priorityCounts, senderIndices, contents);
      hide Consistent, TieKeys, Reweigh, TiedIds, TiesReordered, WeighsTies;
      RekeyAll(reordering);
      ConsistentCounts(priorityIndex, priorityCounts, senderIndices, scores, contents);
      ReweighReordersTies(priorityIndex, priorityCounts, senderIndices, before);
    }

    /** Starts an iteration; there is none when nothing is stored. */
    method Select() returns (it: PriorityNonceIterator?<T>)
      requires Valid()
      modifies this`priorityIndex, this`scores, this`contents
      ensures Valid()
      ensures contents == Reweigh(senderIndices, old(contents), TiedIds(priorityCounts, old(contents)))
      ensures WeighsTies(old(contents), contents)
      ensures it == null <==> old(priorityIndex) == []
      ensures it == null ==> IsGreedyMerge(senderIndices, [])
      ensures it != null ==> fresh(it) && it.mempool == this && it.Valid() && it.HasCurrent() && |it.yielded| == 1
    {
      hide Consistent, Reweigh, TiedIds, TiesReordered, WeighsTies, WalkInvariant, AllWaitFrom;
      ReweighWeighsTies(priorityIndex, priorityCounts, senderIndices, scores, contents);
      ConsistentIndex(priorityIndex, priorityCounts, senderIndices, scores, contents);
      if |priorityIndex| == 0 {
        return null;
      }
      ReorderPriorityTies();
      StartWalk(priorityIndex, priorityCounts, senderIndices, scores, contents);
      var walk := new PriorityNonceIterator(this);
      var more := walk.IteratePriority();
      it := walk;
    }

    /** The loop every reader of the mempool runs: select, then next until there is no more. */
    method Drain() returns (out: seq<Pick<T>>)
      requires Valid()
      modifies this`priorityIndex, this`scores, this`contents
      ensures Valid()
      ensures contents == Reweigh(senderIndices, old(contents), TiedIds(priorityCounts, old(contents)))
      ensures IsGreedyMerge(senderIndices, out)
    {
      hide Consistent, Reweigh, TiedIds, WalkInvariant, OthersWaitFrom, IsGreedyMerge, Size;
      out := [];
      var it := Select();
      while it != null
        invariant Valid()
        invariant contents == Reweigh(senderIndices, old(contents), TiedIds(priorityCounts, old(contents)))
        invariant it == null ==> IsGreedyMerge(senderIndices, out)
        invariant it != null ==> fresh(it) && it.mempool == this && it.Valid() && it.HasCurrent()
        invariant it != null ==> it.yielded != [] && out == it.yielded[..|it.yielded| - 1]
        decreases it != null, Size(contents) - |out|
      {
        var tx := it.Tx();
        out := out + [tx];
        assert out == it.yielded;
        WalkFits(priorityIndex, senderIndices, contents, it.senderCursors, it.yielded);
        var more := it.Next();
        if !more {
          it := null;
        }
      }
    }
  }

  /** A position in a list; `Nil` is the position before the first and after the last node. */
  datatype Cursor = Nil | At(index: nat)

  class PriorityNonceIterator<T(!new)> {
    const mempool: PriorityNonceMempool<T>
    var priorityNode: Cursor
    var senderCursors: map<Address, nat>
    var sender: Address
    var nextPriority: int

    /** What the iteration has handed out so far. */
    ghost var yielded: seq<Pick<T>>

    constructor (mempool: PriorityNonceMempool<T>)
      ensures this.mempool == mempool && priorityNode == Nil && senderCursors == map[] && yielded == []
    {
      this.mempool := mempool;
      priorityNode, senderCursors, sender, nextPriority := Nil, map[], 0, 0;
      yielded := [];
    }

    ghost predicate Tracks()
      reads this, mempool
    {
      && mempool.Valid()
      && WalkInvariant(mempool.priorityIndex, mempool.senderIndices, mempool.contents, senderCursors, yielded)
    }

    ghost predicate Valid()
      reads this, mempool
    {
      && Tracks()
      && (priorityNode.Nil? ==> IsGreedyMerge(mempool.senderIndices, yielded))
      && (priorityNode.At? ==>
            && priorityNode.index < |mempool.priorityIndex|
            && sender == mempool.priorityIndex[priorityNode.index].key.sender
            && nextPriority == PriorityAt(priorityNode.index + 1)
            && OthersWaitFrom(mempool.priorityIndex, mempool.senderIndices, mempool.contents, yielded,
                              priorityNode.index + 1, sender))
    }

    /** The iterator stands on the transaction handed out last. */
    ghost predicate HasCurrent()
      reads this, mempool
    {
      && sender in senderCursors && sender in mempool.senderIndices
      && senderCursors[sender] < |mempool.senderIndices[sender]|
      && yielded != []
      && yielded[|yielded| - 1] == Pick(sender, mempool.senderIndices[sender][senderCursors[sender]])
    }

    /** One step: one more transaction, or the end of a complete greedy merge. */
    twostate predicate Stepped(more: bool)
      reads this, mempool
    {
      && Valid()
      && if more then HasCurrent() && yielded[..|yielded| - 1] == old(yielded)
         else yielded == old(yielded) && IsGreedyMerge(mempool.senderIndices, yielded)
    }

    function PriorityAt(k: nat): int
      reads this, mempool
    {
      if k < |mempool.priorityIndex| then mempool.priorityIndex[k].key.priority else mempool.cfg.minValue
    }

    /** The node the walk visits next. */
    function NextNode(): nat
      reads this
    {
      if priorityNode.Nil? then 0 else priorityNode.index + 1
    }

    method IteratePriority() returns (more: bool)
      requires Tracks()
      requires AllWaitFrom(mempool.priorityIndex, mempool.senderIndices, mempool.contents, yielded, NextNode())
      requires NextNode() <= |mempool.priorityIndex|
      modifies this
      ensures Stepped(more)
      decreases |mempool.priorityIndex| - NextNode(), 1
    {
      hide Consistent, WalkInvariant, AllWaitFrom, OthersWaitFrom;
      var node := NextNode();
      if node >= |mempool.priorityIndex| {
        MergeEnds(mempool.priorityIndex, mempool.senderIndices, mempool.contents, senderCursors, yielded);
        priorityNode := Nil;
        return false;
      }
      VisitNode(mempool.priorityIndex, mempool.senderIndices, mempool.contents, yielded, node);
      priorityNode := At(node);
      sender := mempool.priorityIndex[node].key.sender;
      nextPriority := PriorityAt(node + 1);
      more := Next();
    }

    method Next() returns (more: bool)
      requires Valid()
      modifies this
      ensures Stepped(more)
      decreases |mempool.priorityIndex| - NextNode(), 2
    {
      hide Consistent, WalkInvariant, AllWaitFrom, OthersWaitFrom;
      if priorityNode.Nil? {
        return false;
      }
      var k := priorityNode.index;
      WalkReads(mempool.priorityIndex, mempool.senderIndices, mempool.contents, senderCursors, yielded, k);
      ConsistentScores(mempool.priorityIndex, mempool.priorityCounts, mempool.senderIndices, mempool.scores, mempool.contents);
      var queue := mempool.senderIndices[sender];
      var cursor := NextCursor(senderCursors, sender);

      if cursor >= |queue| {
        SkipDrained(mempool.priorityIndex, mempool.senderIndices, mempool.contents, senderCursors, yielded, k + 1, sender);
        more := IteratePriority();
        return;
      }

      var key := queue[cursor];
      if k + 1 < |mempool.priorityIndex| {
        if key.value.priority < nextPriority {
          SkipOutranked(mempool.priorityIndex, mempool.senderIndices, mempool.contents, senderCursors, yielded, k + 1, sender);
          more := IteratePriority();
          return;
        } else if key.value.priority == nextPriority {
          var weight := mempool.scores[Id(sender, key.key)].weight;
          if weight < mempool.priorityIndex[k + 1].key.weight {
            SkipOutranked(mempool.priorityIndex, mempool.senderIndices, mempool.contents, senderCursors, yielded, k + 1, sender);
            more := IteratePriority();
            return;
          }
        }
      }

      HandOut(mempool.priorityIndex, mempool.senderIndices, mempool.contents, senderCursors, yielded, k + 1, sender);
      senderCursors := senderCursors[sender := cursor];
      yielded := yielded + [Pick(sender, key)];
      return true;
    }

    /** The transaction handed out last. */
    method Tx() returns (tx: Pick<T>)
      requires HasCurrent()
      ensures tx == yielded[|yielded| - 1]
    {
      tx := Pick(sender, mempool.senderIndices[sender][senderCursors[sender]]);
    }
  }
}
