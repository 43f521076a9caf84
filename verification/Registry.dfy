/** The registry of lanes: ignore lists, the match test that looks through them, and the mutually
    exclusive configuration (blockbuster/mempool.go, blockbuster/lane_constructor.go). */
module Registry {
  import opened Proposals
  import opened PriorityIndices
  import opened PriorityNonce
  import opened LaneMempool
  import opened Lanes
  import opened Segments
  import opened Agreement

  /** Each lane's ignore list, by the positions of the lanes on it. */
  type IgnoreLists = seq<seq<nat>>

  /** Every ignore list names earlier lanes only, so that looking through the lists ends. */
  ghost predicate LooksBack(ignore: IgnoreLists) {
    forall i, k :: 0 <= i < |ignore| && 0 <= k < |ignore[i]| ==> ignore[i][k] < i
  }

  /** A lane matches what its own handler matches and no lane on its ignore list does. */
  predicate Match<X>(own: seq<X -> bool>, ignore: IgnoreLists, i: nat, x: X)
    requires |own| == |ignore| && LooksBack(ignore) && i < |own|
    decreases i, 1
  {
    own[i](x) && !CheckIgnoreList(own, ignore, i, 0, x)
  }

  /** Whether some lane on the list of lane `i`, from position `k` on, matches. */
  predicate CheckIgnoreList<X>(own: seq<X -> bool>, ignore: IgnoreLists, i: nat, k: nat, x: X)
    requires |own| == |ignore| && LooksBack(ignore) && i < |own| && k <= |ignore[i]|
    decreases i, 0, |ignore[i]| - k
  {
    k < |ignore[i]| && (Match(own, ignore, ignore[i][k], x) || CheckIgnoreList(own, ignore, i, k + 1, x))
  }

  function UpTo(n: nat): (s: seq<nat>)
    ensures |s| == n && forall k :: 0 <= k < n ==> s[k] == k
  {
    seq(n, k requires 0 <= k < n => k)
  }

  /** The mutually exclusive configuration: every lane ignores all the lanes before it. */
  ghost predicate IgnoresAllBefore(ignore: IgnoreLists) {
    forall i :: 0 <= i < |ignore| ==> ignore[i] == UpTo(i)
  }

  class BBMempool<X(!new)> {
    const own: seq<X -> bool>
    const cfgs: seq<Config<X>>
    const hash: X -> Option<string>
    var ignore: IgnoreLists

    /** What each lane's mempool holds. */
    var lanes: seq<MempoolState<X>>

    ghost predicate Valid()
      reads this
    {
      |own| == |cfgs| == |ignore| == |lanes| && LooksBack(ignore)
    }

    /** With the mutex, sets each lane's ignore list to the lanes before it; the first lane keeps the
        list it was configured with. */
    constructor (own: seq<X -> bool>, cfgs: seq<Config<X>>, hash: X -> Option<string>, configured: IgnoreLists, mutex: bool)
      requires |own| == |cfgs| == |configured| && LooksBack(configured)
      ensures Valid() && this.own == own && this.cfgs == cfgs && this.hash == hash
      ensures lanes == EmptyLanes(|own|)
      ensures if mutex then forall i :: 0 <= i < |ignore| ==> ignore[i] == if i == 0 then configured[0] else UpTo(i)
              else ignore == configured
    {
      this.own, this.cfgs, this.hash := own, cfgs, hash;
      this.ignore := configured;
      lanes := EmptyLanes(|own|);
      new;
      if mutex {
        for i := 0 to |own|
          invariant |ignore| == |own| && lanes == EmptyLanes(|own|)
          invariant forall j :: 0 <= j < |ignore| ==> ignore[j] == if 0 < j < i then UpTo(j) else configured[j]
        {
          if i > 0 {
            ignore := ignore[i := UpTo(i)];
          }
        }
      }
    }

    /** Inserts into every lane that matches; succeeds if none of these insertions fails. */
    method Insert(x: X) returns (ok: bool)
      requires Valid()
      modifies this`lanes
      ensures Valid()
      ensures forall i :: 0 <= i < |lanes| ==>
                lanes[i] == if Match(own, ignore, i, x) then InsertStep(cfgs[i], hash, old(lanes)[i], x) else old(lanes)[i]
      ensures ok <==> forall i :: 0 <= i < |lanes| && Match(own, ignore, i, x) ==> Accepts(cfgs[i], hash, old(lanes)[i], x)
    {
      ok := true;
      for i := 0 to |lanes|
        invariant Valid() && |lanes| == |old(lanes)|
        invariant forall j :: 0 <= j < |lanes| ==>
                    lanes[j] == if j < i && Match(own, ignore, j, x) then InsertStep(cfgs[j], hash, old(lanes)[j], x) else old(lanes)[j]
        invariant ok <==> forall j :: 0 <= j < i && Match(own, ignore, j, x) ==> Accepts(cfgs[j], hash, old(lanes)[j], x)
      {
        if Match(own, ignore, i, x) {
          if !Accepts(cfgs[i], hash, lanes[i], x) {
            ok := false;
          }
          lanes := lanes[i := InsertStep(cfgs[i], hash, lanes[i], x)];
        }
      }
    }

    /** Removes from every lane whose cache has the transaction, whether or not that lane matches it;
        succeeds if none of these removals fails. */
    method Remove(x: X) returns (ok: bool)
      requires Valid()
      modifies this`lanes
      ensures Valid()
      ensures forall i :: 0 <= i < |lanes| ==>
                lanes[i] == if IsCached(hash, old(lanes)[i], x) then RemoveStep(cfgs[i], hash, old(lanes)[i], x) else old(lanes)[i]
      ensures ok <==> forall i :: 0 <= i < |lanes| && IsCached(hash, old(lanes)[i], x) ==> Signed(cfgs[i], x)
    {
      ok := true;
      for i := 0 to |lanes|
        invariant Valid() && |lanes| == |old(lanes)|
        invariant forall j :: 0 <= j < |lanes| ==>
                    lanes[j] == if j < i && IsCached(hash, old(lanes)[j], x) then RemoveStep(cfgs[j], hash, old(lanes)[j], x)
                                else old(lanes)[j]
        invariant ok <==> forall j :: 0 <= j < i && IsCached(hash, old(lanes)[j], x) ==> Signed(cfgs[j], x)
      {
        if IsCached(hash, lanes[i], x) {
          if !Signed(cfgs[i], x) {
            ok := false;
          }
          lanes := lanes[i := RemoveStep(cfgs[i], hash, lanes[i], x)];
        }
      }
    }
  }

  /** Sets up a registry, unless the lanes' shares of a block are invalid, which panics. */
  method NewMempool<X(!new)>(own: seq<X -> bool>, cfgs: seq<Config<X>>, hash: X -> Option<string>, configured: IgnoreLists,
                             shares: seq<int>, mutex: bool)
    returns (m: BBMempool?<X>)
    requires |own| == |cfgs| == |configured| && LooksBack(configured)
    ensures m == null <==> !ValidShares(shares)
    ensures m != null ==>
              && fresh(m) && m.Valid() && m.own == own && m.cfgs == cfgs && m.hash == hash
              && m.lanes == EmptyLanes(|own|)
              && if mutex then forall i :: 0 <= i < |m.ignore| ==> m.ignore[i] == if i == 0 then configured[0] else UpTo(i)
                 else m.ignore == configured
  {
    var valid := ValidateBasic(shares);
    if !valid {
      return null;
    }
    m := new BBMempool(own, cfgs, hash, configured, mutex);
  }

  function EmptyLanes<X>(n: nat): (lanes: seq<MempoolState<X>>)
    ensures |lanes| == n && forall i :: 0 <= i < n ==> lanes[i] == MempoolState(map[], {})
  {
    seq(n, i => MempoolState(map[], {}))
  }

  /** Whether a lane's insertion returns no error. */
  predicate Accepts<X>(cfg: Config<X>, hash: X -> Option<string>, m: MempoolState<X>, x: X) {
    InsertOutcome(cfg, m.contents, x).Inserted? && hash(x).Some?
  }

  /** Every lane holds only transactions that match it. */
  ghost predicate EachHoldsItsOwn<X>(own: seq<X -> bool>, ignore: IgnoreLists, lanes: seq<MempoolState<X>>)
    requires |own| == |ignore| == |lanes| && LooksBack(ignore)
  {
    forall i, id {:trigger lanes[i].contents[id]} ::
      0 <= i < |lanes| && id in lanes[i].contents ==> Match(own, ignore, i, lanes[i].contents[id].tx)
  }

  /** An insertion or a removal, in terms of what the lanes hold. */
  ghost predicate RegistryStep<X>(own: seq<X -> bool>, ignore: IgnoreLists, cfgs: seq<Config<X>>, hash: X -> Option<string>,
                                  before: seq<MempoolState<X>>, after: seq<MempoolState<X>>, x: X)
    requires |own| == |ignore| == |cfgs| == |before| && LooksBack(ignore)
  {
    && |after| == |before|
    && ((forall i :: 0 <= i < |after| ==>
           after[i] == if Match(own, ignore, i, x) then InsertStep(cfgs[i], hash, before[i], x) else before[i])
        || (forall i :: 0 <= i < |after| ==>
              after[i] == if IsCached(hash, before[i], x) then RemoveStep(cfgs[i], hash, before[i], x) else before[i]))
  }

  /** Insertions and removals leave every lane with transactions of its own. */
  lemma StepKeepsEachItsOwn<X(!new)>(own: seq<X -> bool>, ignore: IgnoreLists, cfgs: seq<Config<X>>, hash: X -> Option<string>,
                                     before: seq<MempoolState<X>>, after: seq<MempoolState<X>>, x: X)
    requires |own| == |ignore| == |cfgs| == |before| && LooksBack(ignore)
    requires EachHoldsItsOwn(own, ignore, before) && RegistryStep(own, ignore, cfgs, hash, before, after, x)
    ensures EachHoldsItsOwn(own, ignore, after)
  {
    hide Match, LooksBack, InsertStep, RemoveStep;
    forall i, id | 0 <= i < |after| && id in after[i].contents ensures Match(own, ignore, i, after[i].contents[id].tx) {
      StepStoresNothingElse(cfgs[i], hash, before[i], x);
      if id in before[i].contents && after[i].contents[id] == before[i].contents[id] {
        assert Match(own, ignore, i, before[i].contents[id].tx);
      }
    }
  }

  /** A lane's mempool gains the inserted transaction at most. */
  lemma StepStoresNothingElse<X>(cfg: Config<X>, hash: X -> Option<string>, m: MempoolState<X>, x: X)
    ensures var c := InsertStep(cfg, hash, m, x).contents;
            forall id :: id in c ==> (id in m.contents && c[id] == m.contents[id]) || c[id].tx == x
    ensures var c := RemoveStep(cfg, hash, m, x).contents;
            forall id :: id in c ==> id in m.contents && c[id] == m.contents[id]
  {
  }

  /** What the lanes of a registry hold over a run of insertions and removals, from empty. */
  ghost predicate IsRegistryRun<X>(own: seq<X -> bool>, ignore: IgnoreLists, cfgs: seq<Config<X>>, hash: X -> Option<string>,
                                   run: seq<seq<MempoolState<X>>>, xs: seq<X>)
    requires |own| == |ignore| == |cfgs| && LooksBack(ignore)
  {
    && |run| == |xs| + 1 && run[0] == EmptyLanes(|own|)
    && (forall i :: 0 <= i < |run| ==> |run[i]| == |own|)
    && forall i {:trigger xs[i]} :: 0 <= i < |xs| ==> IsRunStep(own, ignore, cfgs, hash, run, xs, i)
  }

  ghost predicate IsRunStep<X>(own: seq<X -> bool>, ignore: IgnoreLists, cfgs: seq<Config<X>>, hash: X -> Option<string>,
                               run: seq<seq<MempoolState<X>>>, xs: seq<X>, i: nat)
    requires |own| == |ignore| == |cfgs| && LooksBack(ignore)
    requires i < |xs| && |run| == |xs| + 1 && forall i :: 0 <= i < |run| ==> |run[i]| == |own|
  {
    RegistryStep(own, ignore, cfgs, hash, run[i], run[i + 1], xs[i])
  }

  /** Over any run every lane holds only transactions that match it. */
  lemma {:induction false} RunsKeepEachItsOwn<X(!new)>(own: seq<X -> bool>, ignore: IgnoreLists, cfgs: seq<Config<X>>, hash: X -> Option<string>,
                                                       run: seq<seq<MempoolState<X>>>, xs: seq<X>, n: nat)
    requires |own| == |ignore| == |cfgs| && LooksBack(ignore)
    requires IsRegistryRun(own, ignore, cfgs, hash, run, xs) && n < |run|
    ensures EachHoldsItsOwn(own, ignore, run[n])
    decreases n
  {
    if n > 0 {
      RunsKeepEachItsOwn(own, ignore, cfgs, hash, run, xs, n - 1);
      assert IsRunStep(own, ignore, cfgs, hash, run, xs, n - 1);
      hide EachHoldsItsOwn, RegistryStep;
      StepKeepsEachItsOwn(own, ignore, cfgs, hash, run[n - 1], run[n], xs[n - 1]);
    }
  }

  /** In the mutually exclusive configuration no transaction is ever in two lanes. */
  lemma NoTransactionInTwoLanes<X(!new)>(own: seq<X -> bool>, ignore: IgnoreLists, cfgs: seq<Config<X>>, hash: X -> Option<string>,
                                         run: seq<seq<MempoolState<X>>>, xs: seq<X>, n: nat, i: nat, id: Id, j: nat, id': Id)
    requires |own| == |ignore| == |cfgs| && LooksBack(ignore) && IgnoresAllBefore(ignore)
    requires IsRegistryRun(own, ignore, cfgs, hash, run, xs) && n < |run|
    requires i < j < |run[n]| && id in run[n][i].contents && id' in run[n][j].contents
    ensures run[n][i].contents[id].tx != run[n][j].contents[id'].tx
  {
    RunsKeepEachItsOwn(own, ignore, cfgs, hash, run, xs, n);
    MatchIsFirstOwnMatch(own, ignore, i, run[n][i].contents[id].tx);
    MatchIsFirstOwnMatch(own, ignore, j, run[n][j].contents[id'].tx);
  }

  ghost predicate SomeMatches<X>(own: seq<X -> bool>, ignore: IgnoreLists, k: nat, i: nat, x: X)
    requires |own| == |ignore| && LooksBack(ignore) && i <= |own|
  {
    exists j :: k <= j < i && Match(own, ignore, j, x)
  }

  lemma {:induction false} IgnoredIffSomeEarlierMatches<X>(own: seq<X -> bool>, ignore: IgnoreLists, i: nat, k: nat, x: X)
    requires |own| == |ignore| && LooksBack(ignore) && i < |own| && k <= |ignore[i]|
    requires ignore[i] == UpTo(i)
    ensures CheckIgnoreList(own, ignore, i, k, x) <==> SomeMatches(own, ignore, k, i, x)
    decreases |ignore[i]| - k
  {
    if k < |ignore[i]| {
      IgnoredIffSomeEarlierMatches(own, ignore, i, k + 1, x);
      assert ignore[i][k] == k;
      if SomeMatches(own, ignore, k, i, x) {
        var j :| k <= j < i && Match(own, ignore, j, x);
        assert j == k || SomeMatches(own, ignore, k + 1, i, x);
      }
    }
  }

  /** With any ignore lists, a lane matches what its own handler does and none of the lanes on its list. */
  lemma MatchLooksThroughTheList<X>(own: seq<X -> bool>, ignore: IgnoreLists, i: nat, x: X)
    requires |own| == |ignore| && LooksBack(ignore) && i < |own|
    ensures Match(own, ignore, i, x) <==> own[i](x) && forall k :: 0 <= k < |ignore[i]| ==> !Match(own, ignore, ignore[i][k], x)
  {
    IgnoredIffSomeOnTheListMatches(own, ignore, i, 0, x);
  }

  lemma {:induction false} IgnoredIffSomeOnTheListMatches<X>(own: seq<X -> bool>, ignore: IgnoreLists, i: nat, k: nat, x: X)
    requires |own| == |ignore| && LooksBack(ignore) && i < |own| && k <= |ignore[i]|
    ensures CheckIgnoreList(own, ignore, i, k, x) <==> exists j :: k <= j < |ignore[i]| && Match(own, ignore, ignore[i][j], x)
    decreases |ignore[i]| - k
  {
    if k < |ignore[i]| {
      IgnoredIffSomeOnTheListMatches(own, ignore, i, k + 1, x);
    }
  }

  /** In the mutually exclusive configuration a lane gets exactly the transactions that its own handler
      matches and no earlier lane's own handler does. */
  lemma {:induction false} MatchIsFirstOwnMatch<X>(own: seq<X -> bool>, ignore: IgnoreLists, i: nat, x: X)
    requires |own| == |ignore| && LooksBack(ignore) && IgnoresAllBefore(ignore) && i < |own|
    ensures Match(own, ignore, i, x) <==> own[i](x) && forall j :: 0 <= j < i ==> !own[j](x)
  {
    IgnoredIffSomeEarlierMatches(own, ignore, i, 0, x);
    forall j | 0 <= j < i
      ensures Match(own, ignore, j, x) <==> own[j](x) && forall k :: 0 <= k < j ==> !own[k](x)
    {
      MatchIsFirstOwnMatch(own, ignore, j, x);
    }
    if j :| 0 <= j < i && own[j](x) {
      var first := FirstOwnMatch(own, x);
      assert first <= j;
      assert Match(own, ignore, first, x);
      assert SomeMatches(own, ignore, 0, i, x);
    }
    if SomeMatches(own, ignore, 0, i, x) {
      var j :| 0 <= j < i && Match(own, ignore, j, x);
      assert own[j](x);
    }
  }

  lemma {:induction false} FirstOwnMatch<X>(own: seq<X -> bool>, x: X) returns (i: nat)
    requires exists j :: 0 <= j < |own| && own[j](x)
    ensures i < |own| && own[i](x) && forall j :: 0 <= j < i ==> !own[j](x)
  {
    if own[0](x) {
      i := 0;
    } else {
      var j :| 0 <= j < |own| && own[j](x);
      assert own[1..][j - 1](x);
      var k := FirstOwnMatch(own[1..], x);
      i := k + 1;
    }
  }

  ghost predicate CatchesAll<X(!new)>(own: X -> bool) {
    forall x :: own(x)
  }

  /** Lanes that match as a mutually exclusive registry says are exclusive; if the last one's own
      handler matches everything, every transaction has its lane. */
  lemma RegistryLanesAreExclusive<S, X(!new)>(own: seq<X -> bool>, ignore: IgnoreLists, lanes: seq<Lane<S, X>>)
    requires |own| == |ignore| == |lanes| && LooksBack(ignore) && IgnoresAllBefore(ignore)
    requires forall i, x {:trigger lanes[i].matches(x)} ::
               0 <= i < |lanes| ==> (lanes[i].matches(x) <==> Match(own, ignore, i, x))
    ensures Exclusive(lanes)
    ensures lanes != [] && CatchesAll(own[|own| - 1]) ==> forall x :: SomeLaneMatches(lanes, x)
  {
    forall i, j, x | 0 <= i < j < |lanes| && lanes[i].matches(x) ensures !lanes[j].matches(x) {
      MatchIsFirstOwnMatch(own, ignore, i, x);
      MatchIsFirstOwnMatch(own, ignore, j, x);
    }
    if lanes != [] && CatchesAll(own[|own| - 1]) {
      forall x ensures SomeLaneMatches(lanes, x) {
        assert own[|own| - 1](x);
        var i := FirstOwnMatch(own, x);
        MatchIsFirstOwnMatch(own, ignore, i, x);
        assert lanes[i].matches(x);
      }
    }
  }
}
