/** What is in the cache of affected features, exactly, from the history of a run: a pair is cached
    if and only if a plain scan finds it and its feature was either stored when the vulnerability
    was scanned for, or went through a cache step whose search succeeded. */
module ProtocolHistory {
  import opened Models
  import opened VersionText
  import opened CacheProtocol

  type Seen = map<nat, set<NamespacedFeature>>

  ghost function SeenAfter(seen: Seen, s: State, step: Step): Seen {
    if step.Scan? && Updating(s, step.t)
    then seen + map v | v in s.transactions[step.t].vulnerabilities :: s.tables.features
    else seen
  }

  /** The features that were stored when an updater scanned for a vulnerability. */
  ghost function StoredAtScan(states: seq<State>, steps: seq<Step>, j: nat): Seen
    requires j <= |steps| < |states|
  {
    if j == 0 then map[] else SeenAfter(StoredAtScan(states, steps, j - 1), states[j - 1], steps[j - 1])
  }

  ghost predicate Sees(seen: Seen, v: nat, nf: NamespacedFeature) {
    v in seen && nf in seen[v]
  }

  // ----- The history invariant

  ghost predicate TablesHistory(test: RangeTest, s: State, seen: Seen) {
    var tb := s.tables;
    && (forall v, nf :: Sees(seen, v, nf) ==> nf in tb.features)
    && (forall v, nf, a :: Affects(test, tb, v, nf, a) && Sees(seen, v, nf) ==> Pair(v, nf) in tb.cache)
    && (forall p :: p in tb.cache ==> p.feature in s.cached || Sees(seen, p.vulnerability, p.feature))
  }

  ghost predicate UpdateHistory(test: RangeTest, s: State, seen: Seen, t: nat)
    requires Updating(s, t)
  {
    var tx := s.transactions[t];
    tx.relation.Some? ==>
      && (forall v, nf, a :: Matches(test, tx, v, nf, a) && Sees(seen, v, nf) ==> Pair(v, nf) in tx.relation.value)
      && (forall p :: p in tx.relation.value ==> Sees(seen, p.vulnerability, p.feature))
  }

  /** A failed search has no pairs, and pairs are of requested features. */
  ghost predicate CacheStepHistory(s: State, t: nat)
    requires Caching(s, t)
  {
    var tx := s.transactions[t];
    tx.found.Some? ==> forall p :: p in tx.found.value.pairs ==> tx.found.value.clean && p.feature in tx.features
  }

  ghost predicate History(test: RangeTest, s: State, seen: Seen) {
    && TablesHistory(test, s, seen)
    && (forall t :: Updating(s, t) ==> UpdateHistory(test, s, seen, t))
    && (forall t :: Caching(s, t) ==> CacheStepHistory(s, t))
  }

  /** A transaction went on without a new scan or search. */
  ghost predicate SameResults(s: State, s': State, t: nat) {
    && (Updating(s', t) ==>
          && (s'.transactions[t].relation.Some? ==> Updating(s, t) && s'.transactions[t] == s.transactions[t]))
    && (Caching(s', t) ==>
          && (s'.transactions[t].found.Some? ==> Caching(s, t) && s'.transactions[t] == s.transactions[t]))
  }

  ghost predicate SameRows(tb: Tables, tb': Tables) {
    tb'.vulnerabilities == tb.vulnerabilities && tb'.affected == tb.affected && tb'.cache == tb.cache
  }

  lemma QuietStep(test: RangeTest, s: State, step: Step, s': State, seen: Seen)
    requires Invariant(test, s) && History(test, s, seen) && Next(test, s, step, s')
    requires !step.Scan? && !step.Search? && !step.CommitUpdate? && !step.CommitCache?
    ensures History(test, s', seen)
  {
    SameHistory(test, s, s', seen);
  }

  lemma SameHistory(test: RangeTest, s: State, s': State, seen: Seen)
    requires History(test, s, seen) && SameRows(s.tables, s'.tables)
    requires s.tables.features <= s'.tables.features && s'.cached == s.cached
    requires forall t :: SameResults(s, s', t)
    ensures History(test, s', seen)
  {
    assert forall v, nf, a :: Affects(test, s'.tables, v, nf, a) == Affects(test, s.tables, v, nf, a);
    forall t | Updating(s', t) ensures UpdateHistory(test, s', seen, t) {
      assert SameResults(s, s', t);
    }
    forall t | Caching(s', t) ensures CacheStepHistory(s', t) {
      assert SameResults(s, s', t);
    }
  }

  lemma ScanHistory(test: RangeTest, s: State, t: nat, s': State, seen: Seen)
    requires Invariant(test, s) && History(test, s, seen) && Next(test, s, Scan(t), s')
    ensures History(test, s', SeenAfter(seen, s, Scan(t)))
  {
    var seen' := SeenAfter(seen, s, Scan(t));
    forall v, nf | Sees(seen', v, nf) ensures nf in s.tables.features {
      assert v !in s.transactions[t].vulnerabilities ==> Sees(seen, v, nf);
    }
    var tx, tx' := s.transactions[t], s'.transactions[t];
    assert UpdateInvariant(test, s, t);
    assert forall v, nf, a :: Matches(test, tx', v, nf, a) == Matches(test, tx, v, nf, a);
    forall p | p in s.tables.cache ensures p.feature in s.cached || Sees(seen', p.vulnerability, p.feature) {
      assert p.vulnerability !in tx.vulnerabilities;
    }
    forall u | Updating(s', u) && u != t ensures UpdateHistory(test, s', seen', u) {
      OthersWait(test, s, t, u);
    }
    forall u | Caching(s', u) ensures CacheStepHistory(s', u) {
      assert Caching(s, u);
    }
  }

  lemma SearchHistory(test: RangeTest, s: State, t: nat, s': State, seen: Seen)
    requires History(test, s, seen) && Next(test, s, Search(t), s')
    ensures History(test, s', seen)
  {
    forall u | Updating(s', u) ensures UpdateHistory(test, s', seen, u) {
      assert Updating(s, u);
    }
    forall u | Caching(s', u) && u != t ensures CacheStepHistory(s', u) {
      assert Caching(s, u);
    }
  }

  lemma CommitCacheHistory(test: RangeTest, s: State, t: nat, s': State, seen: Seen)
    requires Invariant(test, s) && History(test, s, seen) && Next(test, s, CommitCache(t), s')
    ensures History(test, s', seen)
  {
    assert CacheInvariant(test, s, t) && CacheStepHistory(s, t);
    assert forall v, nf, a :: Affects(test, s'.tables, v, nf, a) == Affects(test, s.tables, v, nf, a);
    forall u | Updating(s', u) ensures UpdateHistory(test, s', seen, u) {
      assert Updating(s, u);
    }
    forall u | Caching(s', u) ensures CacheStepHistory(s', u) {
      assert Caching(s, u);
    }
  }

  lemma CommitUpdateHistory(test: RangeTest, s: State, t: nat, s': State, seen: Seen)
    requires Invariant(test, s) && History(test, s, seen) && Next(test, s, CommitUpdate(t), s')
    ensures History(test, s', seen)
  {
    CommitUpdateTables(test, s, t, s', seen);
    forall u | Updating(s', u) ensures UpdateHistory(test, s', seen, u) {
      assert Updating(s, u);
    }
    forall u | Caching(s', u) ensures CacheStepHistory(s', u) {
      assert Caching(s, u);
    }
  }

  lemma CommitUpdateTables(test: RangeTest, s: State, t: nat, s': State, seen: Seen)
    requires Invariant(test, s) && History(test, s, seen) && Next(test, s, CommitUpdate(t), s')
    ensures TablesHistory(test, s', seen)
  {
    var tb, tb', tx := s.tables, s'.tables, s.transactions[t];
    assert UpdateInvariant(test, s, t) && UpdateHistory(test, s, seen, t);
    forall v, nf, a | Affects(test, tb', v, nf, a) && Sees(seen, v, nf) ensures Pair(v, nf) in tb'.cache {
      CommittedAffects(test, s, t, v, nf, a);
      if v !in tx.vulnerabilities {
        assert Pair(v, nf) in tb.cache;
        assert tx.dropped.Some? ==> Pair(v, nf) !in tx.dropped.value.pairs;
      }
    }
    forall p | p in tb'.cache ensures p.feature in s'.cached || Sees(seen, p.vulnerability, p.feature) {
      if p !in tx.relation.value {
        assert p in tb.cache;
      }
    }
  }

  lemma StepHistory(test: RangeTest, s: State, step: Step, s': State, seen: Seen)
    requires Invariant(test, s) && History(test, s, seen) && Next(test, s, step, s')
    ensures History(test, s', SeenAfter(seen, s, step))
  {
    match step
    case Scan(t) => ScanHistory(test, s, t, s', seen);
    case Search(t) => SearchHistory(test, s, t, s', seen);
    case CommitUpdate(t) => CommitUpdateHistory(test, s, t, s', seen);
    case CommitCache(t) => CommitCacheHistory(test, s, t, s', seen);
    case _ => QuietStep(test, s, step, s', seen);
  }

  lemma {:induction false} RunHistory(test: RangeTest, states: seq<State>, steps: seq<Step>, j: nat)
    requires IsRun(test, states, steps) && j < |states|
    ensures History(test, states[j], StoredAtScan(states, steps, j))
  {
    if j > 0 {
      RunHistory(test, states, steps, j - 1);
      HistoryInRun(test, states, steps, j - 1);
    }
  }

  lemma HistoryInRun(test: RangeTest, states: seq<State>, steps: seq<Step>, j: nat)
    requires IsRun(test, states, steps) && j < |steps| && History(test, states[j], StoredAtScan(states, steps, j))
    ensures History(test, states[j + 1], StoredAtScan(states, steps, j + 1))
  {
    RunInvariant(test, states, steps, j);
    assert NextAt(test, states, steps, j);
    StepHistory(test, states[j], steps[j], states[j + 1], StoredAtScan(states, steps, j));
  }

  /** In every state of every interleaving: what is read from the cache is what a plain scan finds
      for the features that were stored when the vulnerability was scanned for, or went through a
      committed cache step whose search succeeded. */
  lemma CacheIsExactly(test: RangeTest, states: seq<State>, steps: seq<Step>, j: nat, v: nat, nf: NamespacedFeature)
    requires IsRun(test, states, steps) && j < |states|
    ensures ReadFromCache(states[j].tables, v, nf) <==>
            && PlainScan(test, states[j].tables, v, nf)
            && (nf in states[j].cached || Sees(StoredAtScan(states, steps, j), v, nf))
  {
    RunInvariant(test, states, steps, j);
    RunHistory(test, states, steps, j);
    var tb := states[j].tables;
    if Pair(v, nf) in tb.cache {
      assert Affects(test, tb, v, nf, tb.cache[Pair(v, nf)]);
    }
  }

  /** So the cache agrees on a feature if and only if its cache step succeeded or it was stored
      before the scan for each vulnerability that affects it. */
  ghost predicate StoredInTime(test: RangeTest, tb: Tables, seen: Seen, nf: NamespacedFeature) {
    forall v :: PlainScan(test, tb, v, nf) ==> Sees(seen, v, nf)
  }

  lemma AgreesExactlyIf(test: RangeTest, states: seq<State>, steps: seq<Step>, j: nat, nf: NamespacedFeature)
    requires IsRun(test, states, steps) && j < |states|
    ensures Agrees(test, states[j].tables, nf) <==>
            nf in states[j].cached || StoredInTime(test, states[j].tables, StoredAtScan(states, steps, j), nf)
  {
    forall v ensures ReadFromCache(states[j].tables, v, nf) <==>
                     && PlainScan(test, states[j].tables, v, nf)
                     && (nf in states[j].cached || Sees(StoredAtScan(states, steps, j), v, nf))
    {
      CacheIsExactly(test, states, steps, j, v, nf);
    }
  }

  // ----- Cache steps: a search and the commit of its transaction

  ghost predicate IsCacheStep(states: seq<State>, steps: seq<Step>, k: nat, i: nat) {
    && k < i < |steps| < |states| && steps[k].Search? && steps[i] == CommitCache(steps[k].t)
    && forall m :: k <= m <= i ==> steps[k].t in states[m].transactions
  }

  ghost function Requested(s: State, step: Step): set<NamespacedFeature> {
    if step.Search? && Caching(s, step.t) then s.transactions[step.t].features else {}
  }

  ghost predicate Succeeds(test: RangeTest, s: State, step: Step) {
    SearchSucceeds(test, s.tables, Requested(s, step))
  }

  /** Nothing a search looked at, and nothing of its transaction, has changed. */
  ghost predicate Untouched(s: State, s': State, t: nat) {
    && Caching(s, t) && Caching(s', t) && s'.transactions[t] == s.transactions[t]
    && SameRows(s.tables, s'.tables) && s'.cached == s.cached
  }

  /** While a transaction has searched and not ended, it has the lock: no other transaction scans,
      drops or commits. */
  lemma HolderIsAlone(test: RangeTest, s: State, step: Step, s': State, t: nat)
    requires Invariant(test, s) && Next(test, s, step, s')
    requires Caching(s, t) && s.transactions[t].found.Some? && t in s'.transactions
    ensures Untouched(s, s', t) && !step.Scan?
  {
    assert CacheInvariant(test, s, t);
    forall u | u in s.transactions && u != t
      ensures Updating(s, u) ==> s.transactions[u].relation == None
      ensures Caching(s, u) ==> s.transactions[u].found == None
    {
      OthersWait(test, s, t, u);
    }
  }

  lemma SearchOnly(test: RangeTest, s: State, t: nat, s': State)
    requires Next(test, s, Search(t), s')
    ensures Caching(s, t) && Caching(s', t) && SameRows(s.tables, s'.tables) && s'.cached == s.cached
    ensures s'.transactions[t].features == s.transactions[t].features && s'.transactions[t].found.Some?
    ensures s'.transactions[t].found.value.clean <==> SearchSucceeds(test, s.tables, s.transactions[t].features)
  {
  }

  /** From its search to its commit a cache transaction has the lock, so nothing the search looked
      at changes. */
  lemma {:induction false} Undisturbed(test: RangeTest, states: seq<State>, steps: seq<Step>, t: nat, k: nat, i: nat)
    requires IsRun(test, states, steps) && k <= i < |states|
    requires forall m :: k <= m <= i ==> t in states[m].transactions
    requires Caching(states[k], t) && states[k].transactions[t].found.Some?
    ensures Untouched(states[k], states[i], t)
    ensures StoredAtScan(states, steps, i) == StoredAtScan(states, steps, k)
  {
    if k < i {
      Undisturbed(test, states, steps, t, k, i - 1);
      HolderInRun(test, states, steps, t, i);
    }
  }

  lemma HolderInRun(test: RangeTest, states: seq<State>, steps: seq<Step>, t: nat, i: nat)
    requires IsRun(test, states, steps) && 0 < i < |states| && t in states[i].transactions
    requires Caching(states[i - 1], t) && states[i - 1].transactions[t].found.Some?
    ensures Untouched(states[i - 1], states[i], t)
    ensures StoredAtScan(states, steps, i) == StoredAtScan(states, steps, i - 1)
  {
    RunInvariant(test, states, steps, i - 1);
    assert NextAt(test, states, steps, i - 1);
    HolderIsAlone(test, states[i - 1], steps[i - 1], states[i], t);
  }

  /** What a search hands to its commit. */
  lemma SearchedThenCommitted(test: RangeTest, states: seq<State>, steps: seq<Step>, k: nat, i: nat)
    requires IsRun(test, states, steps) && IsCacheStep(states, steps, k, i)
    ensures var tx := states[i].transactions[steps[k].t];
            && Caching(states[i], steps[k].t) && tx.found.Some?
            && tx.features == Requested(states[k], steps[k])
            && (tx.found.value.clean <==> Succeeds(test, states[k], steps[k]))
  {
    assert NextAt(test, states, steps, k);
    SearchOnly(test, states[k], steps[k].t, states[k + 1]);
    Undisturbed(test, states, steps, steps[k].t, k + 1, i);
  }

  /** Every commit of a cache transaction has its search. */
  lemma {:induction false} SearchedBefore(test: RangeTest, states: seq<State>, steps: seq<Step>, t: nat, i: nat)
    returns (k: nat)
    requires IsRun(test, states, steps) && i < |states| && Caching(states[i], t) && states[i].transactions[t].found.Some?
    ensures k < i && steps[k] == Search(t) && forall m :: k <= m <= i ==> t in states[m].transactions
  {
    assert i > 0;
    assert NextAt(test, states, steps, i - 1);
    if steps[i - 1] == Search(t) {
      k := i - 1;
    } else {
      k := SearchedBefore(test, states, steps, t, i - 1);
    }
  }

  lemma EveryCommitHasItsSearch(test: RangeTest, states: seq<State>, steps: seq<Step>, i: nat)
    requires IsRun(test, states, steps) && i < |steps| && steps[i].CommitCache?
    ensures exists k: nat :: IsCacheStep(states, steps, k, i)
  {
    assert NextAt(test, states, steps, i);
    var k := SearchedBefore(test, states, steps, steps[i].t, i);
    assert IsCacheStep(states, steps, k, i);
  }

  /** A committed cache step for the feature whose search succeeded. */
  ghost predicate IsCleanStep(test: RangeTest, states: seq<State>, steps: seq<Step>, k: nat, i: nat, nf: NamespacedFeature) {
    IsCacheStep(states, steps, k, i) && nf in Requested(states[k], steps[k]) && Succeeds(test, states[k], steps[k])
  }

  ghost predicate WentThrough(test: RangeTest, states: seq<State>, steps: seq<Step>, j: nat, nf: NamespacedFeature) {
    exists k: nat, i: nat :: i < j && IsCleanStep(test, states, steps, k, i, nf)
  }

  lemma {:induction false} CachedIs(test: RangeTest, states: seq<State>, steps: seq<Step>, j: nat, nf: NamespacedFeature)
    requires IsRun(test, states, steps) && j < |states|
    ensures nf in states[j].cached <==> WentThrough(test, states, steps, j, nf)
  {
    if k: nat, i: nat :| i < j && IsCleanStep(test, states, steps, k, i, nf) {
      SearchedThenCommitted(test, states, steps, k, i);
      assert NextAt(test, states, steps, i);
      CachedStaysCached(test, states, steps, i + 1, j);
    }
    if nf in states[j].cached {
      assert j > 0;
      assert NextAt(test, states, steps, j - 1);
      if nf in states[j - 1].cached {
        CachedIs(test, states, steps, j - 1, nf);
      } else {
        EveryCommitHasItsSearch(test, states, steps, j - 1);
        var k: nat :| IsCacheStep(states, steps, k, j - 1);
        SearchedThenCommitted(test, states, steps, k, j - 1);
        assert IsCleanStep(test, states, steps, k, j - 1, nf);
      }
    }
  }

  // ----- The promise of the cache

  /** In every interleaving, from the commit of a cache step on, a feature of that step is read from
      the cache exactly as a plain scan would find it, if the search of the step succeeds: every
      requested feature is stored and every row it has to look at can be compared. */
  lemma CacheAgreesWithScan(test: RangeTest, states: seq<State>, steps: seq<Step>, k: nat, i: nat, j: nat,
                            nf: NamespacedFeature)
    requires IsRun(test, states, steps) && IsCacheStep(states, steps, k, i) && i < j < |states|
    requires nf in Requested(states[k], steps[k])
    requires SearchSucceeds(test, states[k].tables, Requested(states[k], steps[k]))
    ensures Agrees(test, states[j].tables, nf)
  {
    assert IsCleanStep(test, states, steps, k, i, nf);
    CachedIs(test, states, steps, j, nf);
    AgreesExactlyIf(test, states, steps, j, nf);
  }

  /** The exact condition, at the moment of the search: the cache agrees on a requested feature after
      the step if and only if the search succeeds, an earlier one did, or the feature was stored
      before the scan for every vulnerability that affects it. */
  lemma AgreementAfterCacheStep(test: RangeTest, states: seq<State>, steps: seq<Step>, k: nat, i: nat, nf: NamespacedFeature)
    requires IsRun(test, states, steps) && IsCacheStep(states, steps, k, i) && nf in Requested(states[k], steps[k])
    ensures Agrees(test, states[i + 1].tables, nf) <==>
            || SearchSucceeds(test, states[k].tables, Requested(states[k], steps[k]))
            || WentThrough(test, states, steps, k, nf)
            || StoredInTime(test, states[k].tables, StoredAtScan(states, steps, k), nf)
  {
    CachedIs(test, states, steps, k, nf);
    AgreesExactlyIf(test, states, steps, i + 1, nf);
    CommitOfSearch(test, states, steps, k, i);
    SameScan(test, states[k].tables, states[i + 1].tables, StoredAtScan(states, steps, k), nf);
  }

  lemma SameScan(test: RangeTest, tb: Tables, tb': Tables, seen: Seen, nf: NamespacedFeature)
    requires tb'.vulnerabilities == tb.vulnerabilities && tb'.affected == tb.affected
    ensures StoredInTime(test, tb', seen, nf) <==> StoredInTime(test, tb, seen, nf)
  {
    forall v ensures PlainScan(test, tb', v, nf) == PlainScan(test, tb, v, nf) {
      assert forall a :: Affects(test, tb', v, nf, a) == Affects(test, tb, v, nf, a);
    }
  }

  lemma CommitOfSearch(test: RangeTest, states: seq<State>, steps: seq<Step>, k: nat, i: nat)
    requires IsRun(test, states, steps) && IsCacheStep(states, steps, k, i)
    ensures var tb, tb' := states[k].tables, states[i + 1].tables;
            && tb'.vulnerabilities == tb.vulnerabilities && tb'.affected == tb.affected
            && StoredAtScan(states, steps, i + 1) == StoredAtScan(states, steps, k)
            && states[i + 1].cached ==
               states[k].cached + if Succeeds(test, states[k], steps[k]) then Requested(states[k], steps[k]) else {}
  {
    SearchedThenCommitted(test, states, steps, k, i);
    assert NextAt(test, states, steps, k);
    SearchOnly(test, states[k], steps[k].t, states[k + 1]);
    Undisturbed(test, states, steps, steps[k].t, k + 1, i);
    assert NextAt(test, states, steps, i);
  }
}
