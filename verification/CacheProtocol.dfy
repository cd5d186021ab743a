/** database/pgsql/{vulnerability,feature}.go: the table vulnerability_affected_namespaced_feature
    as a cache of the join of features with vulnerabilities, kept up by concurrent updater and
    worker transactions. Statements see committed rows and their own transaction's writes; the
    SHARE ROW EXCLUSIVE lock on the cache table has one holder until its transaction ends. */
module CacheProtocol {
  import opened Models
  import opened VersionText
  import opened Versions

  /** A row of the feature table; it has no source fields. */
  datatype FeatureRow = FeatureRow(name: string, version: string, format: string)

  datatype NamespacedFeature = NamespacedFeature(feature: FeatureRow, namespace: Namespace)

  datatype VulnerabilityRow = VulnerabilityRow(name: string, namespace: Namespace, deleted: bool)

  datatype AffectedRow = AffectedRow(vulnerability: nat, featureName: string, affectedVersion: string)

  /** An affected feature as the updater holds it in memory, with its namespace's format. */
  datatype Candidate = Candidate(row: AffectedRow, format: string)

  datatype Pair = Pair(vulnerability: nat, feature: NamespacedFeature)

  /** The committed rows. The cache maps a pair, unique by constraint, to its `added_by`. */
  datatype Tables = Tables(
    features: set<NamespacedFeature>,
    vulnerabilities: map<nat, VulnerabilityRow>,
    affected: map<nat, AffectedRow>,
    cache: map<Pair, nat>)

  /** `versionfmt.InRange`: format, version, affected version. */
  type RangeTest = (string, string, string) -> Outcome<bool>

  datatype Dropped = Dropped(rows: set<nat>, pairs: set<Pair>)

  /** What a worker's search found. A search that fails is not noticed: it caches nothing. */
  datatype Found = Found(pairs: map<Pair, nat>, clean: bool)

  datatype Transaction =
    | Update(
        marked: set<nat>,
        dropped: Option<Dropped>,
        vulnerabilities: map<nat, VulnerabilityRow>,
        candidates: map<nat, Candidate>,
        relation: Option<map<Pair, nat>>)
    | Cache(features: set<NamespacedFeature>, found: Option<Found>)

  /** `serial` is the next row id; ids of aborted transactions are not used again. `cached` is
      history: the features that went through a committed cache step with a clean search. */
  datatype State = State(
    tables: Tables,
    transactions: map<nat, Transaction>,
    lock: Option<nat>,
    serial: nat,
    cached: set<NamespacedFeature>)

  // ----- The plain scan, and what the API reads from the cache

  predicate Live(tb: Tables, v: nat) {
    v in tb.vulnerabilities && !tb.vulnerabilities[v].deleted
  }

  predicate SameFeature(nf: NamespacedFeature, namespace: Namespace, row: AffectedRow) {
    nf.namespace == namespace && nf.feature.name == row.featureName
  }

  /** Row `a` makes the live vulnerability `v` affect the feature. */
  predicate Affects(test: RangeTest, tb: Tables, v: nat, nf: NamespacedFeature, a: nat) {
    && Live(tb, v)
    && a in tb.affected && tb.affected[a].vulnerability == v
    && SameFeature(nf, tb.vulnerabilities[v].namespace, tb.affected[a])
    && test(nf.feature.format, nf.feature.version, tb.affected[a].affectedVersion) == Ok(true)
  }

  ghost predicate PlainScan(test: RangeTest, tb: Tables, v: nat, nf: NamespacedFeature) {
    exists a :: Affects(test, tb, v, nf, a)
  }

  /** The join of `FindAffectedNamespacedFeatures`. */
  predicate ReadFromCache(tb: Tables, v: nat, nf: NamespacedFeature) {
    Pair(v, nf) in tb.cache && tb.cache[Pair(v, nf)] in tb.affected && Live(tb, v)
  }

  // ----- The scans

  /** A candidate of an update transaction makes its new vulnerability `v` affect the feature. */
  predicate Matches(test: RangeTest, tx: Transaction, v: nat, nf: NamespacedFeature, a: nat)
    requires tx.Update?
  {
    && v in tx.vulnerabilities
    && a in tx.candidates && tx.candidates[a].row.vulnerability == v
    && SameFeature(nf, tx.vulnerabilities[v].namespace, tx.candidates[a].row)
    && test(tx.candidates[a].format, nf.feature.version, tx.candidates[a].row.affectedVersion) == Ok(true)
  }

  /** `relation` is the set of matches, which are unique per pair. */
  ghost predicate IsRelation(test: RangeTest, features: set<NamespacedFeature>, tx: Transaction, relation: map<Pair, nat>)
    requires tx.Update?
  {
    && (forall p :: p in relation ==> p.feature in features && Matches(test, tx, p.vulnerability, p.feature, relation[p]))
    && (forall v, nf, a :: nf in features && Matches(test, tx, v, nf, a) ==>
          Pair(v, nf) in relation && relation[Pair(v, nf)] == a)
  }

  /** `pairs` holds every pair a committed row makes for the given features, with such a row. */
  ghost predicate IsCacheTable(test: RangeTest, tb: Tables, features: set<NamespacedFeature>, pairs: map<Pair, nat>) {
    && (forall p :: p in pairs ==> p.feature in features && Affects(test, tb, p.vulnerability, p.feature, pairs[p]))
    && (forall v, nf, a :: nf in features && Affects(test, tb, v, nf, a) ==> Pair(v, nf) in pairs)
  }

  predicate Comparable(test: RangeTest, tb: Tables, nf: NamespacedFeature, a: nat)
    requires a in tb.affected
  {
    test(nf.feature.format, nf.feature.version, tb.affected[a].affectedVersion).Ok?
  }

  predicate Candidates(tb: Tables, nf: NamespacedFeature, a: nat) {
    && a in tb.affected && Live(tb, tb.affected[a].vulnerability)
    && SameFeature(nf, tb.vulnerabilities[tb.affected[a].vulnerability].namespace, tb.affected[a])
  }

  /** The search succeeds: every feature is stored and every row to look at can be compared. */
  ghost predicate SearchSucceeds(test: RangeTest, tb: Tables, features: set<NamespacedFeature>) {
    && features <= tb.features
    && forall nf, a :: nf in features && Candidates(tb, nf, a) ==> Comparable(test, tb, nf, a)
  }

  predicate CompareFails(test: RangeTest, tb: Tables, nf: NamespacedFeature, a: nat)
    requires a in tb.affected
  {
    test(nf.feature.format, nf.feature.version, tb.affected[a].affectedVersion).Err?
  }

  /** The search can return an error: a feature is missing, or a row has a malformed version. */
  ghost predicate SearchFails(test: RangeTest, tb: Tables, features: set<NamespacedFeature>) {
    || !(features <= tb.features)
    || exists nf, a :: nf in features && Candidates(tb, nf, a) && CompareFails(test, tb, nf, a)
  }

  /** A search that panics on a row finds nothing: its transaction can only abort. */
  ghost predicate IsFound(test: RangeTest, tb: Tables, features: set<NamespacedFeature>, found: Found) {
    if SearchSucceeds(test, tb, features)
    then found.clean && IsCacheTable(test, tb, features, found.pairs)
    else SearchFails(test, tb, features) && found == Found(map[], false)
  }

  // ----- Steps

  datatype Step =
    | Persist(features: set<NamespacedFeature>)
    | BeginUpdate(t: nat)
    | BeginCache(t: nat, features: set<NamespacedFeature>)
    | Mark(t: nat, v: nat)
    | TakeLock(t: nat)
    | Drop(t: nat)
    | Insert(t: nat, row: VulnerabilityRow, affected: map<nat, Candidate>, serial: nat)
    | Scan(t: nat)
    | Search(t: nat)
    | CommitUpdate(t: nat)
    | CommitCache(t: nat)
    | Abort(t: nat)

  predicate Updating(s: State, t: nat) {
    t in s.transactions && s.transactions[t].Update?
  }

  predicate Caching(s: State, t: nat) {
    t in s.transactions && s.transactions[t].Cache?
  }

  function Put(s: State, t: nat, tx: Transaction): State {
    s.(transactions := s.transactions[t := tx])
  }

  function Finish(s: State, t: nat): State {
    s.(transactions := s.transactions - {t}, lock := if s.lock == Some(t) then None else s.lock)
  }

  /** No other transaction has the row of `v` locked. */
  ghost predicate Unmarked(s: State, v: nat) {
    forall t :: Updating(s, t) ==> v !in s.transactions[t].marked
  }

  function RowsOf(tb: Tables, marked: set<nat>): set<nat> {
    set a | a in tb.affected && tb.affected[a].vulnerability in marked
  }

  function PairsAddedBy(tb: Tables, rows: set<nat>): set<Pair> {
    set p | p in tb.cache && tb.cache[p] in rows
  }

  /** The rows a commit writes. */
  function Committed(tb: Tables, tx: Transaction): Tables
    requires tx.Update? && tx.relation.Some?
  {
    var rows := if tx.dropped.Some? then tx.dropped.value.rows else {};
    var pairs := if tx.dropped.Some? then tx.dropped.value.pairs else {};
    tb.(vulnerabilities :=
          (map v | v in tb.vulnerabilities ::
             if v in tx.marked then tb.vulnerabilities[v].(deleted := true) else tb.vulnerabilities[v])
          + tx.vulnerabilities,
        affected := (tb.affected - rows) + (map a | a in tx.candidates :: tx.candidates[a].row),
        cache := (tb.cache - pairs) + tx.relation.value)
  }

  ghost predicate Next(test: RangeTest, s: State, step: Step, s': State) {
    match step
    case Persist(features) =>
      && (forall nf :: nf in features ==> nf.feature.format == nf.namespace.format)
      && s' == s.(tables := s.tables.(features := s.tables.features + features))
    case BeginUpdate(t) =>
      t !in s.transactions && s' == Put(s, t, Update({}, None, map[], map[], None))
    case BeginCache(t, features) =>
      && t !in s.transactions
      && (forall nf :: nf in features ==> nf.feature.format == nf.namespace.format)
      && s' == Put(s, t, Cache(features, None))
    case Mark(t, v) =>
      && Updating(s, t) && s.lock != Some(t)
      && Live(s.tables, v) && Unmarked(s, v)
      && var tx := s.transactions[t];
         tx.vulnerabilities == map[] && s' == Put(s, t, tx.(marked := tx.marked + {v}))
    case TakeLock(t) =>
      t in s.transactions && s.lock == None && s' == s.(lock := Some(t))
    case Drop(t) =>
      && Updating(s, t) && s.lock == Some(t)
      && var tx := s.transactions[t];
         var rows := RowsOf(s.tables, tx.marked);
         tx.relation == None && s' == Put(s, t, tx.(dropped := Some(Dropped(rows, PairsAddedBy(s.tables, rows)))))
    case Insert(t, row, affected, serial) =>
      && Updating(s, t) && !row.deleted && s.serial < serial
      && (forall a :: a in affected ==>
            && s.serial < a < serial
            && affected[a].row.vulnerability == s.serial && affected[a].format == row.namespace.format)
      && var tx := s.transactions[t];
         && (tx.marked != {} ==> tx.dropped.Some?) && tx.relation == None
         && s' == Put(s, t, tx.(vulnerabilities := tx.vulnerabilities[s.serial := row],
                                candidates := tx.candidates + affected)).(serial := serial)
    case Scan(t) =>
      && Updating(s, t) && s.lock == Some(t)
      && var tx := s.transactions[t];
         && (tx.marked != {} ==> tx.dropped.Some?) && tx.relation == None
         && exists relation ::
              && IsRelation(test, s.tables.features, tx, relation)
              && s' == Put(s, t, tx.(relation := Some(relation)))
    case Search(t) =>
      && Caching(s, t) && s.lock == Some(t)
      && var tx := s.transactions[t];
         tx.found == None && exists found ::
           && IsFound(test, s.tables, tx.features, found)
           && s' == Put(s, t, tx.(found := Some(found)))
    case CommitUpdate(t) =>
      && Updating(s, t) && s.transactions[t].relation.Some?
      && s' == Finish(s, t).(tables := Committed(s.tables, s.transactions[t]))
    case CommitCache(t) =>
      && Caching(s, t) && s.transactions[t].found.Some?
      && var tx := s.transactions[t];
         s' == Finish(s, t).(
                 tables := s.tables.(cache := tx.found.value.pairs + s.tables.cache),
                 cached := if tx.found.value.clean then s.cached + tx.features else s.cached)
    case Abort(t) =>
      t in s.transactions && s' == Finish(s, t)
  }

  // ----- The invariant

  ghost predicate TablesInvariant(test: RangeTest, s: State) {
    var tb := s.tables;
    && (forall nf :: nf in tb.features ==> nf.feature.format == nf.namespace.format)
    && s.cached <= tb.features
    && (forall a :: a in tb.affected ==> a < s.serial && tb.affected[a].vulnerability in tb.vulnerabilities)
    && (forall v :: v in tb.vulnerabilities ==> v < s.serial)
    && (forall p :: p in tb.cache ==>
          p.feature in tb.features && Affects(test, tb, p.vulnerability, p.feature, tb.cache[p]))
    && (forall v, nf, a :: nf in s.cached && Affects(test, tb, v, nf, a) ==> Pair(v, nf) in tb.cache)
  }

  ghost predicate UpdateInvariant(test: RangeTest, s: State, t: nat)
    requires Updating(s, t)
  {
    var tb, tx := s.tables, s.transactions[t];
    && (forall v :: v in tx.marked ==> Live(tb, v))
    && (forall v :: v in tx.vulnerabilities ==>
          v < s.serial && v !in tb.vulnerabilities && !tx.vulnerabilities[v].deleted)
    && (forall a :: a in tx.candidates ==>
          && a < s.serial && a !in tb.affected
          && tx.candidates[a].row.vulnerability in tx.vulnerabilities
          && tx.candidates[a].format == tx.vulnerabilities[tx.candidates[a].row.vulnerability].namespace.format)
    && (tx.dropped.Some? ==>
          && s.lock == Some(t)
          && tx.dropped.value.rows == RowsOf(tb, tx.marked)
          && tx.dropped.value.pairs == PairsAddedBy(tb, tx.dropped.value.rows))
    && (tx.relation.Some? ==>
          && s.lock == Some(t) && (tx.marked != {} ==> tx.dropped.Some?)
          && (forall p :: p in tx.relation.value ==>
                p.feature in tb.features && Matches(test, tx, p.vulnerability, p.feature, tx.relation.value[p]))
          && (forall v, nf, a :: nf in s.cached && Matches(test, tx, v, nf, a) ==> Pair(v, nf) in tx.relation.value))
  }

  ghost predicate CacheInvariant(test: RangeTest, s: State, t: nat)
    requires Caching(s, t)
  {
    var tb, tx := s.tables, s.transactions[t];
    && (forall nf :: nf in tx.features ==> nf.feature.format == nf.namespace.format)
    && (tx.found.Some? ==>
          && s.lock == Some(t)
          && (forall p :: p in tx.found.value.pairs ==>
                p.feature in tb.features && Affects(test, tb, p.vulnerability, p.feature, tx.found.value.pairs[p]))
          && (!tx.found.value.clean ==> tx.found.value.pairs == map[])
          && (tx.found.value.clean ==>
                && tx.features <= tb.features
                && forall v, nf, a ::
                     nf in tx.features && Affects(test, tb, v, nf, a) ==> Pair(v, nf) in tx.found.value.pairs))
  }

  /** Private rows of different transactions have different ids, and a row is marked once. */
  ghost predicate Apart(s: State, t: nat, u: nat)
    requires Updating(s, t) && Updating(s, u)
  {
    && s.transactions[t].marked !! s.transactions[u].marked
    && s.transactions[t].vulnerabilities.Keys !! s.transactions[u].vulnerabilities.Keys
    && s.transactions[t].candidates.Keys !! s.transactions[u].candidates.Keys
  }

  ghost predicate Invariant(test: RangeTest, s: State) {
    && TablesInvariant(test, s)
    && (s.lock.Some? ==> s.lock.value in s.transactions)
    && (forall t :: Updating(s, t) ==> UpdateInvariant(test, s, t))
    && (forall t :: Caching(s, t) ==> CacheInvariant(test, s, t))
    && (forall t, u :: Updating(s, t) && Updating(s, u) && t != u ==> Apart(s, t, u))
  }

  // ----- Every step keeps it

  lemma PersistKeeps(test: RangeTest, s: State, features: set<NamespacedFeature>, s': State)
    requires Invariant(test, s) && Next(test, s, Persist(features), s')
    ensures Invariant(test, s')
  {
    assert forall v, nf, a :: Affects(test, s'.tables, v, nf, a) == Affects(test, s.tables, v, nf, a);
    forall t | Updating(s', t) ensures UpdateInvariant(test, s', t) {
      assert Updating(s, t);
    }
    forall t | Caching(s', t) ensures CacheInvariant(test, s', t) {
      assert Caching(s, t);
    }
    forall t, u | Updating(s', t) && Updating(s', u) && t != u ensures Apart(s', t, u) {
      assert Updating(s, t) && Updating(s, u);
    }
  }

  /** A step that changes one transaction and perhaps takes the free lock for it. */
  lemma PrivateStep(test: RangeTest, s: State, t: nat, s': State)
    requires Invariant(test, s)
    requires s'.tables == s.tables && s'.cached == s.cached && s.serial <= s'.serial
    requires t in s'.transactions && s'.transactions - {t} == s.transactions - {t}
    requires s'.lock == s.lock || (s.lock == None && s'.lock == Some(t))
    requires Updating(s', t) ==> UpdateInvariant(test, s', t)
    requires Updating(s', t) ==> forall u :: Updating(s', u) && u != t ==> Apart(s', t, u)
    requires Caching(s', t) ==> CacheInvariant(test, s', t)
    ensures Invariant(test, s')
  {
    forall u | u != t ensures u in s'.transactions <==> u in s.transactions
                      ensures u in s.transactions ==> s'.transactions[u] == s.transactions[u]
    {
      assert u in s'.transactions <==> u in s'.transactions - {t};
      assert u in s.transactions <==> u in s.transactions - {t};
      assert u in s.transactions ==> (s.transactions - {t})[u] == s.transactions[u];
    }
    forall u | Updating(s', u) && u != t ensures UpdateInvariant(test, s', u) {
      assert Updating(s, u);
    }
    forall u | Caching(s', u) && u != t ensures CacheInvariant(test, s', u) {
      assert Caching(s, u);
    }
    forall u, w | Updating(s', u) && Updating(s', w) && u != w ensures Apart(s', u, w) {
      if u == t {
      } else if w == t {
        assert Apart(s', t, u);
      } else {
        assert Updating(s, u) && Updating(s, w);
      }
    }
  }

  lemma BeginKeeps(test: RangeTest, s: State, step: Step, s': State)
    requires step.BeginUpdate? || step.BeginCache?
    requires Invariant(test, s) && Next(test, s, step, s')
    ensures Invariant(test, s')
  {
    PrivateStep(test, s, step.t, s');
  }

  lemma MarkKeeps(test: RangeTest, s: State, t: nat, v: nat, s': State)
    requires Invariant(test, s) && Next(test, s, Mark(t, v), s')
    ensures Invariant(test, s')
  {
    assert UpdateInvariant(test, s, t);
    forall u | Updating(s', u) && u != t ensures Apart(s', t, u) {
      assert Updating(s, u) && Apart(s, t, u);
    }
    PrivateStep(test, s, t, s');
  }

  lemma TakeLockKeeps(test: RangeTest, s: State, t: nat, s': State)
    requires Invariant(test, s) && Next(test, s, TakeLock(t), s')
    ensures Invariant(test, s')
  {
    forall u | Updating(s', u) && u != t && Updating(s', t) ensures Apart(s', t, u) {
      assert Updating(s, u) && Apart(s, t, u);
    }
    assert Updating(s', t) ==> UpdateInvariant(test, s, t);
    assert Caching(s', t) ==> CacheInvariant(test, s, t);
    PrivateStep(test, s, t, s');
  }

  lemma DropKeeps(test: RangeTest, s: State, t: nat, s': State)
    requires Invariant(test, s) && Next(test, s, Drop(t), s')
    ensures Invariant(test, s')
  {
    assert UpdateInvariant(test, s, t);
    forall u | Updating(s', u) && u != t ensures Apart(s', t, u) {
      assert Updating(s, u) && Apart(s, t, u);
    }
    PrivateStep(test, s, t, s');
  }

  lemma InsertKeeps(test: RangeTest, s: State, step: Step, s': State)
    requires step.Insert?
    requires Invariant(test, s) && Next(test, s, step, s')
    ensures Invariant(test, s')
  {
    var t := step.t;
    assert UpdateInvariant(test, s, t);
    forall u | Updating(s', u) && u != t ensures Apart(s', t, u) {
      assert Updating(s, u) && Apart(s, t, u) && UpdateInvariant(test, s, u);
    }
    PrivateStep(test, s, t, s');
  }

  lemma ScanKeeps(test: RangeTest, s: State, t: nat, s': State)
    requires Invariant(test, s) && Next(test, s, Scan(t), s')
    ensures Invariant(test, s')
  {
    assert UpdateInvariant(test, s, t);
    var tx, tx' := s.transactions[t], s'.transactions[t];
    assert forall v, nf, a :: Matches(test, tx', v, nf, a) == Matches(test, tx, v, nf, a);
    forall u | Updating(s', u) && u != t ensures Apart(s', t, u) {
      assert Updating(s, u) && Apart(s, t, u);
    }
    PrivateStep(test, s, t, s');
  }

  lemma SearchKeeps(test: RangeTest, s: State, t: nat, s': State)
    requires Invariant(test, s) && Next(test, s, Search(t), s')
    ensures Invariant(test, s')
  {
    assert CacheInvariant(test, s, t);
    PrivateStep(test, s, t, s');
  }

  lemma OthersStayApart(test: RangeTest, s: State, t: nat, s': State)
    requires Invariant(test, s) && s'.transactions == s.transactions - {t}
    ensures forall u, w :: Updating(s', u) && Updating(s', w) && u != w ==> Apart(s', u, w)
  {
    forall u, w | Updating(s', u) && Updating(s', w) && u != w ensures Apart(s', u, w) {
      assert Updating(s, u) && Updating(s, w);
    }
  }

  lemma AbortKeeps(test: RangeTest, s: State, t: nat, s': State)
    requires Invariant(test, s) && Next(test, s, Abort(t), s')
    ensures Invariant(test, s')
  {
    forall u | Updating(s', u) ensures UpdateInvariant(test, s', u) {
      assert Updating(s, u);
    }
    forall u | Caching(s', u) ensures CacheInvariant(test, s', u) {
      assert Caching(s, u);
    }
    OthersStayApart(test, s, t, s');
  }

  /** The lock holder is the only transaction with results of a statement behind the lock. */
  lemma OthersWait(test: RangeTest, s: State, t: nat, u: nat)
    requires Invariant(test, s) && s.lock == Some(t) && u in s.transactions && u != t
    ensures Updating(s, u) ==> s.transactions[u].dropped == None && s.transactions[u].relation == None
    ensures Caching(s, u) ==> s.transactions[u].found == None
  {
  }

  /** Other cache transactions have not searched yet. */
  lemma OtherCachesWait(test: RangeTest, s: State, t: nat, s': State)
    requires Invariant(test, s) && s.lock == Some(t) && s'.transactions == s.transactions - {t}
    ensures forall u :: Caching(s', u) ==> CacheInvariant(test, s', u)
  {
    forall u | Caching(s', u) ensures CacheInvariant(test, s', u) {
      OthersWait(test, s, t, u);
      assert Caching(s, u) && CacheInvariant(test, s, u);
    }
  }

  lemma CommitCacheKeeps(test: RangeTest, s: State, t: nat, s': State)
    requires Invariant(test, s) && Next(test, s, CommitCache(t), s')
    ensures Invariant(test, s')
  {
    assert CacheInvariant(test, s, t);
    assert forall v, nf, a :: Affects(test, s'.tables, v, nf, a) == Affects(test, s.tables, v, nf, a);
    forall u | Updating(s', u) ensures UpdateInvariant(test, s', u) {
      OthersWait(test, s, t, u);
      assert Updating(s, u) && UpdateInvariant(test, s, u);
    }
    OtherCachesWait(test, s, t, s');
    OthersStayApart(test, s, t, s');
  }

  /** After a commit a feature is affected by the new matches and by the unmarked old rows. */
  lemma CommittedAffects(test: RangeTest, s: State, t: nat, v: nat, nf: NamespacedFeature, a: nat)
    requires Invariant(test, s) && Updating(s, t) && s.transactions[t].relation.Some?
    requires nf.feature.format == nf.namespace.format
    ensures var tx := s.transactions[t];
            Affects(test, Committed(s.tables, tx), v, nf, a) <==>
            if v in tx.vulnerabilities then Matches(test, tx, v, nf, a)
            else v !in tx.marked && Affects(test, s.tables, v, nf, a)
  {
  }

  lemma CommitUpdateKeepsTables(test: RangeTest, s: State, t: nat, s': State)
    requires Invariant(test, s) && Next(test, s, CommitUpdate(t), s')
    ensures TablesInvariant(test, s')
  {
    var tb, tb', tx := s.tables, s'.tables, s.transactions[t];
    assert UpdateInvariant(test, s, t);
    forall p | p in tb'.cache
      ensures p.feature in tb'.features && Affects(test, tb', p.vulnerability, p.feature, tb'.cache[p])
    {
      CommittedAffects(test, s, t, p.vulnerability, p.feature, tb'.cache[p]);
      if p in tx.relation.value {
      } else {
        assert p in tb.cache && tb'.cache[p] == tb.cache[p];
        assert p.vulnerability !in tx.marked;
      }
    }
    forall v, nf, a | nf in s'.cached && Affects(test, tb', v, nf, a) ensures Pair(v, nf) in tb'.cache {
      CommittedAffects(test, s, t, v, nf, a);
      if v !in tx.vulnerabilities {
        assert Pair(v, nf) in tb.cache;
        assert tx.dropped.Some? ==> Pair(v, nf) !in tx.dropped.value.pairs;
      }
    }
  }

  lemma CommitUpdateKeepsOther(test: RangeTest, s: State, t: nat, s': State, u: nat)
    requires Invariant(test, s) && Next(test, s, CommitUpdate(t), s') && Updating(s', u)
    ensures UpdateInvariant(test, s', u)
  {
    assert UpdateInvariant(test, s, t);
    OthersWait(test, s, t, u);
    assert Updating(s, u) && UpdateInvariant(test, s, u) && Apart(s, t, u);
  }

  lemma CommitUpdateKeeps(test: RangeTest, s: State, t: nat, s': State)
    requires Invariant(test, s) && Next(test, s, CommitUpdate(t), s')
    ensures Invariant(test, s')
  {
    CommitUpdateKeepsTables(test, s, t, s');
    assert UpdateInvariant(test, s, t);
    forall u | Updating(s', u) ensures UpdateInvariant(test, s', u) {
      CommitUpdateKeepsOther(test, s, t, s', u);
    }
    OtherCachesWait(test, s, t, s');
    OthersStayApart(test, s, t, s');
  }

  lemma StepKeeps(test: RangeTest, s: State, step: Step, s': State)
    requires Invariant(test, s) && Next(test, s, step, s')
    ensures Invariant(test, s')
  {
    match step
    case Persist(features) => PersistKeeps(test, s, features, s');
    case BeginUpdate(_) => BeginKeeps(test, s, step, s');
    case BeginCache(_, _) => BeginKeeps(test, s, step, s');
    case Mark(t, v) => MarkKeeps(test, s, t, v, s');
    case TakeLock(t) => TakeLockKeeps(test, s, t, s');
    case Drop(t) => DropKeeps(test, s, t, s');
    case Insert(_, _, _, _) => InsertKeeps(test, s, step, s');
    case Scan(t) => ScanKeeps(test, s, t, s');
    case Search(t) => SearchKeeps(test, s, t, s');
    case CommitUpdate(t) => CommitUpdateKeeps(test, s, t, s');
    case CommitCache(t) => CommitCacheKeeps(test, s, t, s');
    case Abort(t) => AbortKeeps(test, s, t, s');
  }

  // ----- Whole runs

  ghost predicate Init(s: State) {
    s == State(Tables({}, map[], map[], map[]), map[], None, s.serial, {})
  }

  ghost predicate IsRun(test: RangeTest, states: seq<State>, steps: seq<Step>) {
    && |states| == |steps| + 1
    && Init(states[0])
    && forall i :: 0 <= i < |steps| ==> NextAt(test, states, steps, i)
  }

  ghost predicate NextAt(test: RangeTest, states: seq<State>, steps: seq<Step>, i: int) {
    0 <= i < |steps| && |states| == |steps| + 1 && Next(test, states[i], steps[i], states[i + 1])
  }

  lemma {:induction false} RunInvariant(test: RangeTest, states: seq<State>, steps: seq<Step>, i: nat)
    requires IsRun(test, states, steps) && i < |states|
    ensures Invariant(test, states[i])
  {
    if i > 0 {
      RunInvariant(test, states, steps, i - 1);
      assert NextAt(test, states, steps, i - 1);
      StepKeeps(test, states[i - 1], steps[i - 1], states[i]);
    }
  }

  lemma {:induction false} CachedStaysCached(test: RangeTest, states: seq<State>, steps: seq<Step>, i: nat, j: nat)
    requires IsRun(test, states, steps) && i <= j < |states|
    ensures states[i].cached <= states[j].cached
  {
    if i < j {
      CachedStaysCached(test, states, steps, i, j - 1);
      assert NextAt(test, states, steps, j - 1);
    }
  }

  ghost predicate Agrees(test: RangeTest, tb: Tables, nf: NamespacedFeature) {
    forall v :: ReadFromCache(tb, v, nf) <==> PlainScan(test, tb, v, nf)
  }

  /** In every interleaving, whatever is read from the cache is a row of the plain scan. */
  lemma CacheIsSound(test: RangeTest, states: seq<State>, steps: seq<Step>, i: nat, v: nat, nf: NamespacedFeature)
    requires IsRun(test, states, steps) && i < |states|
    requires Pair(v, nf) in states[i].tables.cache
    ensures var tb := states[i].tables;
            ReadFromCache(tb, v, nf) && Affects(test, tb, v, nf, tb.cache[Pair(v, nf)])
  {
    RunInvariant(test, states, steps, i);
  }

  ghost predicate Reachable(test: RangeTest, s: State) {
    exists states, steps :: IsRun(test, states, steps) && states[|states| - 1] == s
  }

  lemma ReachNext(test: RangeTest, s: State, step: Step, s': State)
    requires Reachable(test, s) && Next(test, s, step, s')
    ensures Reachable(test, s')
  {
    var states, steps :| IsRun(test, states, steps) && states[|states| - 1] == s;
    var states', steps' := states + [s'], steps + [step];
    forall i | 0 <= i < |steps'| ensures NextAt(test, states', steps', i) {
      assert i < |steps| ==> NextAt(test, states, steps, i);
    }
    assert IsRun(test, states', steps') && states'[|states'| - 1] == s';
  }

  /** The tables with one vulnerability that affects one feature name. */
  function OneVulnerability(namespace: Namespace, name: string, range: string): Tables {
    Tables({}, map[0 := VulnerabilityRow("v", namespace, false)], map[1 := AffectedRow(0, name, range)], map[])
  }

  const NO_ROWS := Tables({}, map[], map[], map[])

  /** A transaction about to insert that vulnerability. */
  function Inserting(namespace: Namespace, name: string, range: string): Transaction {
    Update({}, None, map[0 := VulnerabilityRow("v", namespace, false)],
           map[1 := Candidate(AffectedRow(0, name, range), namespace.format)], None)
  }

  lemma InsertingIsReachable(test: RangeTest, namespace: Namespace, name: string, range: string)
    ensures Reachable(test, State(NO_ROWS, map[0 := Inserting(namespace, name, range)], Some(0), 2, {}))
  {
    var tx := Inserting(namespace, name, range);
    var s0 := State(NO_ROWS, map[], None, 0, {});
    assert IsRun(test, [s0], []);
    assert Reachable(test, s0);
    var s1 := Put(s0, 0, Update({}, None, map[], map[], None));
    ReachNext(test, s0, BeginUpdate(0), s1);
    var s2 := Put(s1, 0, tx).(serial := 2);
    assert map[] + tx.candidates == tx.candidates;
    ReachNext(test, s1, Insert(0, tx.vulnerabilities[0], tx.candidates, 2), s2);
    var s3 := s2.(lock := Some(0));
    ReachNext(test, s2, TakeLock(0), s3);
    assert s3 == State(NO_ROWS, map[0 := tx], Some(0), 2, {});
  }

  lemma OneVulnerabilityIsReachable(test: RangeTest, namespace: Namespace, name: string, range: string)
    ensures Reachable(test, State(OneVulnerability(namespace, name, range), map[], None, 2, {}))
  {
    var tx := Inserting(namespace, name, range);
    var scanned := tx.(relation := Some(map[]));
    InsertingIsReachable(test, namespace, name, range);
    var s3 := State(NO_ROWS, map[0 := tx], Some(0), 2, {});
    var s4 := Put(s3, 0, scanned);
    assert IsRelation(test, {}, tx, map[]);
    ReachNext(test, s3, Scan(0), s4);
    var s5 := Finish(s4, 0).(tables := Committed(NO_ROWS, scanned));
    ReachNext(test, s4, CommitUpdate(0), s5);
    assert Committed(NO_ROWS, scanned) == OneVulnerability(namespace, name, range);
    assert s5 == State(OneVulnerability(namespace, name, range), map[], None, 2, {});
  }

  lemma CachingIsReachable(test: RangeTest, namespace: Namespace, name: string, range: string, features: set<NamespacedFeature>)
    requires forall nf :: nf in features ==> nf.feature.format == nf.namespace.format
    ensures var tb := OneVulnerability(namespace, name, range).(features := features);
            Reachable(test, State(tb, map[1 := Cache(features, None)], Some(1), 2, {}))
  {
    OneVulnerabilityIsReachable(test, namespace, name, range);
    var s0 := State(OneVulnerability(namespace, name, range), map[], None, 2, {});
    var s1 := s0.(tables := s0.tables.(features := features));
    assert {} + features == features;
    ReachNext(test, s0, Persist(features), s1);
    var s2 := Put(s1, 1, Cache(features, None));
    ReachNext(test, s1, BeginCache(1, features), s2);
    var s3 := s2.(lock := Some(1));
    ReachNext(test, s2, TakeLock(1), s3);
  }

  /** It does happen: one stored version that cannot be compared, searched for together with an
      affected feature, keeps that feature out of the cache. */
  lemma FailedSearchLosesAFeature(test: RangeTest, good: NamespacedFeature, bad: NamespacedFeature, range: string)
    requires good.namespace == bad.namespace && good.feature.name == bad.feature.name
    requires good.feature.format == bad.feature.format == good.namespace.format
    requires test(good.feature.format, good.feature.version, range) == Ok(true)
    requires test(bad.feature.format, bad.feature.version, range).Err?
    ensures exists s, s' ::
              && Reachable(test, s) && Next(test, s, CommitCache(1), s') && good in s.transactions[1].features
              && PlainScan(test, s'.tables, 0, good) && !ReadFromCache(s'.tables, 0, good)
  {
    var both := {good, bad};
    var loaded := OneVulnerability(good.namespace, good.feature.name, range);
    var full := loaded.(features := both);
    CachingIsReachable(test, good.namespace, good.feature.name, range, both);
    var s3 := State(full, map[1 := Cache(both, None)], Some(1), 2, {});
    var s4 := Put(s3, 1, Cache(both, Some(Found(map[], false))));
    assert bad in both && Candidates(full, bad, 1) && !Comparable(test, full, bad, 1) && CompareFails(test, full, bad, 1);
    assert IsFound(test, full, both, Found(map[], false));
    ReachNext(test, s3, Search(1), s4);
    var s5 := Finish(s4, 1);
    assert map[] + full.cache == full.cache;
    assert Next(test, s4, CommitCache(1), s5);
    assert Affects(test, full, 0, good, 1);
  }
}
