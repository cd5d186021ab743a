/** database/pgsql/{vulnerability,feature}.go: the loops behind the table lock that compute the scan
    of an update and the search of a worker, and the one that answers from the cache. */
module CacheScans {
  import opened Models
  import opened Lists
  import opened VersionText
  import opened Versions
  import opened CacheProtocol

  /** One row of a potential-affection query: vulnerability, feature and vulnerability_affected_feature. */
  datatype PotentialRow = PotentialRow(vulnerability: nat, feature: NamespacedFeature, addedBy: nat)

  function PairOf(r: PotentialRow): Pair {
    Pair(r.vulnerability, r.feature)
  }

  predicate IsPotential(features: set<NamespacedFeature>, tx: Transaction, r: PotentialRow)
    requires tx.Update?
  {
    && r.feature in features && r.vulnerability in tx.vulnerabilities && HasCandidate(tx, r)
    && SameFeature(r.feature, tx.vulnerabilities[r.vulnerability].namespace, tx.candidates[r.addedBy].row)
  }

  predicate HasCandidate(tx: Transaction, r: PotentialRow)
    requires tx.Update?
  {
    r.addedBy in tx.candidates && tx.candidates[r.addedBy].row.vulnerability == r.vulnerability
  }

  function Tested(test: RangeTest, tx: Transaction, r: PotentialRow): Outcome<bool>
    requires tx.Update? && HasCandidate(tx, r)
  {
    var c := tx.candidates[r.addedBy];
    test(c.format, r.feature.feature.version, c.row.affectedVersion)
  }

  /** The loop that grows `relation`; no result is the error that ends it. */
  method SelectInRange(test: RangeTest, tx: Transaction, rows: seq<PotentialRow>) returns (r: Option<seq<PotentialRow>>)
    requires tx.Update?
    ensures r.None? <==> exists i :: 0 <= i < |rows| && !(HasCandidate(tx, rows[i]) && Tested(test, tx, rows[i]).Ok?)
    ensures r.Some? ==> forall x :: x in r.value <==> x in rows && HasCandidate(tx, x) && Tested(test, tx, x) == Ok(true)
    ensures r.Some? && NoDuplicates(rows) ==> NoDuplicates(r.value)
  {
    var relation: seq<PotentialRow> := [];
    for i := 0 to |rows|
      invariant forall k :: 0 <= k < i ==> HasCandidate(tx, rows[k]) && Tested(test, tx, rows[k]).Ok?
      invariant forall x :: x in relation <==> x in rows[..i] && HasCandidate(tx, x) && Tested(test, tx, x) == Ok(true)
      invariant NoDuplicates(rows) ==> NoDuplicates(relation)
    {
      assert rows[..i + 1] == rows[..i] + [rows[i]];
      if !HasCandidate(tx, rows[i]) {
        return None;
      }
      match Tested(test, tx, rows[i]) {
        case Ok(in_) =>
          if in_ {
            assert NoDuplicates(rows) ==> rows[i] !in rows[..i];
            relation := relation + [rows[i]];
          }
        case Err(_) => return None;
        case Panics => return None;
      }
    }
    assert rows[..|rows|] == rows;
    return Some(relation);
  }

  /** Plain INSERTs of the relation; a second row for a pair violates the unique constraint. */
  method InsertRelation(relation: seq<PotentialRow>) returns (r: Option<map<Pair, nat>>)
    ensures r.None? <==> exists i, j :: 0 <= i < j < |relation| && PairOf(relation[i]) == PairOf(relation[j])
    ensures r.Some? ==> forall p :: p in r.value <==> exists i :: 0 <= i < |relation| && PairOf(relation[i]) == p
    ensures r.Some? ==> forall i :: 0 <= i < |relation| ==>
              PairOf(relation[i]) in r.value && r.value[PairOf(relation[i])] == relation[i].addedBy
  {
    var inserted: map<Pair, nat> := map[];
    for n := 0 to |relation|
      invariant forall i, j :: 0 <= i < j < n ==> PairOf(relation[i]) != PairOf(relation[j])
      invariant forall p :: p in inserted ==> exists i :: 0 <= i < n && PairOf(relation[i]) == p
      invariant forall i :: 0 <= i < n ==>
                  PairOf(relation[i]) in inserted && inserted[PairOf(relation[i])] == relation[i].addedBy
    {
      if PairOf(relation[n]) in inserted {
        return None;
      }
      inserted := inserted[PairOf(relation[n]) := relation[n].addedBy];
    }
    return Some(inserted);
  }

  /** Two candidates of one vulnerability match one feature. */
  ghost predicate Ambiguous(test: RangeTest, features: set<NamespacedFeature>, tx: Transaction)
    requires tx.Update?
  {
    exists v, nf, a, b :: nf in features && a != b && Matches(test, tx, v, nf, a) && Matches(test, tx, v, nf, b)
  }

  /** `cacheVulnerabiltyAffectedNamespacedFeature` behind the lock, for any order of the rows. It
      computes the relation of the `Scan` step, or fails when a row cannot be compared or a
      vulnerability matches a feature twice. */
  method CacheVulnerabilityAffected(test: RangeTest, features: set<NamespacedFeature>, tx: Transaction,
                                    rows: seq<PotentialRow>)
    returns (r: Option<map<Pair, nat>>)
    requires tx.Update?
    requires NoDuplicates(rows) && forall x :: x in rows <==> IsPotential(features, tx, x)
    ensures r.Some? ==> IsRelation(test, features, tx, r.value)
    ensures r.None? <==>
            (exists x :: IsPotential(features, tx, x) && !Tested(test, tx, x).Ok?) || Ambiguous(test, features, tx)
  {
    var relation := SelectInRange(test, tx, rows);
    if relation.None? {
      var i :| 0 <= i < |rows| && !(HasCandidate(tx, rows[i]) && Tested(test, tx, rows[i]).Ok?);
      assert rows[i] in rows && IsPotential(features, tx, rows[i]);
      return None;
    }
    forall x | IsPotential(features, tx, x) ensures Tested(test, tx, x).Ok? {
      assert x in rows;
    }
    var hits := relation.value;
    forall v, nf, a ensures nf in features && Matches(test, tx, v, nf, a) <==> PotentialRow(v, nf, a) in hits {
      var x := PotentialRow(v, nf, a);
      assert x in rows <==> IsPotential(features, tx, x);
    }
    r := InsertRelation(hits);
    HitsMakeTheRelation(test, features, tx, hits, r);
  }

  lemma HitsMakeTheRelation(test: RangeTest, features: set<NamespacedFeature>, tx: Transaction, hits: seq<PotentialRow>,
                            r: Option<map<Pair, nat>>)
    requires tx.Update? && NoDuplicates(hits)
    requires forall v, nf, a :: nf in features && Matches(test, tx, v, nf, a) <==> PotentialRow(v, nf, a) in hits
    requires r.None? <==> exists i, j :: 0 <= i < j < |hits| && PairOf(hits[i]) == PairOf(hits[j])
    requires r.Some? ==> forall p :: p in r.value <==> exists i :: 0 <= i < |hits| && PairOf(hits[i]) == p
    requires r.Some? ==> forall i :: 0 <= i < |hits| ==>
               PairOf(hits[i]) in r.value && r.value[PairOf(hits[i])] == hits[i].addedBy
    ensures r.Some? ==> IsRelation(test, features, tx, r.value)
    ensures r.None? <==> Ambiguous(test, features, tx)
  {
    forall i | 0 <= i < |hits|
      ensures hits[i].feature in features && Matches(test, tx, hits[i].vulnerability, hits[i].feature, hits[i].addedBy)
    {
      assert PotentialRow(hits[i].vulnerability, hits[i].feature, hits[i].addedBy) in hits;
    }
    if r.Some? {
      forall v, nf, a | nf in features && Matches(test, tx, v, nf, a)
        ensures Pair(v, nf) in r.value && r.value[Pair(v, nf)] == a
      {
        assert PotentialRow(v, nf, a) in hits;
        assert PairOf(PotentialRow(v, nf, a)) == Pair(v, nf);
      }
    }
  }

  /** The range test panics on a row after it has decided every row before. */
  ghost predicate PanicsAt(test: RangeTest, tb: Tables, rows: seq<PotentialRow>, i: int) {
    && 0 <= i < |rows| && Decides(test, tb, rows[..i])
    && rows[i].addedBy in tb.affected
    && !Comparable(test, tb, rows[i].feature, rows[i].addedBy) && !CompareFails(test, tb, rows[i].feature, rows[i].addedBy)
  }

  ghost predicate Decides(test: RangeTest, tb: Tables, rows: seq<PotentialRow>) {
    forall k :: 0 <= k < |rows| ==> rows[k].addedBy in tb.affected && Comparable(test, tb, rows[k].feature, rows[k].addedBy)
  }

  /** `CacheAffectedNamespacedFeatures` behind the lock, for any order of the rows: it computes the
      result of the `Search` step. No result is a panic, which stops the program. Of several rows
      for a pair the first is kept (ON CONFLICT DO NOTHING). */
  method SearchAffecting(test: RangeTest, tb: Tables, features: set<NamespacedFeature>, rows: seq<PotentialRow>)
    returns (found: Option<Found>)
    requires forall x :: x in rows <==>
               && x.feature in features && Candidates(tb, x.feature, x.addedBy)
               && tb.affected[x.addedBy].vulnerability == x.vulnerability
    ensures found.Some? ==> IsFound(test, tb, features, found.value)
    ensures found.None? <==> features <= tb.features && exists i :: PanicsAt(test, tb, rows, i)
  {
    if !(features <= tb.features) {
      return Some(Found(map[], false));
    }
    var cacheTable: map<Pair, nat> := map[];
    for i := 0 to |rows|
      invariant Decides(test, tb, rows[..i])
      invariant forall p :: p in cacheTable ==>
                  p.feature in features && Affects(test, tb, p.vulnerability, p.feature, cacheTable[p])
      invariant forall k :: 0 <= k < i && Affects(test, tb, rows[k].vulnerability, rows[k].feature, rows[k].addedBy) ==>
                  PairOf(rows[k]) in cacheTable
    {
      var x := rows[i];
      assert x in rows && rows[..i + 1] == rows[..i] + [x];
      match test(x.feature.feature.format, x.feature.feature.version, tb.affected[x.addedBy].affectedVersion) {
        case Ok(in_) =>
          if in_ && PairOf(x) !in cacheTable {
            cacheTable := cacheTable[PairOf(x) := x.addedBy];
          }
        case Err(_) =>
          assert CompareFails(test, tb, x.feature, x.addedBy) && !Comparable(test, tb, x.feature, x.addedBy);
          assert forall k :: i < k < |rows| ==> rows[..k][i] == x;
          return Some(Found(map[], false));
        case Panics =>
          assert PanicsAt(test, tb, rows, i);
          return None;
      }
    }
    assert rows[..|rows|] == rows;
    RowsCover(test, tb, features, rows, cacheTable);
    return Some(Found(cacheTable, true));
  }

  lemma RowsCover(test: RangeTest, tb: Tables, features: set<NamespacedFeature>, rows: seq<PotentialRow>,
                  cacheTable: map<Pair, nat>)
    requires forall x :: x in rows <==>
               && x.feature in features && Candidates(tb, x.feature, x.addedBy)
               && tb.affected[x.addedBy].vulnerability == x.vulnerability
    requires Decides(test, tb, rows)
    requires forall k :: 0 <= k < |rows| && Affects(test, tb, rows[k].vulnerability, rows[k].feature, rows[k].addedBy) ==>
               PairOf(rows[k]) in cacheTable
    ensures forall nf, a :: nf in features && Candidates(tb, nf, a) ==> Comparable(test, tb, nf, a)
    ensures forall v, nf, a :: nf in features && Affects(test, tb, v, nf, a) ==> Pair(v, nf) in cacheTable
  {
    forall nf, a | nf in features && Candidates(tb, nf, a) ensures Comparable(test, tb, nf, a) {
      assert PotentialRow(tb.affected[a].vulnerability, nf, a) in rows;
    }
    forall v, nf, a | nf in features && Affects(test, tb, v, nf, a) ensures Pair(v, nf) in cacheTable {
      assert PotentialRow(v, nf, a) in rows;
      assert PairOf(PotentialRow(v, nf, a)) == Pair(v, nf);
    }
  }

  /** A feature as the API returns it: whether it is stored, and the vulnerabilities affecting it. */
  datatype NullableAffected = NullableAffected(valid: bool, affectedBy: seq<nat>)

  /** The result for a feature after some rows of the query: each vulnerability of the feature once. */
  ghost predicate Reported(nf: NamespacedFeature, rows: seq<Pair>, r: NullableAffected) {
    NoDuplicates(r.affectedBy) && forall v :: v in r.affectedBy <==> Pair(v, nf) in rows
  }

  lemma ReportOne(nf: NamespacedFeature, rows: seq<Pair>, row: Pair, r: NullableAffected)
    requires Reported(nf, rows, r) && row !in rows
    ensures Reported(nf, rows + [row],
                     if row.feature == nf then r.(affectedBy := r.affectedBy + [row.vulnerability]) else r)
  {
    assert forall v :: Pair(v, nf) in rows + [row] <==> Pair(v, nf) in rows || row == Pair(v, nf);
  }

  /** Answers a request, in which features may repeat, from the rows of the join, in any order:
      exactly what is read from the cache for each stored feature, and nothing for the others. */
  method FindAffectedNamespacedFeatures(tb: Tables, features: seq<NamespacedFeature>, rows: seq<Pair>)
    returns (results: seq<NullableAffected>)
    requires NoDuplicates(rows)
    requires forall p :: p in rows <==>
               p.feature in features && p.feature in tb.features && ReadFromCache(tb, p.vulnerability, p.feature)
    ensures |results| == |features|
    ensures forall i :: 0 <= i < |features| ==>
              && (results[i].valid <==> features[i] in tb.features)
              && NoDuplicates(results[i].affectedBy)
              && forall v :: v in results[i].affectedBy <==> results[i].valid && ReadFromCache(tb, v, features[i])
  {
    results := seq(|features|, i requires 0 <= i < |features| => NullableAffected(features[i] in tb.features, []));
    for n := 0 to |rows|
      invariant |results| == |features|
      invariant forall i :: 0 <= i < |features| ==>
                  (results[i].valid <==> features[i] in tb.features) && Reported(features[i], rows[..n], results[i])
    {
      assert rows[..n + 1] == rows[..n] + [rows[n]] && rows[n] !in rows[..n];
      results := ReportRow(features, rows[..n], rows[n], results);
    }
    assert rows[..|rows|] == rows;
  }

  /** Appends the vulnerability of one row to the results of every request for its feature. */
  method ReportRow(features: seq<NamespacedFeature>, ghost rows: seq<Pair>, row: Pair, before: seq<NullableAffected>)
    returns (results: seq<NullableAffected>)
    requires |before| == |features| && row !in rows
    requires forall i :: 0 <= i < |features| ==> Reported(features[i], rows, before[i])
    ensures |results| == |features|
    ensures forall i :: 0 <= i < |features| ==>
              results[i].valid == before[i].valid && Reported(features[i], rows + [row], results[i])
  {
    results := before;
    for k := 0 to |features|
      invariant |results| == |features|
      invariant forall i :: 0 <= i < k ==>
                  results[i].valid == before[i].valid && Reported(features[i], rows + [row], results[i])
      invariant forall i :: k <= i < |features| ==> results[i] == before[i]
    {
      ReportOne(features[k], rows, row, results[k]);
      if features[k] == row.feature {
        results := results[k := results[k].(affectedBy := results[k].affectedBy + [row.vulnerability])];
      }
    }
  }
}
