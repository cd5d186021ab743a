/** updater.go and database/pgsql/vulnerability.go: change detection and the upsert of fetched
    vulnerabilities in one transaction. */
module Upsert {
  import opened VersionText
  import opened Models
  import opened Lists

  // ----- isVulnerabilityChanged

  function FeatureKey(f: AffectedFeature): string {
    f.namespace.name + ":" + f.featureName
  }

  function Keys(fs: seq<AffectedFeature>): seq<string> {
    seq(|fs|, i requires 0 <= i < |fs| => FeatureKey(fs[i]))
  }

  function KeysOf(v: Vulnerability): multiset<string> {
    multiset(Keys(v.affected))
  }

  /** Same severity, and affected keys that are free of duplicates and the same. */
  ghost predicate Equivalent(a: Vulnerability, b: Vulnerability) {
    && a.severity == b.severity
    && NoDuplicates(Keys(a.affected)) && NoDuplicates(Keys(b.affected))
    && KeysOf(a) == KeysOf(b)
  }

  lemma {:induction false} DistinctBySize(xs: seq<string>)
    ensures |Elements(xs)| <= |xs|
    ensures |Elements(xs)| == |xs| <==> NoDuplicates(xs)
  {
    if xs != [] {
      var n := |xs| - 1;
      var init := xs[..n];
      DistinctBySize(init);
      assert xs == init + [xs[n]];
      assert Elements(xs) == Elements(init) + {xs[n]};
      if xs[n] in init {
        assert Elements(xs) == Elements(init);
      } else {
        assert xs[n] !in Elements(init);
      }
      assert NoDuplicates(xs) <==> NoDuplicates(init) && xs[n] !in init;
    }
  }

  lemma {:induction false} DistinctMultiset(xs: seq<string>, x: string)
    requires NoDuplicates(xs)
    ensures multiset(xs)[x] == if x in xs then 1 else 0
  {
    if xs != [] {
      var n := |xs| - 1;
      assert xs == xs[..n] + [xs[n]];
      DistinctMultiset(xs[..n], x);
    }
  }

  lemma SubsetOfSameSize<T>(a: set<T>, b: set<T>)
    requires a <= b && |b| <= |a|
    ensures a == b
  {
    var rest := b - a;
    assert b == a + rest && |b| == |a| + |rest|;
  }

  /** Pigeonhole: as many distinct keys as there are keys on the other side, all found there,
      leave no room for a duplicate or another key on the other side. */
  lemma OneDirectionIsEnough(xs: seq<string>, ys: seq<string>)
    requires |xs| == |ys| && NoDuplicates(ys) && forall y :: y in ys ==> y in xs
    ensures NoDuplicates(xs) && multiset(xs) == multiset(ys)
  {
    DistinctBySize(xs);
    DistinctBySize(ys);
    SubsetOfSameSize(Elements(ys), Elements(xs));
    assert |Elements(xs)| == |xs|;
    forall x ensures multiset(xs)[x] == multiset(ys)[x] {
      DistinctMultiset(xs, x);
      DistinctMultiset(ys, x);
      assert x in xs <==> x in Elements(xs);
      assert x in ys <==> x in Elements(ys);
    }
  }

  lemma SameMultisetSameSize(xs: seq<string>, ys: seq<string>)
    requires multiset(xs) == multiset(ys)
    ensures |xs| == |ys| && forall x :: x in xs <==> x in ys
  {
    assert |multiset(xs)| == |xs| && |multiset(ys)| == |ys|;
    forall x ensures x in xs <==> x in ys {
      assert x in xs <==> x in multiset(xs);
      assert x in ys <==> x in multiset(ys);
    }
  }

  /** `same` says that the two pointers are equal; None is a nil pointer. The loop over `b` looks
      at one direction only, yet decides equivalence. */
  method IsVulnerabilityChanged(a: Option<Vulnerability>, b: Option<Vulnerability>, same: bool) returns (changed: bool)
    requires same ==> a == b
    requires a.None? && b.None? ==> same
    ensures changed <==> !same && !(a.Some? && b.Some? && Equivalent(a.value, b.value))
  {
    if same {
      return false;
    } else if a.Some? && b.Some? && a.value.severity == b.value.severity && |a.value.affected| == |b.value.affected| {
      changed := KeysChanged(a.value.affected, b.value.affected);
      return;
    }
    if a.Some? && b.Some? && KeysOf(a.value) == KeysOf(b.value) {
      SameMultisetSameSize(Keys(a.value.affected), Keys(b.value.affected));
    }
    return true;
  }

  method KeysChanged(a: seq<AffectedFeature>, b: seq<AffectedFeature>) returns (changed: bool)
    requires |a| == |b|
    ensures !changed <==> NoDuplicates(Keys(a)) && NoDuplicates(Keys(b)) && multiset(Keys(a)) == multiset(Keys(b))
  {
    var checked: map<string, bool> := map[];
    for i := 0 to |a|
      invariant forall k :: k in checked <==> k in Keys(a)[..i]
      invariant forall k :: k in checked ==> !checked[k]
    {
      assert Keys(a)[..i + 1] == Keys(a)[..i] + [FeatureKey(a[i])];
      checked := checked[FeatureKey(a[i]) := false];
    }
    assert Keys(a)[..|a|] == Keys(a);
    for i := 0 to |b|
      invariant forall k :: k in checked <==> k in Keys(a)
      invariant forall k :: k in checked ==> (checked[k] <==> k in Keys(b)[..i])
      invariant forall k :: k in Keys(b)[..i] ==> k in Keys(a)
      invariant NoDuplicates(Keys(b)[..i])
    {
      var key := FeatureKey(b[i]);
      assert Keys(b)[i] == key;
      if key !in checked || checked[key] {
        if multiset(Keys(a)) == multiset(Keys(b)) {
          SameMultisetSameSize(Keys(a), Keys(b));
          assert key in Keys(b)[..i];
        }
        return true;
      }
      assert Keys(b)[..i + 1] == Keys(b)[..i] + [key];
      checked := checked[key := true];
    }
    assert Keys(b)[..|b|] == Keys(b);
    OneDirectionIsEnough(Keys(a), Keys(b));
    return false;
  }

  // ----- The order of affected rows does not matter

  function Without<T>(xs: seq<T>, i: nat): seq<T>
    requires i < |xs|
  {
    xs[..i] + xs[i + 1..]
  }

  lemma RemoveOne<T>(xs: seq<T>, i: nat)
    requires i < |xs|
    ensures multiset(xs) == multiset(Without(xs, i)) + multiset{xs[i]}
  {
    assert xs == xs[..i] + [xs[i]] + xs[i + 1..];
  }

  lemma KeysWithout(xs: seq<AffectedFeature>, i: nat)
    requires i < |xs|
    ensures multiset(Keys(xs)) == multiset(Keys(Without(xs, i))) + multiset{FeatureKey(xs[i])}
  {
    assert Keys(Without(xs, i)) == Without(Keys(xs), i);
    RemoveOne(Keys(xs), i);
  }

  lemma {:induction false} KeysOfPermutation(xs: seq<AffectedFeature>, ys: seq<AffectedFeature>)
    requires multiset(xs) == multiset(ys)
    ensures multiset(Keys(xs)) == multiset(Keys(ys))
  {
    assert |multiset(xs)| == |xs| && |multiset(ys)| == |ys|;
    if xs == [] {
    } else {
      assert xs[0] in multiset(ys);
      var i :| 0 <= i < |ys| && ys[i] == xs[0];
      RemoveOne(xs, 0);
      RemoveOne(ys, i);
      assert multiset(Without(xs, 0)) == multiset(xs) - multiset{xs[0]};
      assert multiset(Without(ys, i)) == multiset(ys) - multiset{ys[i]};
      KeysOfPermutation(Without(xs, 0), Without(ys, i));
      KeysWithout(xs, 0);
      KeysWithout(ys, i);
    }
  }

  lemma DistinctIsAboutMultisets(xs: seq<string>, ys: seq<string>)
    requires multiset(xs) == multiset(ys) && NoDuplicates(xs)
    ensures NoDuplicates(ys)
  {
    SameMultisetSameSize(xs, ys);
    DistinctBySize(xs);
    DistinctBySize(ys);
    assert Elements(xs) == Elements(ys);
  }

  ghost predicate SameUpToOrder(a: Vulnerability, b: Vulnerability) {
    multiset(a.affected) == multiset(b.affected) && a.(affected := []) == b.(affected := [])
  }

  lemma EquivalentUpToOrder(a: Vulnerability, b: Vulnerability, c: Vulnerability)
    requires SameUpToOrder(a, b)
    ensures Equivalent(a, c) <==> Equivalent(b, c)
  {
    KeysOfPermutation(a.affected, b.affected);
    assert a.(affected := []).severity == b.(affected := []).severity;
    if NoDuplicates(Keys(a.affected)) {
      DistinctIsAboutMultisets(Keys(a.affected), Keys(b.affected));
    }
    if NoDuplicates(Keys(b.affected)) {
      DistinctIsAboutMultisets(Keys(b.affected), Keys(a.affected));
    }
  }

  // ----- What is compared, by names

  predicate SameNames(f: AffectedFeature, g: AffectedFeature) {
    f.namespace.name == g.namespace.name && f.featureName == g.featureName
  }

  ghost predicate ColonFree(v: Vulnerability) {
    forall f :: f in v.affected ==> ':' !in f.featureName
  }

  /** No two affected features have the same namespace and feature name. */
  ghost predicate OneEach(v: Vulnerability) {
    forall i, j :: 0 <= i < j < |v.affected| ==> !SameNames(v.affected[i], v.affected[j])
  }

  /** Every affected feature of `a` has its counterpart in `b`. */
  ghost predicate CoveredBy(a: Vulnerability, b: Vulnerability) {
    forall i :: 0 <= i < |a.affected| ==> exists j :: 0 <= j < |b.affected| && SameNames(a.affected[i], b.affected[j])
  }

  lemma FeatureKeyTells(f: AffectedFeature, g: AffectedFeature)
    requires ':' !in f.featureName && ':' !in g.featureName
    ensures FeatureKey(f) == FeatureKey(g) <==> SameNames(f, g)
  {
    if FeatureKey(f) == FeatureKey(g) {
      var k, m, n := FeatureKey(f), |f.namespace.name|, |g.namespace.name|;
      assert k[m] == ':' && k[n] == ':';
      assert k[..m] == f.namespace.name && k[m + 1..] == f.featureName;
      assert k[..n] == g.namespace.name && k[n + 1..] == g.featureName;
    }
  }

  lemma KeysCovered(a: Vulnerability, b: Vulnerability)
    requires ColonFree(a) && ColonFree(b)
    ensures CoveredBy(a, b) <==> forall x :: x in Keys(a.affected) ==> x in Keys(b.affected)
  {
    forall i, j | 0 <= i < |a.affected| && 0 <= j < |b.affected|
      ensures Keys(a.affected)[i] == Keys(b.affected)[j] <==> SameNames(a.affected[i], b.affected[j])
    {
      FeatureKeyTells(a.affected[i], b.affected[j]);
    }
    if forall x :: x in Keys(a.affected) ==> x in Keys(b.affected) {
      forall i | 0 <= i < |a.affected| ensures exists j :: 0 <= j < |b.affected| && SameNames(a.affected[i], b.affected[j]) {
        assert Keys(a.affected)[i] in Keys(b.affected);
      }
    }
  }

  lemma KeysDistinct(a: Vulnerability)
    requires ColonFree(a)
    ensures NoDuplicates(Keys(a.affected)) <==> OneEach(a)
  {
    forall i, j | 0 <= i < j < |a.affected|
      ensures Keys(a.affected)[i] == Keys(a.affected)[j] <==> SameNames(a.affected[i], a.affected[j])
    {
      FeatureKeyTells(a.affected[i], a.affected[j]);
    }
  }

  lemma SameElementsSameMultiset(xs: seq<string>, ys: seq<string>)
    requires NoDuplicates(xs) && NoDuplicates(ys) && forall x :: x in xs <==> x in ys
    ensures multiset(xs) == multiset(ys)
  {
    forall x ensures multiset(xs)[x] == multiset(ys)[x] {
      DistinctMultiset(xs, x);
      DistinctMultiset(ys, x);
    }
  }

  /** For feature names without a colon, two vulnerabilities are taken for unchanged exactly if their
      severities are equal, neither has a namespace and feature name twice, and each feature of
      either has its counterpart in the other. */
  lemma EquivalentByNames(a: Vulnerability, b: Vulnerability)
    requires ColonFree(a) && ColonFree(b)
    ensures Equivalent(a, b) <==>
            a.severity == b.severity && OneEach(a) && OneEach(b) && CoveredBy(a, b) && CoveredBy(b, a)
  {
    KeysDistinct(a);
    KeysDistinct(b);
    KeysCovered(a, b);
    KeysCovered(b, a);
    if Equivalent(a, b) {
      SameMultisetSameSize(Keys(a.affected), Keys(b.affected));
    } else if OneEach(a) && OneEach(b) && CoveredBy(a, b) && CoveredBy(b, a) {
      SameElementsSameMultiset(Keys(a.affected), Keys(b.affected));
    }
  }

  // ----- The vulnerability table

  datatype AffectedRow = AffectedRow(featureName: string, affectedVersion: string, fixedInVersion: string)

  /** A row whose namespace was unknown when it was written is not attached: its namespace is NULL. */
  datatype Row = Row(
    id: VulnerabilityID, format: string, description: string, link: string, severity: Severity, metadata: string,
    affected: seq<AffectedRow>, attached: bool, deleted: bool)

  function StoredFeature(f: AffectedFeature): AffectedRow {
    AffectedRow(f.featureName, f.affectedVersion, f.fixedInVersion)
  }

  /** The row written for a vulnerability. The type of an affected feature is not stored. */
  function Stored(v: Vulnerability): Row {
    Row(IdOf(v), v.namespace.format, v.description, v.link, v.severity, v.metadata,
        seq(|v.affected|, i requires 0 <= i < |v.affected| => StoredFeature(v.affected[i])), true, false)
  }

  /** The vulnerability read from a row: every affected feature gets its namespace. */
  function Loaded(r: Row): Vulnerability {
    var namespace := Namespace(r.id.namespace, r.format);
    Vulnerability(r.id.name, namespace, r.description, r.link, r.severity, r.metadata,
                  seq(|r.affected|, i requires 0 <= i < |r.affected| =>
                    AffectedFeature("", namespace, r.affected[i].featureName, r.affected[i].fixedInVersion,
                                    r.affected[i].affectedVersion)))
  }

  type LiveRows = map<VulnerabilityID, Row>

  /** The row is found by the queries for a name and a namespace. */
  predicate Visible(r: Row) {
    r.attached && !r.deleted
  }

  /** The visible rows by id. */
  function Live(rows: seq<Row>): LiveRows {
    if rows == [] then map[]
    else
      var r, m := rows[|rows| - 1], Live(rows[..|rows| - 1]);
      if Visible(r) then m[r.id := r] else m
  }

  /** No two visible rows have the same id. */
  ghost predicate LiveUnique(rows: seq<Row>) {
    forall i, j :: 0 <= i < j < |rows| && Visible(rows[i]) && Visible(rows[j]) ==> rows[i].id != rows[j].id
  }

  lemma {:induction false} LiveIs(rows: seq<Row>, id: VulnerabilityID)
    requires LiveUnique(rows)
    ensures id in Live(rows) <==> exists i :: 0 <= i < |rows| && Visible(rows[i]) && rows[i].id == id
    ensures forall i :: 0 <= i < |rows| && Visible(rows[i]) && rows[i].id == id ==>
              id in Live(rows) && Live(rows)[id] == rows[i]
  {
    if rows != [] {
      LiveIs(rows[..|rows| - 1], id);
    }
  }

  function Ids(vs: seq<Vulnerability>): seq<VulnerabilityID> {
    seq(|vs|, i requires 0 <= i < |vs| => IdOf(vs[i]))
  }

  function Inserted(vs: seq<Vulnerability>): LiveRows {
    if vs == [] then map[]
    else Inserted(vs[..|vs| - 1])[IdOf(vs[|vs| - 1]) := Stored(vs[|vs| - 1])]
  }

  lemma {:induction false} InsertedIs(vs: seq<Vulnerability>, i: nat)
    requires NoDuplicates(Ids(vs)) && i < |vs|
    ensures IdOf(vs[i]) in Inserted(vs) && Inserted(vs)[IdOf(vs[i])] == Stored(vs[i])
  {
    var n := |vs| - 1;
    assert Ids(vs[..n]) == Ids(vs)[..n];
    if i < n {
      InsertedIs(vs[..n], i);
      assert Ids(vs)[i] != Ids(vs)[n];
    }
  }

  lemma {:induction false} InsertedKeys(vs: seq<Vulnerability>, id: VulnerabilityID)
    ensures id in Inserted(vs) <==> exists i :: 0 <= i < |vs| && IdOf(vs[i]) == id
  {
    if vs != [] {
      var n := |vs| - 1;
      InsertedKeys(vs[..n], id);
      if i :| 0 <= i < n && IdOf(vs[i]) == id {
        assert vs[..n][i] == vs[i];
      }
    }
  }

  /** The vulnerabilities whose namespace is stored; the rows of the others cannot be found. */
  function Known(vs: seq<Vulnerability>, namespaces: set<Namespace>): seq<Vulnerability> {
    if vs == [] then []
    else
      var v, rest := vs[|vs| - 1], Known(vs[..|vs| - 1], namespaces);
      if v.namespace in namespaces then rest + [v] else rest
  }

  lemma {:induction false} KnownAre(vs: seq<Vulnerability>, namespaces: set<Namespace>, v: Vulnerability)
    ensures v in Known(vs, namespaces) <==> v in vs && v.namespace in namespaces
    decreases |vs|
  {
    if vs != [] {
      KnownAre(vs[..|vs| - 1], namespaces, v);
      assert vs == vs[..|vs| - 1] + [vs[|vs| - 1]];
    }
  }

  lemma {:induction false} AllKnown(vs: seq<Vulnerability>, namespaces: set<Namespace>)
    requires forall v :: v in vs ==> v.namespace in namespaces
    ensures Known(vs, namespaces) == vs
    decreases |vs|
  {
    if vs != [] {
      AllKnown(vs[..|vs| - 1], namespaces);
    }
  }

  /** A namespace name has at most one version format, so that a query for its id has one row. */
  predicate OneFormat(namespaces: set<Namespace>, name: string) {
    forall a :: a in namespaces && a.name == name ==> forall b :: b in namespaces && b.name == name ==> a == b
  }

  /** The first visible row of an id; the number of rows if there is none. */
  method FindRow(rows: seq<Row>, id: VulnerabilityID) returns (r: nat)
    ensures r <= |rows| && forall i :: 0 <= i < r ==> !Visible(rows[i]) || rows[i].id != id
    ensures r < |rows| ==> Visible(rows[r]) && rows[r].id == id
  {
    r := 0;
    while r < |rows| && !(Visible(rows[r]) && rows[r].id == id)
      invariant r <= |rows| && forall i :: 0 <= i < r ==> !Visible(rows[i]) || rows[i].id != id
    {
      r := r + 1;
    }
  }

  /** A pgsql session on the namespace and vulnerability tables. */
  class Session {
    var namespaces: set<Namespace>
    var rows: seq<Row>

    ghost predicate Valid()
      reads this
    {
      LiveUnique(rows)
    }

    constructor ()
      ensures Valid() && rows == [] && namespaces == {}
    {
      namespaces, rows := {}, [];
    }

    /** Adds the namespaces that are missing, unless one lacks a name or a format. */
    method PersistNamespaces(more: seq<Namespace>) returns (ok: bool)
      modifies this`namespaces
      ensures ok <==> forall ns :: ns in more ==> ns.name != "" && ns.format != ""
      ensures namespaces == old(namespaces) + if ok then Elements(more) else {}
    {
      for n := 0 to |more|
        invariant forall ns :: ns in more[..n] ==> ns.name != "" && ns.format != ""
      {
        if more[n].name == "" || more[n].format == "" {
          return false;
        }
        assert more[..n + 1] == more[..n] + [more[n]];
      }
      assert more[..|more|] == more;
      namespaces := namespaces + set ns | ns in more;
      return true;
    }

    /** The live row of each id; affected features come in no particular order. */
    method FindVulnerabilities(ids: seq<VulnerabilityID>) returns (found: seq<Option<Vulnerability>>)
      requires Valid()
      ensures |found| == |ids|
      ensures forall i :: 0 <= i < |ids| ==>
                && (found[i].Some? <==> ids[i] in Live(rows))
                && (found[i].Some? ==> SameUpToOrder(found[i].value, Loaded(Live(rows)[ids[i]])))
    {
      found := [];
      for n := 0 to |ids|
        invariant |found| == n
        invariant forall i :: 0 <= i < n ==>
                    && (found[i].Some? <==> ids[i] in Live(rows))
                    && (found[i].Some? ==> SameUpToOrder(found[i].value, Loaded(Live(rows)[ids[i]])))
      {
        LiveIs(rows, ids[n]);
        var r := FindRow(rows, ids[n]);
        found := found + [if r < |rows| then Some(Loaded(rows[r])) else None];
      }
    }

    /** Marks the live row of each id as deleted, which also drops its affected features. The query
        for the namespace fails if the namespace has two formats. */
    method DeleteVulnerabilities(ids: seq<VulnerabilityID>) returns (ok: bool)
      requires Valid()
      modifies this`rows
      ensures Valid()
      ensures ok <==>
              && NoDuplicates(ids)
              && forall i :: 0 <= i < |ids| ==> ids[i] in old(Live(rows)) && OneFormat(namespaces, ids[i].namespace)
      ensures ok ==> Live(rows) == old(Live(rows)) - (set id | id in ids)
    {
      for n := 0 to |ids|
        invariant Valid()
        invariant NoDuplicates(ids[..n])
        invariant forall i :: 0 <= i < n ==> ids[i] in old(Live(rows)) && OneFormat(namespaces, ids[i].namespace)
        invariant Live(rows) == old(Live(rows)) - (set id | id in ids[..n])
      {
        LiveIs(rows, ids[n]);
        assert ids[..n + 1] == ids[..n] + [ids[n]];
        if !OneFormat(namespaces, ids[n].namespace) {
          return false;
        }
        var r := FindRow(rows, ids[n]);
        if r == |rows| {
          assert ids[n] in old(Live(rows)) ==> ids[n] in ids[..n];
          return false;
        }
        DeleteRow(rows, r);
        rows := rows[r := rows[r].(deleted := true, affected := [])];
      }
      assert ids[..|ids|] == ids;
      return true;
    }

    /** Appends a row for each vulnerability; an id may not occur twice in the request, and the
        table takes known severities only. The request is expected, but not checked, to hold no id
        that is live already and no unknown namespace. `caches` says whether the cache of affected
        features takes the new rows, which the cache protocol models. */
    method InsertVulnerabilities(vs: seq<Vulnerability>, caches: bool) returns (ok: bool)
      requires Valid()
      modifies this`rows
      ensures ok <==> caches && NoDuplicates(Ids(vs)) && forall v :: v in vs ==> !v.severity.Other?
      ensures ok && (forall v :: v in vs ==> IdOf(v) !in old(Live(rows))) ==>
                Valid() && Live(rows) == old(Live(rows)) + Inserted(Known(vs, namespaces))
    {
      var unique := CheckUnique(vs);
      if !unique {
        return false;
      }
      ghost var absent := forall v :: v in vs ==> IdOf(v) !in old(Live(rows));
      for n := 0 to |vs|
        invariant forall v :: v in vs[..n] ==> !v.severity.Other?
        invariant absent ==> HasInserted(rows, old(Live(rows)), vs[..n], namespaces)
      {
        assert vs[..n + 1] == vs[..n] + [vs[n]] && vs[n] in vs;
        if vs[n].severity.Other? {
          return false;
        }
        if absent {
          InsertRow(rows, old(Live(rows)), vs, n, namespaces);
        }
        rows := rows + [Stored(vs[n]).(attached := vs[n].namespace in namespaces)];
      }
      assert vs[..|vs|] == vs;
      return caches;
    }
  }

  /** The loop that looks for an id that occurs twice. */
  method CheckUnique(vs: seq<Vulnerability>) returns (ok: bool)
    ensures ok <==> NoDuplicates(Ids(vs))
  {
    var seen: set<VulnerabilityID> := {};
    for n := 0 to |vs|
      invariant seen == set i | 0 <= i < n :: IdOf(vs[i])
      invariant NoDuplicates(Ids(vs)[..n])
    {
      if IdOf(vs[n]) in seen {
        var i :| 0 <= i < n && IdOf(vs[i]) == IdOf(vs[n]);
        assert Ids(vs)[i] == Ids(vs)[n];
        return false;
      }
      seen := seen + {IdOf(vs[n])};
    }
    assert Ids(vs)[..|vs|] == Ids(vs);
    return true;
  }

  /** The live rows are the old ones and those of the vulnerabilities in a stored namespace. */
  ghost predicate HasInserted(rows: seq<Row>, m: LiveRows, vs: seq<Vulnerability>, namespaces: set<Namespace>) {
    LiveUnique(rows) && Live(rows) == m + Inserted(Known(vs, namespaces))
  }

  lemma InsertRow(rows: seq<Row>, m: LiveRows, vs: seq<Vulnerability>, n: nat, namespaces: set<Namespace>)
    requires NoDuplicates(Ids(vs)) && n < |vs| && IdOf(vs[n]) !in m
    requires HasInserted(rows, m, vs[..n], namespaces)
    ensures HasInserted(rows + [Stored(vs[n]).(attached := vs[n].namespace in namespaces)], m, vs[..n + 1], namespaces)
  {
    var v, known := vs[n], Known(vs[..n], namespaces);
    var row := Stored(v).(attached := v.namespace in namespaces);
    assert vs[..n + 1][..n] == vs[..n];
    NotYetKnown(vs, n, namespaces);
    AppendRow(rows, row);
    if v.namespace in namespaces {
      InsertedOneMore(known, v);
      MoreOnTheRight(m, Inserted(known), IdOf(v), row);
    }
  }

  lemma AppendRow(rows: seq<Row>, row: Row)
    requires LiveUnique(rows) && (Visible(row) ==> row.id !in Live(rows))
    ensures LiveUnique(rows + [row])
    ensures Live(rows + [row]) == if Visible(row) then Live(rows)[row.id := row] else Live(rows)
  {
    assert (rows + [row])[..|rows|] == rows;
    LiveIs(rows, row.id);
  }

  lemma MoreOnTheRight(m: LiveRows, n: LiveRows, id: VulnerabilityID, row: Row)
    ensures m + n[id := row] == (m + n)[id := row]
  {
  }

  lemma InsertedOneMore(vs: seq<Vulnerability>, v: Vulnerability)
    ensures Inserted(vs + [v]) == Inserted(vs)[IdOf(v) := Stored(v)]
  {
    assert (vs + [v])[..|vs|] == vs;
  }

  lemma NotYetKnown(vs: seq<Vulnerability>, n: nat, namespaces: set<Namespace>)
    requires NoDuplicates(Ids(vs)) && n < |vs|
    ensures IdOf(vs[n]) !in Inserted(Known(vs[..n], namespaces))
  {
    var known := Known(vs[..n], namespaces);
    InsertedKeys(known, IdOf(vs[n]));
    forall k | 0 <= k < |known| ensures IdOf(known[k]) != IdOf(vs[n]) {
      KnownAre(vs[..n], namespaces, known[k]);
      var i :| 0 <= i < n && vs[..n][i] == known[k];
      assert Ids(vs)[i] != Ids(vs)[n];
    }
  }

  lemma {:induction false} DeleteRow(rows: seq<Row>, r: nat)
    requires LiveUnique(rows) && r < |rows| && Visible(rows[r])
    ensures var rows' := rows[r := rows[r].(deleted := true, affected := [])];
            LiveUnique(rows') && Live(rows') == Live(rows) - {rows[r].id}
  {
    var rows' := rows[r := rows[r].(deleted := true, affected := [])];
    var n := |rows| - 1;
    if r == n {
      assert rows'[..n] == rows[..n];
      LiveIs(rows[..n], rows[n].id);
    } else {
      assert rows'[..n] == rows[..n][r := rows'[r]];
      DeleteRow(rows[..n], r);
    }
  }

  // ----- findVulnerabilityChanges

  /** `before` and `after` are the pointers `old` and `new` of a vulnerabilityChange. */
  datatype Change = Change(before: Option<Vulnerability>, after: Option<Vulnerability>)

  type Changes = map<VulnerabilityID, Change>

  function ChangeId(c: Change): VulnerabilityID
    requires c.before.Some? || c.after.Some?
  {
    if c.before.Some? then IdOf(c.before.value) else IdOf(c.after.value)
  }

  function Olds(olds: seq<Vulnerability>): (r: Changes)
    ensures forall id :: id in r ==> r[id].before.Some? && r[id].after.None? && IdOf(r[id].before.value) == id
  {
    if olds == [] then map[]
    else
      var o := olds[|olds| - 1];
      Olds(olds[..|olds| - 1])[IdOf(o) := Change(Some(o), None)]
  }

  ghost function WithNew(m: Changes, v: Vulnerability): Changes {
    if IdOf(v) !in m then m[IdOf(v) := Change(None, Some(v))]
    else if m[IdOf(v)].before.Some? && Equivalent(m[IdOf(v)].before.value, v) then m - {IdOf(v)}
    else m[IdOf(v) := m[IdOf(v)].(after := Some(v))]
  }

  ghost function ChangesOf(olds: seq<Vulnerability>, news: seq<Vulnerability>): Changes {
    if news == [] then Olds(olds)
    else WithNew(ChangesOf(olds, news[..|news| - 1]), news[|news| - 1])
  }

  /** `list` holds every change of `m` once, in some order. */
  ghost predicate ListsChanges(list: seq<Change>, m: Changes) {
    && (forall i :: 0 <= i < |list| ==>
          && (list[i].before.Some? || list[i].after.Some?)
          && ChangeId(list[i]) in m && m[ChangeId(list[i])] == list[i])
    && (forall id :: id in m ==> m[id] in list)
    && (forall i, j :: 0 <= i < j < |list| ==> ChangeId(list[i]) != ChangeId(list[j]))
  }

  ghost predicate Keyed(m: Changes) {
    forall id :: id in m ==> (m[id].before.Some? || m[id].after.Some?) && ChangeId(m[id]) == id
  }

  lemma {:induction false} OldsAre(olds: seq<Vulnerability>, id: VulnerabilityID)
    ensures id in Olds(olds) <==> exists i :: 0 <= i < |olds| && IdOf(olds[i]) == id
    ensures id in Olds(olds) ==> Olds(olds)[id].before.value in olds
  {
    if olds != [] {
      var n := |olds| - 1;
      OldsAre(olds[..n], id);
      if i :| 0 <= i < n && IdOf(olds[i]) == id {
        assert olds[..n][i] == olds[i];
      }
    }
  }

  method FindVulnerabilityChanges(olds: seq<Vulnerability>, news: seq<Vulnerability>) returns (r: Option<seq<Change>>)
    ensures r.None? <==> !NoDuplicates(Ids(olds))
    ensures r.Some? ==> ListsChanges(r.value, ChangesOf(olds, news))
  {
    var first := EnterOlds(olds);
    if first.None? {
      return None;
    }
    var changes := EnterNews(olds, first.value, news);
    var list := ListChanges(changes);
    return Some(list);
  }

  lemma EnteredIds(olds: seq<Vulnerability>, n: nat)
    requires n < |olds|
    ensures IdOf(olds[n]) in Olds(olds[..n]) <==> IdOf(olds[n]) in Ids(olds)[..n]
    ensures IdOf(olds[n]) in Ids(olds)[..n] ==> !NoDuplicates(Ids(olds))
  {
    var id := IdOf(olds[n]);
    OldsAre(olds[..n], id);
    if i :| 0 <= i < n && IdOf(olds[..n][i]) == id {
      assert Ids(olds)[..n][i] == id;
    }
    if id in Ids(olds)[..n] {
      var i :| 0 <= i < n && Ids(olds)[..n][i] == id;
      assert IdOf(olds[..n][i]) == id && Ids(olds)[i] == Ids(olds)[n];
    }
  }

  /** The loop over the old vulnerabilities. */
  method EnterOlds(olds: seq<Vulnerability>) returns (r: Option<Changes>)
    ensures r == if NoDuplicates(Ids(olds)) then Some(Olds(olds)) else None
  {
    var changes: Changes := map[];
    for n := 0 to |olds|
      invariant changes == Olds(olds[..n]) && NoDuplicates(Ids(olds)[..n])
    {
      EnteredIds(olds, n);
      if IdOf(olds[n]) in changes {
        return None;
      }
      assert Ids(olds)[..n + 1] == Ids(olds)[..n] + [IdOf(olds[n])];
      assert olds[..n + 1][..n] == olds[..n];
      changes := changes[IdOf(olds[n]) := Change(Some(olds[n]), None)];
    }
    assert Ids(olds)[..|olds|] == Ids(olds) && olds[..|olds|] == olds;
    return Some(changes);
  }

  /** The loop over the new vulnerabilities. */
  method EnterNews(ghost olds: seq<Vulnerability>, first: Changes, news: seq<Vulnerability>) returns (changes: Changes)
    requires first == Olds(olds)
    ensures changes == ChangesOf(olds, news) && Keyed(changes)
  {
    changes := first;
    for n := 0 to |news|
      invariant changes == ChangesOf(olds, news[..n]) && Keyed(changes)
    {
      assert news[..n + 1][..n] == news[..n];
      var v := news[n];
      if IdOf(v) in changes {
        var change := changes[IdOf(v)];
        var changed := IsVulnerabilityChanged(change.before, Some(v), false);
        if changed {
          changes := changes[IdOf(v) := change.(after := Some(v))];
        } else {
          changes := changes - {IdOf(v)};
        }
      } else {
        changes := changes[IdOf(v) := Change(None, Some(v))];
      }
    }
    assert news[..|news|] == news;
  }

  method ListChanges(changes: Changes) returns (list: seq<Change>)
    requires Keyed(changes)
    ensures ListsChanges(list, changes)
  {
    list := [];
    var todo := changes.Keys;
    while todo != {}
      invariant todo <= changes.Keys
      invariant ListsChanges(list, changes - todo)
    {
      var id :| id in todo;
      ghost var listed, rest := list, changes - todo;
      list := list + [changes[id]];
      todo := todo - {id};
      forall k | k in changes - todo ensures (changes - todo)[k] in list {
        assert k != id ==> k in rest && rest[k] in listed;
        assert list[|listed|] == changes[id];
      }
    }
    assert changes - {} == changes;
  }

  // ----- updateVulnerabilities

  /** The vulnerability is not live, or differs from the live row. */
  ghost predicate Outdated(m: LiveRows, v: Vulnerability) {
    !(IdOf(v) in m && Equivalent(Loaded(m[IdOf(v)]), v))
  }

  /** The live rows after an update: outdated ids get the new row, everything else stays. */
  ghost function Upserted(m: LiveRows, vs: seq<Vulnerability>): LiveRows {
    if vs == [] then m
    else
      var v, rest := vs[|vs| - 1], Upserted(m, vs[..|vs| - 1]);
      if Outdated(m, v) then rest[IdOf(v) := Stored(v)] else rest
  }

  lemma {:induction false} UpsertedIs(m: LiveRows, vs: seq<Vulnerability>, i: nat)
    requires NoDuplicates(Ids(vs)) && i < |vs|
    ensures IdOf(vs[i]) in Upserted(m, vs)
    ensures Upserted(m, vs)[IdOf(vs[i])] == if Outdated(m, vs[i]) then Stored(vs[i]) else m[IdOf(vs[i])]
  {
    var n := |vs| - 1;
    assert Ids(vs[..n]) == Ids(vs)[..n];
    if i < n {
      UpsertedIs(m, vs[..n], i);
      assert Ids(vs)[i] != Ids(vs)[n];
    } else {
      forall k | 0 <= k < n ensures IdOf(vs[..n][k]) != IdOf(vs[n]) {
        assert Ids(vs)[k] != Ids(vs)[n];
      }
      UpsertedElsewhere(m, vs[..n], IdOf(vs[n]));
    }
  }

  lemma {:induction false} UpsertedElsewhere(m: LiveRows, vs: seq<Vulnerability>, id: VulnerabilityID)
    requires forall i :: 0 <= i < |vs| ==> IdOf(vs[i]) != id
    ensures id in Upserted(m, vs) <==> id in m
    ensures id in m ==> Upserted(m, vs)[id] == m[id]
  {
    if vs != [] {
      UpsertedElsewhere(m, vs[..|vs| - 1], id);
    }
  }

  /** The changes are one per outdated vulnerability, with the live one, if any, as `before`. */
  ghost predicate IsPlan(m: LiveRows, vs: seq<Vulnerability>, changes: seq<Change>) {
    && (forall i :: 0 <= i < |changes| ==>
          && changes[i].after.Some? && changes[i].after.value in vs && Outdated(m, changes[i].after.value)
          && (changes[i].before.Some? <==> IdOf(changes[i].after.value) in m)
          && (changes[i].before.Some? ==> SameUpToOrder(changes[i].before.value, Loaded(m[IdOf(changes[i].after.value)]))))
    && (forall v :: v in vs && Outdated(m, v) ==> exists i :: 0 <= i < |changes| && changes[i].after == Some(v))
    && (forall i, j :: 0 <= i < j < |changes| ==> IdOf(changes[i].after.value) != IdOf(changes[j].after.value))
  }

  /** The old vulnerabilities found for the requested ones, in their order. */
  ghost predicate FoundFor(m: LiveRows, vs: seq<Vulnerability>, olds: seq<Vulnerability>) {
    && NoDuplicates(Ids(olds))
    && (forall o :: o in olds ==> IdOf(o) in m && SameUpToOrder(o, Loaded(m[IdOf(o)])) && IdOf(o) in Ids(vs))
    && (forall v :: v in vs && IdOf(v) in m ==> exists i :: 0 <= i < |olds| && IdOf(olds[i]) == IdOf(v))
  }

  lemma {:induction false} ChangesElsewhere(olds: seq<Vulnerability>, news: seq<Vulnerability>, id: VulnerabilityID)
    requires forall i :: 0 <= i < |news| ==> IdOf(news[i]) != id
    ensures id in ChangesOf(olds, news) <==> id in Olds(olds)
    ensures id in Olds(olds) ==> ChangesOf(olds, news)[id] == Olds(olds)[id]
    decreases |news|
  {
    if news != [] {
      ChangesElsewhere(olds, news[..|news| - 1], id);
    }
  }

  /** The change of an id with an old and a new vulnerability. */
  ghost predicate IsChange(olds: seq<Vulnerability>, changes: Changes, v: Vulnerability) {
    var id := IdOf(v);
    var same := id in Olds(olds) && Equivalent(Olds(olds)[id].before.value, v);
    && (id in changes <==> !same)
    && (!same ==> changes[id] == Change(if id in Olds(olds) then Olds(olds)[id].before else None, Some(v)))
  }

  lemma {:induction false} ChangesAt(olds: seq<Vulnerability>, news: seq<Vulnerability>, i: nat)
    requires NoDuplicates(Ids(news)) && i < |news|
    ensures IsChange(olds, ChangesOf(olds, news), news[i])
    decreases |news|
  {
    var n := |news| - 1;
    assert Ids(news[..n]) == Ids(news)[..n];
    if i < n {
      ChangesAt(olds, news[..n], i);
      assert Ids(news)[i] != Ids(news)[n];
    } else {
      forall k | 0 <= k < n ensures IdOf(news[..n][k]) != IdOf(news[n]) {
        assert Ids(news)[k] != Ids(news)[n];
      }
      ChangesElsewhere(olds, news[..n], IdOf(news[n]));
    }
  }

  /** With unique ids on both sides, what `ChangesOf` holds for an id. */
  lemma ChangesAre(olds: seq<Vulnerability>, news: seq<Vulnerability>, id: VulnerabilityID)
    requires NoDuplicates(Ids(news))
    ensures (forall i :: 0 <= i < |news| ==> IdOf(news[i]) != id) ==>
              (id in ChangesOf(olds, news) <==> id in Olds(olds)) &&
              (id in Olds(olds) ==> ChangesOf(olds, news)[id] == Olds(olds)[id])
    ensures forall i :: 0 <= i < |news| && IdOf(news[i]) == id ==>
              var same := id in Olds(olds) && Equivalent(Olds(olds)[id].before.value, news[i]);
              && (id in ChangesOf(olds, news) <==> !same)
              && (!same ==> ChangesOf(olds, news)[id] ==
                              Change(if id in Olds(olds) then Olds(olds)[id].before else None, Some(news[i])))
  {
    if i :| 0 <= i < |news| && IdOf(news[i]) == id {
      forall k | 0 <= k < |news| && IdOf(news[k]) == id ensures k == i {
        assert Ids(news)[k] == Ids(news)[i];
      }
      ChangesAt(olds, news, i);
    } else {
      ChangesElsewhere(olds, news, id);
    }
  }

  lemma ChangeFor(m: LiveRows, vs: seq<Vulnerability>, olds: seq<Vulnerability>, k: nat)
    requires NoDuplicates(Ids(vs)) && FoundFor(m, vs, olds) && k < |vs|
    ensures var id, changes := IdOf(vs[k]), ChangesOf(olds, vs);
            && (id in changes <==> Outdated(m, vs[k]))
            && (id in changes ==>
                  && changes[id].after == Some(vs[k])
                  && (changes[id].before.Some? <==> id in m)
                  && (changes[id].before.Some? ==>
                        && IdOf(changes[id].before.value) == id
                        && SameUpToOrder(changes[id].before.value, Loaded(m[id]))))
  {
    var id := IdOf(vs[k]);
    ChangesAre(olds, vs, id);
    OldsAre(olds, id);
    if id in Olds(olds) {
      EquivalentUpToOrder(Olds(olds)[id].before.value, Loaded(m[id]), vs[k]);
    }
  }

  lemma ChangedIdsAreRequested(m: LiveRows, vs: seq<Vulnerability>, olds: seq<Vulnerability>, id: VulnerabilityID)
    requires NoDuplicates(Ids(vs)) && FoundFor(m, vs, olds) && id in ChangesOf(olds, vs)
    ensures exists k :: 0 <= k < |vs| && IdOf(vs[k]) == id
  {
    ChangesAre(olds, vs, id);
    OldsAre(olds, id);
    if id in Olds(olds) {
      assert id in Ids(vs);
    }
  }

  lemma ChangesArePlan(m: LiveRows, vs: seq<Vulnerability>, olds: seq<Vulnerability>, list: seq<Change>)
    requires NoDuplicates(Ids(vs)) && FoundFor(m, vs, olds) && ListsChanges(list, ChangesOf(olds, vs))
    ensures IsPlan(m, vs, list)
  {
    forall i | 0 <= i < |list|
      ensures list[i].after.Some? && list[i].after.value in vs && ChangeId(list[i]) == IdOf(list[i].after.value)
      ensures Outdated(m, list[i].after.value)
      ensures list[i].before.Some? <==> IdOf(list[i].after.value) in m
      ensures list[i].before.Some? ==> SameUpToOrder(list[i].before.value, Loaded(m[IdOf(list[i].after.value)]))
    {
      var id := ChangeId(list[i]);
      ChangedIdsAreRequested(m, vs, olds, id);
      var k :| 0 <= k < |vs| && IdOf(vs[k]) == id;
      ChangeFor(m, vs, olds, k);
    }
    forall v | v in vs && Outdated(m, v) ensures exists i :: 0 <= i < |list| && list[i].after == Some(v) {
      var k :| 0 <= k < |vs| && vs[k] == v;
      ChangeFor(m, vs, olds, k);
      var c := ChangesOf(olds, vs)[IdOf(v)];
      assert c in list;
    }
  }

  function Removals(changes: seq<Change>): seq<VulnerabilityID> {
    if changes == [] then []
    else
      var c, rest := changes[|changes| - 1], Removals(changes[..|changes| - 1]);
      if c.before.Some? then rest + [IdOf(c.before.value)] else rest
  }

  function Additions(changes: seq<Change>): seq<Vulnerability> {
    if changes == [] then []
    else
      var c, rest := changes[|changes| - 1], Additions(changes[..|changes| - 1]);
      if c.after.Some? then rest + [c.after.value] else rest
  }

  /** A change has the same id before and after. */
  ghost predicate Aligned(changes: seq<Change>) {
    && (forall i :: 0 <= i < |changes| ==>
          changes[i].after.Some? && (changes[i].before.Some? ==> IdOf(changes[i].before.value) == IdOf(changes[i].after.value)))
    && (forall i, j :: 0 <= i < j < |changes| ==> IdOf(changes[i].after.value) != IdOf(changes[j].after.value))
  }

  lemma {:induction false} RemovalsAre(changes: seq<Change>)
    requires Aligned(changes)
    ensures NoDuplicates(Removals(changes))
    ensures forall id :: id in Removals(changes) <==>
              exists i :: 0 <= i < |changes| && changes[i].before.Some? && IdOf(changes[i].after.value) == id
  {
    if changes != [] {
      var n := |changes| - 1;
      RemovalsAre(changes[..n]);
      assert forall i :: 0 <= i < n ==> changes[..n][i] == changes[i];
      assert IdOf(changes[n].after.value) !in Removals(changes[..n]);
    }
  }

  lemma {:induction false} AdditionsAre(changes: seq<Change>)
    requires Aligned(changes)
    ensures |Additions(changes)| == |changes|
    ensures forall i :: 0 <= i < |changes| ==> Additions(changes)[i] == changes[i].after.value
  {
    if changes != [] {
      var n := |changes| - 1;
      AdditionsAre(changes[..n]);
    }
  }

  lemma PlanIsAligned(m: LiveRows, vs: seq<Vulnerability>, changes: seq<Change>)
    requires IsPlan(m, vs, changes) && OwnIds(m)
    ensures Aligned(changes)
  {
  }

  /** Live rows carry their own id. */
  ghost predicate OwnIds(m: LiveRows) {
    forall id :: id in m ==> m[id].id == id
  }

  lemma {:induction false} LiveHasOwnIds(rows: seq<Row>)
    ensures OwnIds(Live(rows))
  {
    if rows != [] { LiveHasOwnIds(rows[..|rows| - 1]); }
  }

  lemma PlanIsPossible(m: LiveRows, vs: seq<Vulnerability>, changes: seq<Change>)
    requires IsPlan(m, vs, changes) && Aligned(changes)
    ensures NoDuplicates(Removals(changes)) && forall id :: id in Removals(changes) ==> id in m
    ensures var add := Additions(changes);
            NoDuplicates(Ids(add)) && forall i :: 0 <= i < |add| ==> IdOf(add[i]) !in m || IdOf(add[i]) in Removals(changes)
  {
    RemovalsAre(changes);
    AdditionsAre(changes);
    var add := Additions(changes);
    assert forall i :: 0 <= i < |add| ==> Ids(add)[i] == IdOf(changes[i].after.value);
  }

  /** A plan can be carried out, and carrying it out is the upsert. */
  lemma PlanApplies(m: LiveRows, vs: seq<Vulnerability>, changes: seq<Change>)
    requires NoDuplicates(Ids(vs)) && IsPlan(m, vs, changes) && Aligned(changes)
    ensures NoDuplicates(Removals(changes)) && forall id :: id in Removals(changes) ==> id in m
    ensures var kept := m - (set id | id in Removals(changes));
            var add := Additions(changes);
            && NoDuplicates(Ids(add)) && (forall v :: v in add ==> IdOf(v) !in kept)
            && kept + Inserted(add) == Upserted(m, vs)
  {
    PlanIsPossible(m, vs, changes);
    var kept, add := m - (set id | id in Removals(changes)), Additions(changes);
    forall id
      ensures id in kept + Inserted(add) <==> id in Upserted(m, vs)
      ensures id in Upserted(m, vs) ==> (kept + Inserted(add))[id] == Upserted(m, vs)[id]
    {
      PlanAppliesTo(m, vs, changes, id);
    }
  }

  lemma PlanAppliesTo(m: LiveRows, vs: seq<Vulnerability>, changes: seq<Change>, id: VulnerabilityID)
    requires NoDuplicates(Ids(vs)) && IsPlan(m, vs, changes) && Aligned(changes)
    ensures var kept := m - (set k | k in Removals(changes));
            var result := kept + Inserted(Additions(changes));
            && (id in result <==> id in Upserted(m, vs))
            && (id in Upserted(m, vs) ==> result[id] == Upserted(m, vs)[id])
  {
    if i :| 0 <= i < |changes| && IdOf(changes[i].after.value) == id {
      AdditionsAre(changes);
      PlanIsPossible(m, vs, changes);
      InsertedIs(Additions(changes), i);
      var k :| 0 <= k < |vs| && vs[k] == changes[i].after.value;
      UpsertedIs(m, vs, k);
    } else {
      UnplannedId(changes, id);
      if k :| 0 <= k < |vs| && IdOf(vs[k]) == id {
        assert vs[k] in vs;
        UpsertedIs(m, vs, k);
      } else {
        UpsertedElsewhere(m, vs, id);
      }
    }
  }

  lemma UnplannedId(changes: seq<Change>, id: VulnerabilityID)
    requires Aligned(changes) && forall i :: 0 <= i < |changes| ==> IdOf(changes[i].after.value) != id
    ensures id !in Inserted(Additions(changes)) && id !in Removals(changes)
  {
  }

  /** The database accepts the changes: no unknown severity is written, and no vulnerability is
      replaced in a namespace that has two formats. */
  ghost predicate CanApply(namespaces: set<Namespace>, m: LiveRows, vs: seq<Vulnerability>) {
    forall v :: v in vs && Outdated(m, v) ==>
      !v.severity.Other? && (IdOf(v) in m ==> OneFormat(namespaces, v.namespace.name))
  }

  /** Once a namespace has two formats, none of its vulnerabilities can be replaced any more. */
  lemma TwoFormatsBlockUpdates()
    ensures var feature := AffectedFeature("source", Namespace("alpine:v3.5", "dpkg"), "openssl", "1.1", "1.1");
            var v := Vulnerability("CVE-1", Namespace("alpine:v3.5", "dpkg"), "", "", Low, "", [feature]);
            var namespaces := {Namespace("alpine:v3.5", "dpkg"), Namespace("alpine:v3.5", "apk")};
            !CanApply(namespaces, map[IdOf(v) := Stored(v)], [v.(severity := High)])
  {
    var feature := AffectedFeature("source", Namespace("alpine:v3.5", "dpkg"), "openssl", "1.1", "1.1");
    var v := Vulnerability("CVE-1", Namespace("alpine:v3.5", "dpkg"), "", "", Low, "", [feature]);
    var w := v.(severity := High);
    assert w in [w] && Outdated(map[IdOf(v) := Stored(v)], w);
  }

  lemma AddedAre(m: LiveRows, vs: seq<Vulnerability>, changes: seq<Change>, v: Vulnerability)
    requires IsPlan(m, vs, changes) && Aligned(changes)
    ensures v in Additions(changes) <==> v in vs && Outdated(m, v)
  {
    AdditionsAre(changes);
    if v in vs && Outdated(m, v) {
      var i :| 0 <= i < |changes| && changes[i].after == Some(v);
      assert Additions(changes)[i] == v;
    }
  }

  lemma RemovedAre(m: LiveRows, vs: seq<Vulnerability>, changes: seq<Change>, id: VulnerabilityID)
    requires IsPlan(m, vs, changes) && Aligned(changes)
    ensures id in Removals(changes) <==> id in m && exists v :: v in vs && Outdated(m, v) && IdOf(v) == id
  {
    RemovalsAre(changes);
    if v :| v in vs && Outdated(m, v) && IdOf(v) == id {
      var i :| 0 <= i < |changes| && changes[i].after == Some(v);
      assert changes[i].before.Some? <==> id in m;
    }
  }

  lemma PlanCanApply(namespaces: set<Namespace>, m: LiveRows, vs: seq<Vulnerability>, changes: seq<Change>)
    requires IsPlan(m, vs, changes) && Aligned(changes)
    ensures CanApply(namespaces, m, vs) <==>
            && (forall id :: id in Removals(changes) ==> OneFormat(namespaces, id.namespace))
            && (forall v :: v in Additions(changes) ==> !v.severity.Other?)
    ensures forall v :: v in Additions(changes) ==> v in vs
  {
    forall v ensures v in Additions(changes) <==> v in vs && Outdated(m, v) {
      AddedAre(m, vs, changes, v);
    }
    forall id ensures id in Removals(changes) <==> id in m && exists v :: v in vs && Outdated(m, v) && IdOf(v) == id {
      RemovedAre(m, vs, changes, id);
    }
  }

  /** None of the statements for the changes fails. */
  ghost predicate Applicable(namespaces: set<Namespace>, m: LiveRows, changes: seq<Change>) {
    && NoDuplicates(Removals(changes)) && NoDuplicates(Ids(Additions(changes)))
    && (forall id :: id in Removals(changes) ==> id in m && OneFormat(namespaces, id.namespace))
    && (forall v :: v in Additions(changes) ==> !v.severity.Other?)
  }

  function Kept(m: LiveRows, changes: seq<Change>): LiveRows {
    m - (set id | id in Removals(changes))
  }

  lemma PlanWorks(namespaces: set<Namespace>, m: LiveRows, vs: seq<Vulnerability>, changes: seq<Change>)
    requires NoDuplicates(Ids(vs)) && OwnIds(m) && IsPlan(m, vs, changes)
    ensures Applicable(namespaces, m, changes) <==> CanApply(namespaces, m, vs)
    ensures forall v :: v in Additions(changes) ==> v in vs && IdOf(v) !in Kept(m, changes)
    ensures Kept(m, changes) + Inserted(Additions(changes)) == Upserted(m, vs)
  {
    PlanIsAligned(m, vs, changes);
    PlanApplies(m, vs, changes);
    PlanCanApply(namespaces, m, vs, changes);
  }

  /** The changes are a plan, they can be applied exactly if the database accepts them, and applying
      them is the upsert. */
  ghost predicate Works(namespaces: set<Namespace>, m: LiveRows, vs: seq<Vulnerability>, changes: seq<Change>) {
    && IsPlan(m, vs, changes)
    && (Applicable(namespaces, m, changes) <==> CanApply(namespaces, m, vs))
    && (forall v :: v in Additions(changes) ==> v in vs && IdOf(v) !in Kept(m, changes))
    && Kept(m, changes) + Inserted(Additions(changes)) == Upserted(m, vs)
  }

  lemma ChangesWork(namespaces: set<Namespace>, m: LiveRows, vs: seq<Vulnerability>, olds: seq<Vulnerability>,
                    changes: seq<Change>)
    requires NoDuplicates(Ids(vs)) && OwnIds(m) && FoundFor(m, vs, olds) && ListsChanges(changes, ChangesOf(olds, vs))
    ensures Works(namespaces, m, vs, changes)
  {
    ChangesArePlan(m, vs, olds, changes);
    PlanWorks(namespaces, m, vs, changes);
  }

  /** Deletes and inserts, or leaves everything as it was. */
  method ApplyChanges(tx: Session, changes: seq<Change>, caches: bool) returns (ok: bool)
    requires tx.Valid()
    modifies tx`rows
    ensures !ok ==> tx.rows == old(tx.rows)
    ensures ok <==> caches && Applicable(tx.namespaces, old(Live(tx.rows)), changes)
    ensures ok && (forall v :: v in Additions(changes) ==>
                     IdOf(v) !in Kept(old(Live(tx.rows)), changes) && v.namespace in tx.namespaces) ==>
              tx.Valid() && Live(tx.rows) == Kept(old(Live(tx.rows)), changes) + Inserted(Additions(changes))
  {
    var backup := tx.rows;
    var toRemove, toAdd := SplitChanges(changes);
    ok := tx.DeleteVulnerabilities(toRemove);
    if !ok {
      tx.rows := backup;
      return;
    }
    if forall v :: v in toAdd ==> v.namespace in tx.namespaces {
      AllKnown(toAdd, tx.namespaces);
    }
    ok := tx.InsertVulnerabilities(toAdd, caches);
    if !ok {
      tx.rows := backup;
    }
  }

  /** Finds the live vulnerabilities and compares; with unique ids there is a plan. */
  method PlanChanges(tx: Session, vulnerabilities: seq<Vulnerability>) returns (planned: Option<seq<Change>>)
    requires tx.Valid()
    ensures NoDuplicates(Ids(vulnerabilities)) ==>
              planned.Some? && Works(tx.namespaces, Live(tx.rows), vulnerabilities, planned.value)
  {
    var oldVuln := FindOld(tx, vulnerabilities);
    planned := FindVulnerabilityChanges(oldVuln, vulnerabilities);
    if NoDuplicates(Ids(vulnerabilities)) {
      LiveHasOwnIds(tx.rows);
      ChangesWork(tx.namespaces, Live(tx.rows), vulnerabilities, oldVuln, planned.value);
    }
  }

  /** Finds, compares, deletes and inserts in one transaction, which an error rolls back. With
      unique ids none of the errors about duplicate or missing vulnerabilities is returned. */
  method UpdateVulnerabilities(tx: Session, vulnerabilities: seq<Vulnerability>, caches: bool)
    returns (ok: bool, changes: seq<Change>)
    requires tx.Valid()
    modifies tx`rows
    ensures !ok ==> tx.rows == old(tx.rows)
    ensures NoDuplicates(Ids(vulnerabilities)) ==>
              (ok <==> vulnerabilities == [] || (caches && CanApply(tx.namespaces, old(Live(tx.rows)), vulnerabilities)))
    ensures NoDuplicates(Ids(vulnerabilities)) && ok && (forall v :: v in vulnerabilities ==> v.namespace in tx.namespaces) ==>
              && tx.Valid()
              && Live(tx.rows) == Upserted(old(Live(tx.rows)), vulnerabilities)
              && IsPlan(old(Live(tx.rows)), vulnerabilities, changes)
  {
    if |vulnerabilities| == 0 {
      return true, [];
    }
    var planned := PlanChanges(tx, vulnerabilities);
    if planned.None? {
      return false, [];
    }
    changes := planned.value;
    ok := ApplyChanges(tx, changes, caches);
    if !ok {
      changes := [];
    }
  }

  lemma SameIdUpToOrder(a: Vulnerability, b: Vulnerability)
    requires SameUpToOrder(a, b)
    ensures IdOf(a) == IdOf(b)
  {
  }

  /** The old vulnerabilities collected from the first `n` requested ids. */
  ghost predicate FoundSoFar(m: LiveRows, ids: seq<VulnerabilityID>, n: nat, olds: seq<Vulnerability>)
    requires n <= |ids|
  {
    && (forall o :: o in olds ==> IdOf(o) in m && SameUpToOrder(o, Loaded(m[IdOf(o)])) && IdOf(o) in ids[..n])
    && (forall i :: 0 <= i < n && ids[i] in m ==> ids[i] in Ids(olds))
    && (NoDuplicates(ids) ==> NoDuplicates(Ids(olds)))
  }

  lemma FoundOne(m: LiveRows, ids: seq<VulnerabilityID>, n: nat, olds: seq<Vulnerability>, o: Vulnerability)
    requires n < |ids| && FoundSoFar(m, ids, n, olds)
    requires IdOf(o) == ids[n] && ids[n] in m && SameUpToOrder(o, Loaded(m[ids[n]]))
    ensures FoundSoFar(m, ids, n + 1, olds + [o])
  {
    assert Ids(olds + [o]) == Ids(olds) + [ids[n]];
    assert ids[..n + 1] == ids[..n] + [ids[n]];
    forall i | 0 <= i < |olds| ensures Ids(olds)[i] in ids[..n] {
      assert olds[i] in olds;
    }
    assert NoDuplicates(ids) ==> ids[n] !in ids[..n];
  }

  lemma FoundNone(m: LiveRows, ids: seq<VulnerabilityID>, n: nat, olds: seq<Vulnerability>)
    requires n < |ids| && FoundSoFar(m, ids, n, olds) && ids[n] !in m
    ensures FoundSoFar(m, ids, n + 1, olds)
  {
  }

  lemma FoundAll(m: LiveRows, vs: seq<Vulnerability>, olds: seq<Vulnerability>)
    requires FoundSoFar(m, Ids(vs), |vs|, olds) && NoDuplicates(Ids(vs))
    ensures FoundFor(m, vs, olds)
  {
    assert Ids(vs)[..|vs|] == Ids(vs);
    forall v | v in vs && IdOf(v) in m ensures exists i :: 0 <= i < |olds| && IdOf(olds[i]) == IdOf(v) {
      var k :| 0 <= k < |vs| && vs[k] == v;
      assert Ids(vs)[k] in Ids(olds);
    }
  }

  method FindOld(tx: Session, vulnerabilities: seq<Vulnerability>) returns (oldVuln: seq<Vulnerability>)
    requires tx.Valid()
    ensures NoDuplicates(Ids(vulnerabilities)) ==> FoundFor(Live(tx.rows), vulnerabilities, oldVuln)
  {
    var nullable := tx.FindVulnerabilities(Ids(vulnerabilities));
    ghost var m, ids := Live(tx.rows), Ids(vulnerabilities);
    LiveHasOwnIds(tx.rows);
    oldVuln := [];
    for n := 0 to |nullable|
      invariant FoundSoFar(m, ids, n, oldVuln)
    {
      if nullable[n].Some? {
        SameIdUpToOrder(nullable[n].value, Loaded(m[ids[n]]));
        FoundOne(m, ids, n, oldVuln, nullable[n].value);
        oldVuln := oldVuln + [nullable[n].value];
      } else {
        FoundNone(m, ids, n, oldVuln);
      }
    }
    if NoDuplicates(ids) {
      FoundAll(m, vulnerabilities, oldVuln);
    }
  }

  method SplitChanges(changes: seq<Change>) returns (toRemove: seq<VulnerabilityID>, toAdd: seq<Vulnerability>)
    ensures toRemove == Removals(changes) && toAdd == Additions(changes)
  {
    toRemove, toAdd := [], [];
    for n := 0 to |changes|
      invariant toRemove == Removals(changes[..n]) && toAdd == Additions(changes[..n])
    {
      assert changes[..n + 1][..n] == changes[..n];
      if changes[n].before.Some? {
        toRemove := toRemove + [IdOf(changes[n].before.value)];
      }
      if changes[n].after.Some? {
        toAdd := toAdd + [changes[n].after.value];
      }
    }
    assert changes[..|changes|] == changes;
  }

  // ----- Updating again

  /** Every affected feature belongs to the vulnerability's namespace, as grouping leaves them. */
  ghost predicate OwnNamespace(v: Vulnerability) {
    forall i :: 0 <= i < |v.affected| ==> v.affected[i].namespace.name == v.namespace.name
  }

  lemma StoredKeys(v: Vulnerability)
    requires OwnNamespace(v)
    ensures Keys(Loaded(Stored(v)).affected) == Keys(v.affected)
  {
  }

  /** Reading a stored vulnerability back loses only the types of its affected features. */
  lemma LoadedOfStored(v: Vulnerability)
    requires forall i :: 0 <= i < |v.affected| ==> v.affected[i].namespace == v.namespace
    ensures Loaded(Stored(v)).(affected := []) == v.(affected := [])
    ensures |Loaded(Stored(v)).affected| == |v.affected|
    ensures forall i :: 0 <= i < |v.affected| ==> Loaded(Stored(v)).affected[i] == v.affected[i].(affectedType := "")
  {
  }

  /** After an update a second one with the same input reports no change for a vulnerability if
      and only if its affected keys are distinct. */
  lemma SecondUpdateReportsDuplicates(m: LiveRows, vs: seq<Vulnerability>, i: nat)
    requires NoDuplicates(Ids(vs)) && i < |vs| && OwnNamespace(vs[i])
    ensures !Outdated(Upserted(m, vs), vs[i]) <==> NoDuplicates(Keys(vs[i].affected))
  {
    UpsertedIs(m, vs, i);
    StoredKeys(vs[i]);
  }

  /** With distinct affected keys the second update changes nothing. */
  lemma {:induction false} SecondUpdateIsIdle(m: LiveRows, vs: seq<Vulnerability>, changes: seq<Change>)
    requires NoDuplicates(Ids(vs)) && forall i :: 0 <= i < |vs| ==> OwnNamespace(vs[i]) && NoDuplicates(Keys(vs[i].affected))
    requires IsPlan(Upserted(m, vs), vs, changes)
    ensures changes == []
  {
    if changes != [] {
      var v := changes[0].after.value;
      var i :| 0 <= i < |vs| && vs[i] == v;
      SecondUpdateReportsDuplicates(m, vs, i);
    }
  }
}
