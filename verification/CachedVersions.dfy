/** The cache protocol with Clair's own range test: in runs that store only valid versions every
    cache step succeeds, and how the versions of features show in what is read from the cache. */
module CachedVersions {
  import opened Models
  import opened VersionText
  import opened Versions
  import opened CacheProtocol
  import opened ProtocolHistory

  // ----- Runs with valid versions

  /** `versionfmt.Valid`. */
  predicate Parses(format: string, text: string) {
    FormatNamed(format).Some? && Parse(FormatNamed(format).value, text).Ok?
  }

  /** The range test decides exactly the valid versions of a known format. */
  lemma InRangeDecides(format: string, version: string, range: string)
    ensures InRangeOf(format, version, range).Ok? <==> Parses(format, version) && Parses(format, range)
  {
  }

  /** Features and affected versions that come in are valid, and a worker caches features that it
      has stored before. */
  ghost predicate ValidStep(s: State, step: Step) {
    match step
    case Persist(features) => forall nf :: nf in features ==> Parses(nf.feature.format, nf.feature.version)
    case Insert(_, row, affected, _) =>
      forall a :: a in affected ==> Parses(row.namespace.format, affected[a].row.affectedVersion)
    case BeginCache(_, features) => features <= s.tables.features
    case _ => true
  }

  ghost predicate ValidAt(states: seq<State>, steps: seq<Step>, i: int) {
    0 <= i < |steps| && |states| == |steps| + 1 && ValidStep(states[i], steps[i])
  }

  ghost predicate IsValidRun(states: seq<State>, steps: seq<Step>) {
    IsRun(InRangeOf, states, steps) && forall i :: 0 <= i < |steps| ==> ValidAt(states, steps, i)
  }

  ghost predicate ValidTables(tb: Tables) {
    && (forall nf :: nf in tb.features ==> Parses(nf.feature.format, nf.feature.version))
    && (forall a :: a in tb.affected && tb.affected[a].vulnerability in tb.vulnerabilities ==>
          Parses(tb.vulnerabilities[tb.affected[a].vulnerability].namespace.format, tb.affected[a].affectedVersion))
  }

  ghost predicate ValidTransaction(s: State, t: nat)
    requires t in s.transactions
  {
    match s.transactions[t]
    case Update(_, _, _, candidates, _) =>
      forall a :: a in candidates ==> Parses(candidates[a].format, candidates[a].row.affectedVersion)
    case Cache(features, found) => features <= s.tables.features && (found.Some? ==> found.value.clean)
  }

  ghost predicate ValidState(s: State) {
    ValidTables(s.tables) && forall t :: t in s.transactions ==> ValidTransaction(s, t)
  }

  /** On valid tables a search for stored features succeeds. */
  lemma ValidSearchSucceeds(s: State, features: set<NamespacedFeature>)
    requires Invariant(InRangeOf, s) && ValidTables(s.tables) && features <= s.tables.features
    ensures SearchSucceeds(InRangeOf, s.tables, features)
  {
    forall nf, a | nf in features && Candidates(s.tables, nf, a) ensures Comparable(InRangeOf, s.tables, nf, a) {
      InRangeDecides(nf.feature.format, nf.feature.version, s.tables.affected[a].affectedVersion);
    }
  }

  lemma SearchKeepsValid(s: State, t: nat, s': State)
    requires Invariant(InRangeOf, s) && Next(InRangeOf, s, Search(t), s') && ValidState(s)
    ensures ValidState(s')
  {
    assert ValidTransaction(s, t);
    ValidSearchSucceeds(s, s.transactions[t].features);
    forall u | u in s'.transactions ensures ValidTransaction(s', u) {
      assert u != t ==> ValidTransaction(s, u);
    }
  }

  lemma CommitKeepsValid(s: State, t: nat, s': State)
    requires Invariant(InRangeOf, s) && Next(InRangeOf, s, CommitUpdate(t), s') && ValidState(s)
    ensures ValidState(s')
  {
    assert UpdateInvariant(InRangeOf, s, t) && ValidTransaction(s, t);
    forall u | u in s'.transactions ensures ValidTransaction(s', u) {
      assert ValidTransaction(s, u);
    }
  }

  lemma StepKeepsValid(s: State, step: Step, s': State)
    requires Invariant(InRangeOf, s) && Next(InRangeOf, s, step, s') && ValidState(s) && ValidStep(s, step)
    ensures ValidState(s')
  {
    if step.Search? {
      SearchKeepsValid(s, step.t, s');
    } else if step.CommitUpdate? {
      CommitKeepsValid(s, step.t, s');
    } else {
      forall u | u in s'.transactions ensures ValidTransaction(s', u) {
        assert u in s.transactions ==> ValidTransaction(s, u);
      }
    }
  }

  lemma {:induction false} ValidRunIsValid(states: seq<State>, steps: seq<Step>, j: nat)
    requires IsValidRun(states, steps) && j < |states|
    ensures ValidState(states[j])
  {
    if j > 0 {
      ValidRunIsValid(states, steps, j - 1);
      RunInvariant(InRangeOf, states, steps, j - 1);
      assert NextAt(InRangeOf, states, steps, j - 1) && ValidAt(states, steps, j - 1);
      StepKeepsValid(states[j - 1], steps[j - 1], states[j]);
    }
  }

  /** A cache step for the feature was committed before. */
  ghost predicate Served(states: seq<State>, steps: seq<Step>, j: nat, nf: NamespacedFeature) {
    exists i: nat :: i < j && ServedBy(states, steps, i, nf)
  }

  ghost predicate ServedBy(states: seq<State>, steps: seq<Step>, i: nat, nf: NamespacedFeature) {
    && i < |steps| < |states| && steps[i].CommitCache? && Caching(states[i], steps[i].t)
    && nf in states[i].transactions[steps[i].t].features
  }

  /** In every interleaving in which stored versions are valid, from the commit of a cache step on,
      every feature of that step is read exactly as a plain scan finds it. */
  lemma ValidRunsAgree(states: seq<State>, steps: seq<Step>, i: nat, j: nat, nf: NamespacedFeature)
    requires IsValidRun(states, steps) && i < j < |states| && ServedBy(states, steps, i, nf)
    ensures Agrees(InRangeOf, states[j].tables, nf) && nf in states[j].tables.features
  {
    var t := steps[i].t;
    EveryCommitHasItsSearch(InRangeOf, states, steps, i);
    var k: nat :| IsCacheStep(states, steps, k, i);
    SearchedThenCommitted(InRangeOf, states, steps, k, i);
    ValidRunIsValid(states, steps, i);
    assert ValidTransaction(states[i], t);
    assert IsCleanStep(InRangeOf, states, steps, k, i, nf);
    CachedIs(InRangeOf, states, steps, j, nf);
    AgreesExactlyIf(InRangeOf, states, steps, j, nf);
    RunInvariant(InRangeOf, states, steps, j);
  }

  /** The same without the notions of the protocol: after its cache step a feature is cached for a
      vulnerability if and only if the vulnerability is not deleted and one of its rows names the
      feature, in the same namespace, with an affected version above the feature's. */
  lemma CachedExactlyIfAffected(states: seq<State>, steps: seq<Step>, i: nat, j: nat, nf: NamespacedFeature, v: nat)
    requires IsValidRun(states, steps) && i < j < |states| && ServedBy(states, steps, i, nf)
    ensures var tb := states[j].tables;
            Pair(v, nf) in tb.cache <==>
            && v in tb.vulnerabilities && !tb.vulnerabilities[v].deleted && tb.vulnerabilities[v].namespace == nf.namespace
            && exists a :: && a in tb.affected && tb.affected[a].vulnerability == v
                           && tb.affected[a].featureName == nf.feature.name
                           && InRangeOf(nf.feature.format, nf.feature.version, tb.affected[a].affectedVersion) == Ok(true)
  {
    var tb := states[j].tables;
    ValidRunsAgree(states, steps, i, j, nf);
    RunInvariant(InRangeOf, states, steps, j);
    assert Pair(v, nf) in tb.cache <==> ReadFromCache(tb, v, nf);
    assert ReadFromCache(tb, v, nf) <==> PlainScan(InRangeOf, tb, v, nf);
    if a :| Affects(InRangeOf, tb, v, nf, a) {
      assert a in tb.affected;
    }
    if && v in tb.vulnerabilities && !tb.vulnerabilities[v].deleted && tb.vulnerabilities[v].namespace == nf.namespace {
      if a :| && a in tb.affected && tb.affected[a].vulnerability == v && tb.affected[a].featureName == nf.feature.name
              && InRangeOf(nf.feature.format, nf.feature.version, tb.affected[a].affectedVersion) == Ok(true) {
        assert Affects(InRangeOf, tb, v, nf, a);
      }
    }
  }

  lemma ServedFeaturesAgree(states: seq<State>, steps: seq<Step>, j: nat, nf: NamespacedFeature)
    requires IsValidRun(states, steps) && j < |states| && Served(states, steps, j, nf)
    ensures Agrees(InRangeOf, states[j].tables, nf) && Parses(nf.feature.format, nf.feature.version)
  {
    var i: nat :| i < j && ServedBy(states, steps, i, nf);
    ValidRunsAgree(states, steps, i, j, nf);
    ValidRunIsValid(states, steps, j);
  }

  predicate ComparesTo(f: Format, a: FeatureRow, b: FeatureRow, c: int) {
    FormatNamed(a.format) == Some(f) && Compared(f, a.version, b.version) == Ok(c)
  }

  /** The comparison of two versions of a format does not put the first above the second. */
  ghost predicate NotAbove(a: FeatureRow, b: FeatureRow) {
    a.format == b.format && forall f, c :: ComparesTo(f, a, b, c) ==> c <= 0
  }

  lemma OrderGoesDown(f: Format, lower: Version, higher: Version, bound: Version)
    requires Order(f, lower, higher) <= 0 && Order(f, higher, bound) < 0
    ensures Order(f, lower, bound) < 0
  {
    OrderIsTotalPreorder(f, lower, higher, bound);
  }

  /** A row that affects a version affects every valid version that is not above it. */
  lemma RowAffectsLower(tb: Tables, v: nat, a: nat, lower: NamespacedFeature, higher: NamespacedFeature)
    requires lower.namespace == higher.namespace && lower.feature.name == higher.feature.name
    requires NotAbove(lower.feature, higher.feature)
    ensures Parses(lower.feature.format, lower.feature.version) && Affects(InRangeOf, tb, v, higher, a) ==>
              Affects(InRangeOf, tb, v, lower, a)
  {
    if Parses(lower.feature.format, lower.feature.version) && Affects(InRangeOf, tb, v, higher, a) {
      var f := FormatNamed(lower.feature.format).value;
      var vl, vh := Parse(f, lower.feature.version).value, Parse(f, higher.feature.version).value;
      assert ComparesTo(f, lower.feature, higher.feature, Order(f, vl, vh));
      OrderGoesDown(f, vl, vh, Parse(f, tb.affected[a].affectedVersion).value);
    }
  }

  /** A feature of a lower version is affected by whatever affects a higher one. */
  lemma LowerVersionsAreAffectedToo(states: seq<State>, steps: seq<Step>, j: nat, v: nat,
                                    lower: NamespacedFeature, higher: NamespacedFeature)
    requires IsValidRun(states, steps) && j < |states| && Served(states, steps, j, lower) && Served(states, steps, j, higher)
    requires lower.namespace == higher.namespace && lower.feature.name == higher.feature.name
    requires NotAbove(lower.feature, higher.feature) && ReadFromCache(states[j].tables, v, higher)
    ensures ReadFromCache(states[j].tables, v, lower)
  {
    ServedFeaturesAgree(states, steps, j, higher);
    ServedFeaturesAgree(states, steps, j, lower);
    assert PlainScan(InRangeOf, states[j].tables, v, higher);
    var a :| Affects(InRangeOf, states[j].tables, v, higher, a);
    RowAffectsLower(states[j].tables, v, a, lower, higher);
  }

  /** A live vulnerability without a fix (affected version `#MAXV#`) is read for every feature it
      names that went through a cache step, whatever the feature's version. */
  lemma UnfixedVulnerabilityAffectsEveryVersion(states: seq<State>, steps: seq<Step>, j: nat, v: nat, a: nat,
                                                nf: NamespacedFeature)
    requires IsValidRun(states, steps) && j < |states| && Served(states, steps, j, nf)
    requires Candidates(states[j].tables, nf, a) && states[j].tables.affected[a].vulnerability == v
    requires states[j].tables.affected[a].affectedVersion == MAX_VERSION.version
    requires TrimSpace(nf.feature.version) != MAX_VERSION.version
    ensures ReadFromCache(states[j].tables, v, nf)
  {
    ServedFeaturesAgree(states, steps, j, nf);
    SentinelRanges(FormatNamed(nf.feature.format).value, nf.feature.version);
    assert Affects(InRangeOf, states[j].tables, v, nf, a);
  }

  // ----- A run with a version that is not valid

  const DEBIAN := Namespace("debian:8", "dpkg")

  function OpenSSL(version: string): NamespacedFeature {
    NamespacedFeature(FeatureRow("openssl", version, "dpkg"), DEBIAN)
  }

  lemma PlainVersionParses()
    ensures Parse(Dpkg, "1.0") == Ok(Version(0, "1.0", ""))
  {
    assert "" + "1.0" + "" == "1.0";
    ParseSpelled(Dpkg, "", Version(0, "1.0", ""), "");
  }

  lemma BadEpochFails()
    ensures Parse(Dpkg, "a:1") == Err(EpochNotANumber)
  {
    TrimSpaceIsIdentity("a:1");
    assert "a:1"[1] == ':' && "a:1"[..1] == "a" && !IsDigit("a"[0]);
    assert EpochOf("a:1") == Err(EpochNotANumber);
  }

  /** Version 1.0 and the malformed version a:1 of one package, cached in one step: an unfixed
      vulnerability of the package is not read for version 1.0, which it affects. */
  lemma MalformedVersionHidesAnother()
    ensures exists s, s' ::
              && Reachable(InRangeOf, s) && Next(InRangeOf, s, CommitCache(1), s')
              && OpenSSL("1.0") in s.transactions[1].features
              && PlainScan(InRangeOf, s'.tables, 0, OpenSSL("1.0")) && !ReadFromCache(s'.tables, 0, OpenSSL("1.0"))
  {
    PlainVersionParses();
    BadEpochFails();
    SentinelRanges(Dpkg, "1.0");
    assert TrimSpace("1.0") != MAX_VERSION.version by { TrimSpaceIsIdentity("1.0"); }
    FailedSearchLosesAFeature(InRangeOf, OpenSSL("1.0"), OpenSSL("a:1"), MAX_VERSION.version);
  }
}
