/** worker.go: what the outcome of `computeAncestryLayers` says about names, versions, formats,
    namespaces and detectors, in terms of the layers alone. */
module ReportedFeatures {
  import opened VersionText
  import opened Models
  import opened Lists
  import opened Ancestry

  ghost predicate ScannedAll(layers: seq<Layer>, d: Detector) {
    forall j :: 0 <= j < |layers| ==> d in layers[j].scannedBy
  }

  /** Layer `j` has the feature, found by a detector that scanned every layer. */
  ghost predicate Detects(layers: seq<Layer>, j: int, f: LayerFeature) {
    0 <= j < |layers| && f in layers[j].features && ScannedAll(layers, f.foundBy)
  }

  /** Layer `j` has a namespace at position `p`, found by a detector that scanned every layer. */
  ghost predicate Places(layers: seq<Layer>, j: int, p: int, format: string) {
    && 0 <= j < |layers| && 0 <= p < |layers[j].namespaces|
    && ScannedAll(layers, layers[j].namespaces[p].foundBy) && layers[j].namespaces[p].namespace.format == format
  }

  ghost predicate HasFormat(layers: seq<Layer>, j: int, format: string) {
    exists f :: Detects(layers, j, f) && f.feature.format == format
  }

  predicate SameRelease(f: Feature, g: Feature) {
    f.name == g.name && f.version == g.version && f.format == g.format
  }

  /** Layer `j` has the name and version in the format. */
  ghost predicate Present(layers: seq<Layer>, j: int, g: Feature) {
    exists f :: Detects(layers, j, f) && SameRelease(f.feature, g)
  }

  ghost predicate ColonFree(layers: seq<Layer>) {
    forall j, f :: 0 <= j < |layers| && f in layers[j].features ==> ':' !in f.feature.name
  }

  /** Layer `r` is the latest before `i` with the format. */
  ghost predicate LatestBefore(layers: seq<Layer>, r: int, i: int, format: string) {
    r < i && HasFormat(layers, r, format) && forall q :: r < q < i ==> !HasFormat(layers, q, format)
  }

  /** The unbroken run of presence, over the layers with the format, that lasts to the end began in
      layer `i`. */
  ghost predicate RunBegan(layers: seq<Layer>, g: Feature, i: int) {
    && Present(layers, i, g)
    && (forall j :: i < j < |layers| && HasFormat(layers, j, g.format) ==> Present(layers, j, g))
    && (forall r :: LatestBefore(layers, r, i, g.format) ==> !Present(layers, r, g))
  }

  // ----- Keys tell names and versions apart

  lemma KeyTells(f: Feature, g: Feature)
    requires ':' !in f.name && ':' !in g.name
    ensures Key(f) == Key(g) <==> f.name == g.name && f.version == g.version
  {
    if Key(f) == Key(g) {
      var k := Key(f);
      assert k[|f.name|] == ':' && k[|g.name|] == ':';
      assert k[..|f.name|] == f.name && k[|f.name| + 1..] == f.version;
      assert k[..|g.name|] == g.name && k[|g.name| + 1..] == g.version;
    }
  }

  lemma CommonAre(layers: seq<Layer>, d: Detector)
    requires layers != []
    ensures d in CommonDetectors(layers) <==> ScannedAll(layers, d)
  {
  }

  lemma StandingIs(layers: seq<Layer>, j: nat, g: Feature)
    requires j < |layers| && ColonFree(layers) && ':' !in g.name
    ensures StandingOf(CommonDetectors(layers), layers[j], g.format, Key(g)) ==
            if Present(layers, j, g) then With else if HasFormat(layers, j, g.format) then Without else Silent
  {
    var common := CommonDetectors(layers);
    forall f | f in layers[j].features
      ensures Detects(layers, j, f) <==> f.foundBy in common
      ensures Key(f.feature) == Key(g) <==> f.feature.name == g.name && f.feature.version == g.version
    {
      CommonAre(layers, f.foundBy);
      KeyTells(f.feature, g);
    }
    var last := LastFeature(common, layers[j].features, g.format, Key(g));
    if last.Some? {
      assert Detects(layers, j, last.value) && SameRelease(last.value.feature, g);
    }
  }

  lemma RunBeganIs(layers: seq<Layer>, g: Feature, i: nat)
    requires layers != [] && ColonFree(layers) && ':' !in g.name
    ensures IntroducedAt(CommonDetectors(layers), layers, g.format, Key(g), i) <==> RunBegan(layers, g, i)
  {
    var st := Standings(CommonDetectors(layers), layers, g.format, Key(g));
    forall j | 0 <= j < |layers|
      ensures st[j] == With <==> Present(layers, j, g)
      ensures st[j] == Silent <==> !HasFormat(layers, j, g.format)
    {
      StandingIs(layers, j, g);
      if f :| Detects(layers, j, f) && SameRelease(f.feature, g) {
        assert HasFormat(layers, j, g.format);
      }
    }
    if i < |layers| {
      forall r: nat ensures Before(st, r, i) <==> LatestBefore(layers, r, i, g.format) {}
    }
  }

  // ----- The outcome

  lemma ReportedIsListed(layers: seq<Layer>, r: Outcome, i: nat, af: AncestryFeature)
    requires layers != [] && IsOutcome(layers, r) && r.Some? && i < |layers|
    ensures |r.value.0| == |layers|
    ensures af in r.value.0[i].features <==> ListedIn(CommonDetectors(layers), layers, i, af)
  {
  }

  /** Every reported feature was found in its layer, by a detector that scanned all layers, and its
      name and version are there from that layer on, wherever its format is, and not before. */
  lemma ReportedFeatureBegan(layers: seq<Layer>, r: Outcome, i: nat, af: AncestryFeature)
    requires layers != [] && ColonFree(layers) && IsOutcome(layers, r) && r.Some? && i < |layers|
    requires |r.value.0| == |layers| && af in r.value.0[i].features
    ensures Detects(layers, i, LayerFeature(af.feature, af.featureBy))
    ensures RunBegan(layers, af.feature, i)
  {
    var common := CommonDetectors(layers);
    ReportedIsListed(layers, r, i, af);
    var vf, k :| IntroducedAt(common, layers, vf, k, i) && ReportedFrom(common, layers, vf, k, i, af);
    var f := LastFeature(common, layers[i].features, vf, k).value;
    CommonAre(layers, f.foundBy);
    assert f == LayerFeature(af.feature, af.featureBy);
    RunBeganIs(layers, af.feature, i);
  }

  /** Every name and version whose run began in a layer is reported there. */
  lemma BegunFeatureIsReported(layers: seq<Layer>, r: Outcome, i: nat, g: Feature)
    requires layers != [] && ColonFree(layers) && IsOutcome(layers, r) && r.Some? && i < |layers|
    requires ':' !in g.name && RunBegan(layers, g, i)
    ensures |r.value.0| == |layers|
    ensures exists af :: af in r.value.0[i].features && SameRelease(af.feature, g)
  {
    var common := CommonDetectors(layers);
    RunBeganIs(layers, g, i);
    StandingIs(layers, i, g);
    var f := LastFeature(common, layers[i].features, g.format, Key(g)).value;
    KeyTells(f.feature, g);
    assert !Homeless(common, layers, i, f);
    var ns := NamespaceInForce(common, layers[..i + 1], g.format).value;
    var af := AncestryFeature(f.feature, ns.namespace, ns.foundBy, f.foundBy);
    assert ReportedFrom(common, layers, g.format, Key(g), i, af);
    assert ListedIn(common, layers, i, af);
    ReportedIsListed(layers, r, i, af);
  }

  /** Each name and version of a format is reported once. */
  lemma ReportedOnce(layers: seq<Layer>, r: Outcome, i: nat, af: AncestryFeature, j: nat, ag: AncestryFeature)
    requires layers != [] && ColonFree(layers) && IsOutcome(layers, r) && r.Some? && i < |layers| && j < |layers|
    requires |r.value.0| == |layers| && af in r.value.0[i].features && ag in r.value.0[j].features
    requires SameRelease(af.feature, ag.feature)
    ensures i == j && af == ag
  {
    var common, g := CommonDetectors(layers), af.feature;
    ReportedFeatureBegan(layers, r, i, af);
    ReportedFeatureBegan(layers, r, j, ag);
    RunBeganIs(layers, g, i);
    assert RunBegan(layers, g, j);
    RunBeganIs(layers, g, j);
    BeganIsBeganAt(Standings(common, layers, g.format, Key(g)));
    assert i == j;
    ReportedIsListed(layers, r, i, af);
    ReportedIsListed(layers, r, i, ag);
    SameReport(layers, i, af, ag);
  }

  lemma SameReport(layers: seq<Layer>, i: nat, af: AncestryFeature, ag: AncestryFeature)
    requires layers != [] && SameRelease(af.feature, ag.feature)
    requires ListedIn(CommonDetectors(layers), layers, i, af) && ListedIn(CommonDetectors(layers), layers, i, ag)
    ensures af == ag
  {
    var common := CommonDetectors(layers);
    var vf, k :| IntroducedAt(common, layers, vf, k, i) && ReportedFrom(common, layers, vf, k, i, af);
    var vg, l :| IntroducedAt(common, layers, vg, l, i) && ReportedFrom(common, layers, vg, l, i, ag);
    assert vf == vg && k == l;
  }

  /** Layer `n` is the last one with the format. */
  ghost predicate IsLastWith(layers: seq<Layer>, n: int, format: string) {
    HasFormat(layers, n, format) && forall j :: n < j < |layers| ==> !HasFormat(layers, j, format)
  }

  lemma {:induction false} RunHasBegun(layers: seq<Layer>, g: Feature, n: nat) returns (i: nat)
    requires n < |layers| && Present(layers, n, g)
    requires forall j :: n < j < |layers| && HasFormat(layers, j, g.format) ==> Present(layers, j, g)
    ensures i <= n && RunBegan(layers, g, i)
    decreases n
  {
    if r :| LatestBefore(layers, r, n, g.format) && Present(layers, r, g) {
      i := RunHasBegun(layers, g, r);
    } else {
      i := n;
    }
  }

  /** For each format exactly the names and versions of the last layer with the format are reported,
      each in some layer. */
  lemma LastLayerIsReported(layers: seq<Layer>, r: Outcome, n: nat, g: Feature)
    requires layers != [] && ColonFree(layers) && ':' !in g.name && IsOutcome(layers, r) && r.Some?
    requires n < |layers| && IsLastWith(layers, n, g.format)
    ensures |r.value.0| == |layers|
    ensures Present(layers, n, g) <==>
            exists i, af :: 0 <= i < |layers| && af in r.value.0[i].features && SameRelease(af.feature, g)
  {
    if Present(layers, n, g) {
      var i := RunHasBegun(layers, g, n);
      BegunFeatureIsReported(layers, r, i, g);
      var af :| af in r.value.0[i].features && SameRelease(af.feature, g);
    }
    if i, af :| 0 <= i < |layers| && af in r.value.0[i].features && SameRelease(af.feature, g) {
      ReportedFeatureBegan(layers, r, i, af);
      PresentInLast(layers, g, af.feature, i, n);
    }
  }

  lemma PresentInLast(layers: seq<Layer>, g: Feature, f: Feature, i: nat, n: nat)
    requires n < |layers| && IsLastWith(layers, n, g.format) && SameRelease(f, g) && RunBegan(layers, f, i)
    ensures Present(layers, n, g)
  {
    var x :| Detects(layers, i, x) && SameRelease(x.feature, f);
    assert HasFormat(layers, i, g.format);
    assert Present(layers, n, f);
    var y :| Detects(layers, n, y) && SameRelease(y.feature, f);
    assert SameRelease(y.feature, g);
  }

  // ----- Namespaces

  /** The namespace at position `p` of layer `j` is the last one for the format up to layer `i`. */
  ghost predicate IsInForce(layers: seq<Layer>, i: int, format: string, j: int, p: int) {
    && j <= i && Places(layers, j, p, format)
    && (forall q :: p < q ==> !Places(layers, j, q, format))
    && (forall m, q :: j < m <= i ==> !Places(layers, m, q, format))
  }

  lemma {:induction false} LastNamespaceIs(common: set<Detector>, list: seq<LayerNamespace>, format: string, p: nat)
    requires p < |list| && list[p].foundBy in common && list[p].namespace.format == format
    requires forall q :: p < q < |list| ==> !(list[q].foundBy in common && list[q].namespace.format == format)
    ensures LastNamespace(common, list, format) == Some(list[p])
    decreases |list|
  {
    if p < |list| - 1 {
      LastNamespaceIs(common, list[..|list| - 1], format, p);
    }
  }

  lemma {:induction false} InForceIs(layers: seq<Layer>, n: nat, i: nat, format: string, j: int, p: int)
    requires j < n <= i + 1 <= |layers| && IsInForce(layers, i, format, j, p)
    ensures NamespaceInForce(CommonDetectors(layers), layers[..n], format) == Some(layers[j].namespaces[p])
    decreases n
  {
    var common, last := CommonDetectors(layers), layers[n - 1];
    forall q | 0 <= q < |last.namespaces|
      ensures Places(layers, n - 1, q, format) <==>
              last.namespaces[q].foundBy in common && last.namespaces[q].namespace.format == format
    {
      CommonAre(layers, last.namespaces[q].foundBy);
    }
    assert layers[..n][..n - 1] == layers[..n - 1];
    if j == n - 1 {
      LastNamespaceIs(common, last.namespaces, format, p);
    } else {
      forall ns | ns in last.namespaces && ns.foundBy in common ensures ns.namespace.format != format {
        var q :| 0 <= q < |last.namespaces| && last.namespaces[q] == ns;
        assert !Places(layers, n - 1, q, format);
      }
      InForceIs(layers, n - 1, i, format, j, p);
    }
  }

  /** A reported feature carries the last namespace of its format up to its layer, and the detector
      that found it. */
  lemma ReportedNamespace(layers: seq<Layer>, r: Outcome, i: nat, af: AncestryFeature, j: int, p: int)
    requires layers != [] && IsOutcome(layers, r) && r.Some? && i < |layers|
    requires |r.value.0| == |layers| && af in r.value.0[i].features
    requires IsInForce(layers, i, af.feature.format, j, p)
    ensures LayerNamespace(af.namespace, af.namespaceBy) == layers[j].namespaces[p]
  {
    ReportedIsListed(layers, r, i, af);
    InForceIs(layers, i + 1, i, af.feature.format, j, p);
  }

  /** The latest namespace for a format up to a layer, if there is one at all. */
  lemma {:induction false} SomeInForce(layers: seq<Layer>, i: nat, format: string, j: int, p: int) returns (j': int, p': int)
    requires i < |layers| && j <= i && Places(layers, j, p, format)
    ensures IsInForce(layers, i, format, j', p')
    decreases i - j, |layers[j].namespaces| - p
  {
    if m, q :| j < m <= i && Places(layers, m, q, format) {
      j', p' := SomeInForce(layers, i, format, m, q);
    } else if q :| p < q && Places(layers, j, q, format) {
      j', p' := SomeInForce(layers, i, format, j, q);
    } else {
      j', p' := j, p;
    }
  }

  lemma {:induction false} NoneInForce(layers: seq<Layer>, n: nat, format: string)
    requires layers != [] && n <= |layers| && forall j, p :: j < n ==> !Places(layers, j, p, format)
    ensures NamespaceInForce(CommonDetectors(layers), layers[..n], format) == None
    decreases n
  {
    if n > 0 {
      var common, last := CommonDetectors(layers), layers[n - 1];
      assert layers[..n][..n - 1] == layers[..n - 1];
      NoneInForce(layers, n - 1, format);
      forall ns | ns in last.namespaces && ns.foundBy in common ensures ns.namespace.format != format {
        var q :| 0 <= q < |last.namespaces| && last.namespaces[q] == ns;
        CommonAre(layers, ns.foundBy);
        assert !Places(layers, n - 1, q, format);
      }
    }
  }

  /** The computation fails exactly if some layer has a commonly detected feature while neither it
      nor an earlier layer has a commonly detected namespace of the feature's format. */
  lemma FailureSpelledOut(layers: seq<Layer>, r: Outcome)
    requires layers != [] && IsOutcome(layers, r)
    ensures r.None? <==>
            exists i, f :: Detects(layers, i, f) && forall j, p :: j <= i ==> !Places(layers, j, p, f.feature.format)
    ensures r.Some? ==> forall d :: d in r.value.1 <==> ScannedAll(layers, d)
  {
    var common := CommonDetectors(layers);
    forall d ensures d in common <==> ScannedAll(layers, d) {
      CommonAre(layers, d);
    }
    if i, f :| Detects(layers, i, f) && forall j, p :: j <= i ==> !Places(layers, j, p, f.feature.format) {
      NoneInForce(layers, i + 1, f.feature.format);
      assert Homeless(common, layers, i, f);
    }
    if i, f :| 0 <= i < |layers| && Homeless(common, layers, i, f) {
      HomelessHasNoPlace(layers, i, f);
    }
  }

  lemma HomelessHasNoPlace(layers: seq<Layer>, i: nat, f: LayerFeature)
    requires i < |layers| && Homeless(CommonDetectors(layers), layers, i, f)
    ensures Detects(layers, i, f) && forall j, p :: j <= i ==> !Places(layers, j, p, f.feature.format)
  {
    CommonAre(layers, f.foundBy);
    forall j, p | j <= i ensures !Places(layers, j, p, f.feature.format) {
      if Places(layers, j, p, f.feature.format) {
        var j', p' := SomeInForce(layers, i, f.feature.format, j, p);
        InForceIs(layers, i + 1, i, f.feature.format, j', p');
        assert false;
      }
    }
  }
}
