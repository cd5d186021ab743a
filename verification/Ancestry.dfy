/** worker.go: `computeAncestryLayers`, which folds the layers of an image into the features each
    layer introduced, and the closed form of its result. */
module Ancestry {
  import opened VersionText
  import opened Models
  import opened Lists

  /** A feature together with the layer that introduced it. */
  datatype Introduced = Introduced(feature: AncestryFeature, layerIndex: nat)

  type Introductions = map<string, map<string, Introduced>>

  function Key(f: Feature): string {
    f.name + ":" + f.version
  }

  /** The detectors that scanned every layer. */
  function CommonDetectors(layers: seq<Layer>): set<Detector>
    requires layers != []
  {
    set d | d in layers[0].scannedBy && forall i :: 0 <= i < |layers| ==> d in layers[i].scannedBy
  }

  // ----- The fold

  function AddNamespaces(common: set<Detector>, known: map<string, LayerNamespace>, list: seq<LayerNamespace>)
    : map<string, LayerNamespace>
  {
    if list == [] then known
    else
      var ns, rest := list[|list| - 1], AddNamespaces(common, known, list[..|list| - 1]);
      if ns.foundBy in common then rest[ns.namespace.format := ns] else rest
  }

  /** The entry for a feature seen in layer `index`: inherited if the parents have its key. */
  function Entry(index: nat, ns: LayerNamespace, parents: Introductions, f: LayerFeature): Introduced {
    var vf, k := f.feature.format, Key(f.feature);
    if vf in parents && k in parents[vf] then parents[vf][k]
    else Introduced(AncestryFeature(f.feature, ns.namespace, ns.foundBy, f.foundBy), index)
  }

  function AddEntry(current: Introductions, f: Feature, entry: Introduced): Introductions {
    var known := if f.format in current then current[f.format] else map[];
    current[f.format := known[Key(f) := entry]]
  }

  function CurrentFeatures(common: set<Detector>, index: nat, namespaces: map<string, LayerNamespace>,
                           parents: Introductions, list: seq<LayerFeature>): Option<Introductions>
  {
    if list == [] then Some(map[])
    else
      var f := list[|list| - 1];
      match CurrentFeatures(common, index, namespaces, parents, list[..|list| - 1])
      case None => None
      case Some(current) =>
        if f.foundBy !in common then Some(current)
        else if f.feature.format !in namespaces then None
        else Some(AddEntry(current, f.feature, Entry(index, namespaces[f.feature.format], parents, f)))
  }

  datatype Progress = Progress(namespaces: map<string, LayerNamespace>, features: Introductions)

  function LayerStep(common: set<Detector>, index: nat, p: Progress, layer: Layer): Option<Progress> {
    var namespaces := AddNamespaces(common, p.namespaces, layer.namespaces);
    match CurrentFeatures(common, index, namespaces, p.features, layer.features)
    case None => None
    case Some(current) => Some(Progress(namespaces, p.features + current))
  }

  /** What the loop over the layers has gathered; None is the error return. */
  function Gather(common: set<Detector>, layers: seq<Layer>): Option<Progress> {
    if layers == [] then Some(Progress(map[], map[]))
    else
      match Gather(common, layers[..|layers| - 1])
      case None => None
      case Some(p) => LayerStep(common, |layers| - 1, p, layers[|layers| - 1])
  }

  // ----- The closed form

  /** The layer has a commonly detected feature of the format. */
  predicate Has(common: set<Detector>, layer: Layer, vf: string) {
    exists f :: f in layer.features && f.foundBy in common && f.feature.format == vf
  }

  /** The last feature of the list with a given format and key. */
  function LastFeature(common: set<Detector>, list: seq<LayerFeature>, vf: string, k: string): (r: Option<LayerFeature>)
    ensures r.None? ==> forall f :: f in list && f.foundBy in common ==> !(f.feature.format == vf && Key(f.feature) == k)
    ensures r.Some? ==> r.value in list && r.value.foundBy in common
    ensures r.Some? ==> r.value.feature.format == vf && Key(r.value.feature) == k
  {
    if list == [] then None
    else
      var f := list[|list| - 1];
      if f.foundBy in common && f.feature.format == vf && Key(f.feature) == k then Some(f)
      else LastFeature(common, list[..|list| - 1], vf, k)
  }

  /** The last namespace of the list with a given format. */
  function LastNamespace(common: set<Detector>, list: seq<LayerNamespace>, vf: string): (r: Option<LayerNamespace>)
    ensures r.Some? ==> r.value in list && r.value.foundBy in common && r.value.namespace.format == vf
    ensures r.None? ==> forall ns :: ns in list && ns.foundBy in common ==> ns.namespace.format != vf
  {
    if list == [] then None
    else
      var ns := list[|list| - 1];
      if ns.foundBy in common && ns.namespace.format == vf then Some(ns)
      else LastNamespace(common, list[..|list| - 1], vf)
  }

  /** The namespace in force for a format behind the given layers. */
  function NamespaceInForce(common: set<Detector>, layers: seq<Layer>, vf: string): (r: Option<LayerNamespace>)
    ensures r.Some? ==> r.value.foundBy in common && r.value.namespace.format == vf
  {
    if layers == [] then None
    else
      match LastNamespace(common, layers[|layers| - 1].namespaces, vf)
      case Some(ns) => Some(ns)
      case None => NamespaceInForce(common, layers[..|layers| - 1], vf)
  }

  /** A feature is seen while no namespace of its format is known. */
  ghost predicate Homeless(common: set<Detector>, layers: seq<Layer>, i: nat, f: LayerFeature)
    requires i < |layers|
  {
    && f in layers[i].features && f.foundBy in common
    && NamespaceInForce(common, layers[..i + 1], f.feature.format) == None
  }

  /** How a layer stands to a feature key of a version format: without any commonly detected
      feature of the format, with features of the format but not this key, or with the key. */
  datatype Standing = Silent | Without | With

  function StandingOf(common: set<Detector>, layer: Layer, vf: string, k: string): Standing {
    if LastFeature(common, layer.features, vf, k).Some? then With
    else if Has(common, layer, vf) then Without
    else Silent
  }

  function Standings(common: set<Detector>, layers: seq<Layer>, vf: string, k: string): seq<Standing> {
    seq(|layers|, i requires 0 <= i < |layers| => StandingOf(common, layers[i], vf, k))
  }

  /** `r` is the latest layer before `s` that is not silent. */
  ghost predicate Before(st: seq<Standing>, r: nat, s: nat)
    requires s <= |st|
  {
    r < s && st[r] != Silent && forall q :: r < q < s ==> st[q] == Silent
  }

  /** An unbroken run of presence that reaches the last layer with the format began at `s`. */
  ghost predicate BeganAt(st: seq<Standing>, s: nat) {
    && s < |st| && st[s] == With
    && (forall j :: s < j < |st| ==> st[j] != Without)
    && (forall r: nat :: Before(st, r, s) ==> st[r] == Without)
  }

  /** Layer `s` introduced the key that the last layer with the format has. */
  ghost predicate IntroducedAt(common: set<Detector>, layers: seq<Layer>, vf: string, k: string, s: nat) {
    BeganAt(Standings(common, layers, vf, k), s)
  }

  /** The feature reported for a key that layer `s` introduced: as last listed there, in the
      namespace in force for the format at that layer. */
  ghost predicate ReportedFrom(common: set<Detector>, layers: seq<Layer>, vf: string, k: string, s: nat, af: AncestryFeature)
  {
    && s < |layers|
    && var f, ns := LastFeature(common, layers[s].features, vf, k), NamespaceInForce(common, layers[..s + 1], vf);
       && f.Some? && ns.Some?
       && af == AncestryFeature(f.value.feature, ns.value.namespace, ns.value.foundBy, f.value.foundBy)
  }

  lemma {:induction false} NamespacesAreInForce(common: set<Detector>, layers: seq<Layer>, p: Progress, vf: string)
    requires Gather(common, layers) == Some(p)
    ensures (if vf in p.namespaces then Some(p.namespaces[vf]) else None) == NamespaceInForce(common, layers, vf)
  {
    if layers != [] {
      var n := |layers| - 1;
      var q := Gather(common, layers[..n]).value;
      NamespacesAreInForce(common, layers[..n], q, vf);
      AddedNamespaces(common, q.namespaces, layers[n].namespaces, vf);
    }
  }

  lemma {:induction false} AddedNamespaces(common: set<Detector>, known: map<string, LayerNamespace>,
                                           list: seq<LayerNamespace>, vf: string)
    ensures var m, last := AddNamespaces(common, known, list), LastNamespace(common, list, vf);
            if last.Some? then vf in m && m[vf] == last.value
            else (vf in m <==> vf in known) && (vf in m ==> m[vf] == known[vf])
  {
    if list != [] {
      AddedNamespaces(common, known, list[..|list| - 1], vf);
    }
  }

  /** What one layer contributes for a format and a key. */
  ghost predicate Contributes(common: set<Detector>, index: nat, namespaces: map<string, LayerNamespace>,
                              parents: Introductions, list: seq<LayerFeature>, current: Introductions, vf: string, k: string)
  {
    var last := LastFeature(common, list, vf, k);
    && (vf in current <==> exists f :: f in list && f.foundBy in common && f.feature.format == vf)
    && (vf in current && k in current[vf] <==> last.Some?)
    && (last.Some? ==> vf in namespaces && current[vf][k] == Entry(index, namespaces[vf], parents, last.value))
  }

  lemma {:induction false} CurrentIs(common: set<Detector>, index: nat, namespaces: map<string, LayerNamespace>,
                                     parents: Introductions, list: seq<LayerFeature>, vf: string, k: string)
    requires CurrentFeatures(common, index, namespaces, parents, list).Some?
    ensures Contributes(common, index, namespaces, parents, list,
                        CurrentFeatures(common, index, namespaces, parents, list).value, vf, k)
  {
    if list != [] {
      var init, f := list[..|list| - 1], list[|list| - 1];
      CurrentIs(common, index, namespaces, parents, init, vf, k);
      var current := CurrentFeatures(common, index, namespaces, parents, init).value;
      if f.foundBy in common {
        OneMoreContributes(common, index, namespaces, parents, list, current, vf, k);
      } else {
        assert list == init + [f];
      }
    }
  }

  lemma OneMoreContributes(common: set<Detector>, index: nat, namespaces: map<string, LayerNamespace>,
                           parents: Introductions, list: seq<LayerFeature>, current: Introductions, vf: string, k: string)
    requires list != [] && list[|list| - 1].foundBy in common && list[|list| - 1].feature.format in namespaces
    requires Contributes(common, index, namespaces, parents, list[..|list| - 1], current, vf, k)
    ensures var f := list[|list| - 1];
            Contributes(common, index, namespaces, parents, list,
                        AddEntry(current, f.feature, Entry(index, namespaces[f.feature.format], parents, f)), vf, k)
  {
    assert list == list[..|list| - 1] + [list[|list| - 1]];
  }

  lemma {:induction false} CurrentFails(common: set<Detector>, index: nat, namespaces: map<string, LayerNamespace>,
                                        parents: Introductions, list: seq<LayerFeature>)
    ensures CurrentFeatures(common, index, namespaces, parents, list) == None <==>
            exists f :: f in list && f.foundBy in common && f.feature.format !in namespaces
  {
    if list != [] {
      CurrentFails(common, index, namespaces, parents, list[..|list| - 1]);
      assert list == list[..|list| - 1] + [list[|list| - 1]];
    }
  }

  /** The computation fails exactly when some commonly detected feature is seen before any
      namespace of its format. */
  lemma {:induction false} FailsWhenHomeless(common: set<Detector>, layers: seq<Layer>)
    ensures Gather(common, layers) == None <==> exists i, f :: 0 <= i < |layers| && Homeless(common, layers, i, f)
  {
    if layers != [] {
      var n := |layers| - 1;
      var init := layers[..n];
      FailsWhenHomeless(common, init);
      forall i, f | 0 <= i < n ensures Homeless(common, init, i, f) <==> Homeless(common, layers, i, f) {
        assert init[..i + 1] == layers[..i + 1];
      }
      assert layers[..n + 1] == layers;
      if Gather(common, init).Some? {
        var p := Gather(common, init).value;
        var ns := AddNamespaces(common, p.namespaces, layers[n].namespaces);
        CurrentFails(common, n, ns, p.features, layers[n].features);
        forall f | f in layers[n].features && f.foundBy in common
          ensures f.feature.format !in ns <==> Homeless(common, layers, n, f)
        {
          NamespacesAreInForce(common, init, p, f.feature.format);
          AddedNamespaces(common, p.namespaces, layers[n].namespaces, f.feature.format);
        }
      }
    }
  }

  /** Where the fold says the run began. */
  function Began(st: seq<Standing>): Option<nat> {
    if st == [] then None
    else
      var n := |st| - 1;
      match st[n]
      case Silent => Began(st[..n])
      case Without => None
      case With => if Began(st[..n]).Some? then Began(st[..n]) else Some(n)
  }

  lemma {:induction false} BeganIsBeganAt(st: seq<Standing>)
    ensures forall s: nat :: Began(st) == Some(s) <==> BeganAt(st, s)
    ensures Began(st).Some? ==> forall r: nat :: Before(st, r, |st|) ==> st[r] == With
  {
    if st != [] {
      var n := |st| - 1;
      var init := st[..n];
      BeganIsBeganAt(init);
      forall s: nat | s < n
        ensures BeganAt(st, s) <==> BeganAt(init, s) && st[n] != Without
      {
        assert forall r: nat :: Before(st, r, s) <==> Before(init, r, s);
      }
      assert forall r: nat :: Before(st, r, n) <==> Before(init, r, n);
      if st[n] == With && Began(init).Some? {
        assert BeganAt(init, Began(init).value);
        SomeBefore(init, Began(init).value);
      } else if st[n] == With {
        assert forall r: nat :: Before(init, r, n) ==> init[r] == Without by {
          forall r: nat | Before(init, r, n) ensures init[r] == Without {
            if init[r] == With {
              RunHasABeginning(init, r);
            }
          }
        }
        assert BeganAt(st, n);
      }
    }
  }

  lemma {:induction false} SomeBefore(st: seq<Standing>, i: nat)
    requires i < |st| && st[i] != Silent
    ensures exists r: nat :: Before(st, r, |st|)
  {
    var n := |st| - 1;
    if st[n] != Silent {
      assert Before(st, n, |st|);
    } else {
      SomeBefore(st[..n], i);
      var r: nat :| Before(st[..n], r, n);
      assert Before(st, r, |st|);
    }
  }

  lemma {:induction false} RunHasABeginning(st: seq<Standing>, i: nat)
    requires i < |st| && st[i] == With && forall j :: i < j < |st| ==> st[j] != Without
    ensures exists s: nat :: BeganAt(st, s)
    decreases i
  {
    if forall r: nat :: Before(st, r, i) ==> st[r] == Without {
      assert BeganAt(st, i);
    } else {
      var r: nat :| Before(st, r, i) && st[r] != Without;
      RunHasABeginning(st, r);
    }
  }

  ghost predicate Recorded(features: Introductions, vf: string, k: string) {
    vf in features && k in features[vf]
  }

  /** The entry of a format and key is there exactly if the run has begun, and says where and what. */
  ghost predicate Tracks(common: set<Detector>, layers: seq<Layer>, features: Introductions, vf: string, k: string) {
    var began := Began(Standings(common, layers, vf, k));
    && (Recorded(features, vf, k) <==> began.Some?)
    && (began.Some? ==>
          && features[vf][k].layerIndex == began.value
          && ReportedFrom(common, layers, vf, k, began.value, features[vf][k].feature))
  }

  lemma {:induction false} GatherTracks(common: set<Detector>, layers: seq<Layer>, p: Progress, vf: string, k: string)
    requires Gather(common, layers) == Some(p)
    ensures Tracks(common, layers, p.features, vf, k)
  {
    if layers != [] {
      var n := |layers| - 1;
      var q := Gather(common, layers[..n]).value;
      GatherTracks(common, layers[..n], q, vf, k);
      TrackLayer(common, n, q, layers[n], p, vf, k);
      match StandingOf(common, layers[n], vf, k) {
        case With =>
          NamespacesAreInForce(common, layers, p, vf);
          TrackPresent(common, layers, q.features, p, vf, k);
        case _ => TrackAbsent(common, layers, q.features, p.features, vf, k);
      }
    }
  }

  lemma StandingsInit(common: set<Detector>, layers: seq<Layer>, vf: string, k: string)
    requires layers != []
    ensures var st, n := Standings(common, layers, vf, k), |layers| - 1;
            st[..n] == Standings(common, layers[..n], vf, k) && st[n] == StandingOf(common, layers[n], vf, k)
  {
  }

  /** What is reported from an earlier layer does not depend on later layers. */
  lemma ReportedFromInit(common: set<Detector>, layers: seq<Layer>, vf: string, k: string, s: nat, af: AncestryFeature)
    requires layers != [] && s < |layers| - 1 && ReportedFrom(common, layers[..|layers| - 1], vf, k, s, af)
    ensures ReportedFrom(common, layers, vf, k, s, af)
  {
    assert layers[..|layers| - 1][..s + 1] == layers[..s + 1];
  }

  lemma TrackAbsent(common: set<Detector>, layers: seq<Layer>, before: Introductions, after: Introductions,
                    vf: string, k: string)
    requires layers != [] && Tracks(common, layers[..|layers| - 1], before, vf, k)
    requires match StandingOf(common, layers[|layers| - 1], vf, k)
             case Silent =>
               && (Recorded(after, vf, k) <==> Recorded(before, vf, k))
               && (Recorded(before, vf, k) ==> after[vf][k] == before[vf][k])
             case Without => !Recorded(after, vf, k)
             case With => false
    ensures Tracks(common, layers, after, vf, k)
  {
    StandingsInit(common, layers, vf, k);
    if Recorded(after, vf, k) {
      ReportedFromInit(common, layers, vf, k, before[vf][k].layerIndex, before[vf][k].feature);
    }
  }

  lemma TrackPresent(common: set<Detector>, layers: seq<Layer>, before: Introductions, p: Progress, vf: string, k: string)
    requires layers != [] && Tracks(common, layers[..|layers| - 1], before, vf, k)
    requires StandingOf(common, layers[|layers| - 1], vf, k) == With && vf in p.namespaces && Recorded(p.features, vf, k)
    requires NamespaceInForce(common, layers, vf) == Some(p.namespaces[vf])
    requires var f := LastFeature(common, layers[|layers| - 1].features, vf, k);
             f.Some? && p.features[vf][k] == Entry(|layers| - 1, p.namespaces[vf], before, f.value)
    ensures Tracks(common, layers, p.features, vf, k)
  {
    StandingsInit(common, layers, vf, k);
    if Recorded(before, vf, k) {
      ReportedFromInit(common, layers, vf, k, before[vf][k].layerIndex, before[vf][k].feature);
    } else {
      assert layers[..|layers|] == layers;
    }
  }

  /** How one layer changes the entry of a format and key. */
  lemma TrackLayer(common: set<Detector>, index: nat, q: Progress, layer: Layer, p: Progress, vf: string, k: string)
    requires LayerStep(common, index, q, layer) == Some(p)
    ensures match StandingOf(common, layer, vf, k)
            case Silent =>
              (Recorded(p.features, vf, k) <==> Recorded(q.features, vf, k)) &&
              (Recorded(q.features, vf, k) ==> p.features[vf][k] == q.features[vf][k])
            case Without => !Recorded(p.features, vf, k)
            case With =>
              Recorded(p.features, vf, k) && vf in p.namespaces &&
              p.features[vf][k] == Entry(index, p.namespaces[vf], q.features, LastFeature(common, layer.features, vf, k).value)
  {
    CurrentIs(common, index, p.namespaces, q.features, layer.features, vf, k);
  }

  /** The gathered entries are the closed form: one for each key that some layer introduced. */
  lemma GatherIsClosedForm(common: set<Detector>, layers: seq<Layer>, p: Progress, vf: string, k: string)
    requires Gather(common, layers) == Some(p)
    ensures Recorded(p.features, vf, k) <==> exists s: nat :: IntroducedAt(common, layers, vf, k, s)
    ensures forall s: nat :: IntroducedAt(common, layers, vf, k, s) ==>
              p.features[vf][k].layerIndex == s && ReportedFrom(common, layers, vf, k, s, p.features[vf][k].feature)
  {
    GatherTracks(common, layers, p, vf, k);
    BeganIsBeganAt(Standings(common, layers, vf, k));
    var began := Began(Standings(common, layers, vf, k));
    if began.Some? {
      assert IntroducedAt(common, layers, vf, k, began.value);
    }
  }

  /** The keys reported for a format are exactly those of the last layer with the format. */
  lemma KeysOfTheLastLayer(common: set<Detector>, layers: seq<Layer>, vf: string, k: string)
    ensures var st := Standings(common, layers, vf, k);
            (exists s: nat :: IntroducedAt(common, layers, vf, k, s)) <==>
            (exists r: nat :: Before(st, r, |st|) && st[r] == With)
  {
    var st := Standings(common, layers, vf, k);
    BeganIsBeganAt(st);
    if s: nat :| BeganAt(st, s) {
      SomeBefore(st, s);
    }
    if r: nat :| Before(st, r, |st|) && st[r] == With {
      RunHasABeginning(st, r);
      var s: nat :| BeganAt(st, s);
      assert IntroducedAt(common, layers, vf, k, s);
    }
  }

  // ----- The result

  /** The features listed in layer `i` of the ancestry. */
  function IntroducedIn(features: Introductions, i: nat): set<AncestryFeature> {
    set vf, k | vf in features && k in features[vf] && features[vf][k].layerIndex == i :: features[vf][k].feature
  }

  /** Layer `i` introduced a key for which this feature is reported. */
  ghost predicate ListedIn(common: set<Detector>, layers: seq<Layer>, i: nat, af: AncestryFeature) {
    exists vf, k :: IntroducedAt(common, layers, vf, k, i) && ReportedFrom(common, layers, vf, k, i, af)
  }

  /** On success layer `i` lists exactly the features that layer introduced. */
  lemma AncestryIsClosedForm(common: set<Detector>, layers: seq<Layer>, p: Progress, i: nat, af: AncestryFeature)
    requires Gather(common, layers) == Some(p)
    ensures af in IntroducedIn(p.features, i) <==> ListedIn(common, layers, i, af)
  {
    if af in IntroducedIn(p.features, i) {
      var vf, k :|
        vf in p.features && k in p.features[vf] && p.features[vf][k].layerIndex == i && p.features[vf][k].feature == af;
      GatherIsClosedForm(common, layers, p, vf, k);
      assert Recorded(p.features, vf, k);
      assert IntroducedAt(common, layers, vf, k, i);
    }
    if vf, k :| IntroducedAt(common, layers, vf, k, i) && ReportedFrom(common, layers, vf, k, i, af) {
      GatherIsClosedForm(common, layers, p, vf, k);
      assert Recorded(p.features, vf, k);
    }
  }

  /** Reported features have the format of their namespace, and both detectors are common. */
  lemma ReportedFeaturesAreConsistent(common: set<Detector>, layers: seq<Layer>, p: Progress, i: nat, af: AncestryFeature)
    requires Gather(common, layers) == Some(p) && af in IntroducedIn(p.features, i)
    ensures i < |layers|
    ensures af.feature.format == af.namespace.format
    ensures af.namespaceBy in common && af.featureBy in common
  {
    AncestryIsClosedForm(common, layers, p, i, af);
  }

  /** The entry under a format and key is a feature of that format and key. */
  lemma EntriesAreKeyed(common: set<Detector>, layers: seq<Layer>, p: Progress, vf: string, k: string)
    requires Gather(common, layers) == Some(p) && Recorded(p.features, vf, k)
    ensures var e := p.features[vf][k];
            e.layerIndex < |layers| && e.feature.feature.format == vf && Key(e.feature.feature) == k
  {
    GatherIsClosedForm(common, layers, p, vf, k);
  }

  // ----- The loops

  method GetCommonDetectors(layers: seq<Layer>) returns (common: set<Detector>)
    requires layers != []
    ensures common == CommonDetectors(layers)
  {
    common := set d | d in layers[0].scannedBy;
    for i := 0 to |layers|
      invariant common == set d | d in layers[0].scannedBy && forall j :: 0 <= j < i ==> d in layers[j].scannedBy
    {
      var detectors := set d | d in layers[i].scannedBy;
      common := common * detectors;
    }
  }

  method GatherFeatures(common: set<Detector>, layers: seq<Layer>) returns (r: Option<Introductions>)
    ensures r.None? <==> Gather(common, layers).None?
    ensures r.Some? ==> r.value == Gather(common, layers).value.features
  {
    var namespaces: map<string, LayerNamespace> := map[];
    var features: Introductions := map[];
    for index := 0 to |layers|
      invariant Gather(common, layers[..index]) == Some(Progress(namespaces, features))
    {
      var layer := layers[index];
      assert layers[..index + 1][..index] == layers[..index];
      ghost var before := namespaces;
      for n := 0 to |layer.namespaces|
        invariant namespaces == AddNamespaces(common, before, layer.namespaces[..n])
      {
        assert layer.namespaces[..n + 1][..n] == layer.namespaces[..n];
        var ns := layer.namespaces[n];
        if ns.foundBy !in common {
          continue;
        }
        namespaces := namespaces[ns.namespace.format := ns];
      }
      assert layer.namespaces[..|layer.namespaces|] == layer.namespaces;
      var current := ReadFeatures(common, index, namespaces, features, layer.features);
      if current.None? {
        GatherStaysFailed(common, layers, index + 1);
        return None;
      }
      features := features + current.value;
    }
    assert layers[..|layers|] == layers;
    return Some(features);
  }

  lemma {:induction false} GatherStaysFailed(common: set<Detector>, layers: seq<Layer>, i: nat)
    requires i <= |layers| && Gather(common, layers[..i]).None?
    ensures Gather(common, layers).None?
    decreases |layers| - i
  {
    if i == |layers| {
      assert layers[..i] == layers;
    } else {
      assert layers[..i + 1][..i] == layers[..i];
      GatherStaysFailed(common, layers, i + 1);
    }
  }

  /** The loop over the features of one layer. */
  method ReadFeatures(common: set<Detector>, index: nat, namespaces: map<string, LayerNamespace>, features: Introductions,
                      list: seq<LayerFeature>) returns (r: Option<Introductions>)
    ensures r == CurrentFeatures(common, index, namespaces, features, list)
  {
    var currentFeatures: Introductions := map[];
    for n := 0 to |list|
      invariant CurrentFeatures(common, index, namespaces, features, list[..n]) == Some(currentFeatures)
    {
      assert list[..n + 1][..n] == list[..n];
      var f := list[n];
      if f.foundBy !in common {
        continue;
      }
      var vf, k := f.feature.format, Key(f.feature);
      if vf in namespaces {
        var ns := namespaces[vf];
        var currentMap: map<string, Introduced> := map[];
        if vf in currentFeatures {
          currentMap := currentFeatures[vf];
        }
        var inherited := false;
        if vf in features {
          if k in features[vf] {
            currentMap := currentMap[k := features[vf][k]];
            inherited := true;
          }
        }
        if !inherited {
          var feature := AncestryFeature(f.feature, ns.namespace, ns.foundBy, f.foundBy);
          currentMap := currentMap[k := Introduced(feature, index)];
        }
        currentFeatures := currentFeatures[vf := currentMap];
      } else {
        CurrentFails(common, index, namespaces, features, list);
        return None;
      }
    }
    assert list[..|list|] == list;
    return Some(currentFeatures);
  }

  predicate IsEntry(features: Introductions, e: (string, string), af: AncestryFeature, i: nat) {
    e.0 in features && e.1 in features[e.0] && features[e.0][e.1] == Introduced(af, i)
  }

  /** The features listed so far: those of the entries in `done`. */
  ghost predicate Listed(features: Introductions, done: set<(string, string)>, i: nat, list: seq<AncestryFeature>) {
    && NoDuplicates(list)
    && forall af :: af in list <==> exists e :: e in done && IsEntry(features, e, af, i)
  }

  ghost predicate Keyed(features: Introductions, n: nat) {
    forall vf, k :: Recorded(features, vf, k) ==>
      && features[vf][k].layerIndex < n
      && features[vf][k].feature.feature.format == vf && Key(features[vf][k].feature.feature) == k
  }

  /** The final loops, which go through the maps in any order. */
  method ListFeatures(features: Introductions, hashes: seq<string>) returns (r: seq<AncestryLayer>)
    requires Keyed(features, |hashes|)
    ensures |r| == |hashes| && forall i :: 0 <= i < |r| ==>
              && r[i].hash == hashes[i] && NoDuplicates(r[i].features)
              && (set af | af in r[i].features) == IntroducedIn(features, i)
  {
    r := seq(|hashes|, i requires 0 <= i < |hashes| => AncestryLayer(hashes[i], []));
    ghost var done: set<(string, string)> := {};
    var formats := features.Keys;
    while formats != {}
      invariant formats <= features.Keys
      invariant forall e :: e in done <==> Recorded(features, e.0, e.1) && e.0 !in formats
      invariant |r| == |hashes|
      invariant forall i :: 0 <= i < |r| ==> r[i].hash == hashes[i] && Listed(features, done, i, r[i].features)
    {
      var vf :| vf in formats;
      var keys := features[vf].Keys;
      while keys != {}
        invariant keys <= features[vf].Keys
        invariant forall e :: e in done <==>
                    Recorded(features, e.0, e.1) && (e.0 !in formats || (e.0 == vf && e.1 !in keys))
        invariant |r| == |hashes|
        invariant forall i :: 0 <= i < |r| ==> r[i].hash == hashes[i] && Listed(features, done, i, r[i].features)
      {
        var k :| k in keys;
        assert Recorded(features, vf, k);
        var e := features[vf][k];
        ListOne(features, done, vf, k, r[e.layerIndex].features);
        ghost var was := r;
        r := r[e.layerIndex := r[e.layerIndex].(features := r[e.layerIndex].features + [e.feature])];
        keys := keys - {k};
        forall i | 0 <= i < |r| && i != e.layerIndex ensures Listed(features, done + {(vf, k)}, i, r[i].features) {
          assert Listed(features, done, i, was[i].features);
        }
        done := done + {(vf, k)};
      }
      formats := formats - {vf};
    }
    forall i | 0 <= i < |r| ensures (set af | af in r[i].features) == IntroducedIn(features, i) {
      assert Listed(features, done, i, r[i].features);
      forall af ensures af in r[i].features <==> af in IntroducedIn(features, i) {
        if af in IntroducedIn(features, i) {
          var vf, k :|
            vf in features && k in features[vf] && features[vf][k].layerIndex == i && features[vf][k].feature == af;
          assert Recorded(features, vf, k) && (vf, k) in done && IsEntry(features, (vf, k), af, i);
        }
      }
    }
  }

  lemma ListOne(features: Introductions, done: set<(string, string)>, vf: string, k: string, list: seq<AncestryFeature>)
    requires forall e :: e in done ==> Recorded(features, e.0, e.1)
    requires Recorded(features, vf, k) && (vf, k) !in done
    requires exists n :: Keyed(features, n)
    requires Listed(features, done, features[vf][k].layerIndex, list)
    ensures Listed(features, done + {(vf, k)}, features[vf][k].layerIndex, list + [features[vf][k].feature])
  {
    var n := features[vf][k];
    forall e | e in done ensures features[e.0][e.1].feature != n.feature {
      assert Recorded(features, e.0, e.1);
      assert e == (e.0, e.1);
    }
    assert n.feature !in list;
    var list' := list + [n.feature];
    forall af ensures af in list' <==> exists e :: e in done + {(vf, k)} && IsEntry(features, e, af, n.layerIndex) {
      if af == n.feature {
        assert (vf, k) in done + {(vf, k)} && IsEntry(features, (vf, k), af, n.layerIndex);
      } else if af in list {
        var e :| e in done && IsEntry(features, e, af, n.layerIndex);
        assert e in done + {(vf, k)};
      }
    }
  }

  /** Every layer lists, once each, the features it introduced. */
  ghost predicate IsAncestry(common: set<Detector>, layers: seq<Layer>, ancestry: seq<AncestryLayer>) {
    && |ancestry| == |layers|
    && forall i :: 0 <= i < |layers| ==>
         && ancestry[i].hash == layers[i].hash && NoDuplicates(ancestry[i].features)
         && forall af :: af in ancestry[i].features <==> ListedIn(common, layers, i, af)
  }

  type Outcome = Option<(seq<AncestryLayer>, set<Detector>)>

  /** Nothing for no layers; otherwise an error exactly if some commonly detected feature has no
      namespace, and on success the ancestry and the common detectors. */
  ghost predicate IsOutcome(layers: seq<Layer>, r: Outcome) {
    if layers == [] then r == Some(([], {}))
    else
      var common := CommonDetectors(layers);
      if exists i, f :: 0 <= i < |layers| && Homeless(common, layers, i, f) then r == None
      else r.Some? && r.value.1 == common && IsAncestry(common, layers, r.value.0)
  }

  method ComputeAncestryLayers(layers: seq<Layer>) returns (r: Outcome)
    ensures IsOutcome(layers, r)
  {
    if |layers| == 0 {
      return Some(([], {}));
    }
    var common := GetCommonDetectors(layers);
    FailsWhenHomeless(common, layers);
    var features := GatherFeatures(common, layers);
    if features.None? {
      return None;
    }
    ghost var p := Gather(common, layers).value;
    forall vf, k | Recorded(features.value, vf, k)
      ensures features.value[vf][k].layerIndex < |layers|
      ensures features.value[vf][k].feature.feature.format == vf && Key(features.value[vf][k].feature.feature) == k
    {
      EntriesAreKeyed(common, layers, p, vf, k);
    }
    var ancestryLayers := ListFeatures(features.value, seq(|layers|, i requires 0 <= i < |layers| => layers[i].hash));
    forall i, af | 0 <= i < |layers| ensures af in ancestryLayers[i].features <==> ListedIn(common, layers, i, af) {
      assert af in ancestryLayers[i].features <==> af in IntroducedIn(p.features, i);
      AncestryIsClosedForm(common, layers, p, i, af);
    }
    return Some((ancestryLayers, common));
  }

  // ----- Splicing in an empty layer

  /** The position of layer `i` once a layer is spliced in at `at`. */
  function Up(i: nat, at: nat): nat {
    if i < at then i else i + 1
  }

  function ShiftEntry(e: Introduced, at: nat): Introduced {
    e.(layerIndex := Up(e.layerIndex, at))
  }

  function ShiftMap(entries: map<string, Introduced>, at: nat): map<string, Introduced> {
    map k | k in entries :: ShiftEntry(entries[k], at)
  }

  function Shift(features: Introductions, at: nat): Introductions {
    map vf | vf in features :: ShiftMap(features[vf], at)
  }

  function ShiftProgress(p: Option<Progress>, at: nat): Option<Progress> {
    match p
    case None => None
    case Some(q) => Some(q.(features := Shift(q.features, at)))
  }

  lemma {:induction false} CurrentShifts(common: set<Detector>, index: nat, namespaces: map<string, LayerNamespace>,
                                         parents: Introductions, list: seq<LayerFeature>, at: nat)
    requires at <= index
    ensures CurrentFeatures(common, index + 1, namespaces, Shift(parents, at), list) ==
            match CurrentFeatures(common, index, namespaces, parents, list)
            case None => None
            case Some(current) => Some(Shift(current, at))
  {
    if list == [] {
      assert Shift(map[], at) == map[];
    } else {
      var init, f := list[..|list| - 1], list[|list| - 1];
      CurrentShifts(common, index, namespaces, parents, init, at);
      if CurrentFeatures(common, index, namespaces, parents, init).Some? && f.feature.format in namespaces {
        var ns := namespaces[f.feature.format];
        EntryShifts(index, ns, parents, f, at);
        AddEntryShifts(CurrentFeatures(common, index, namespaces, parents, init).value, f.feature,
                       Entry(index, ns, parents, f), at);
      }
    }
  }

  lemma EntryShifts(index: nat, ns: LayerNamespace, parents: Introductions, f: LayerFeature, at: nat)
    requires at <= index
    ensures Entry(index + 1, ns, Shift(parents, at), f) == ShiftEntry(Entry(index, ns, parents, f), at)
  {
  }

  lemma ShiftMapUpdate(entries: map<string, Introduced>, k: string, entry: Introduced, at: nat)
    ensures ShiftMap(entries[k := entry], at) == ShiftMap(entries, at)[k := ShiftEntry(entry, at)]
  {
  }

  lemma AddEntryShifts(current: Introductions, f: Feature, entry: Introduced, at: nat)
    ensures AddEntry(Shift(current, at), f, ShiftEntry(entry, at)) == Shift(AddEntry(current, f, entry), at)
  {
    var a, b := AddEntry(Shift(current, at), f, ShiftEntry(entry, at)), Shift(AddEntry(current, f, entry), at);
    assert a.Keys == current.Keys + {f.format} == b.Keys;
    forall vf | vf in a ensures a[vf] == b[vf] {
      if vf == f.format {
        ShiftMapUpdate(if vf in current then current[vf] else map[], Key(f), entry, at);
        assert ShiftMap(map[], at) == map[];
      }
    }
  }

  lemma LayerStepShifts(common: set<Detector>, index: nat, p: Progress, layer: Layer, at: nat)
    requires at <= index
    ensures LayerStep(common, index + 1, p.(features := Shift(p.features, at)), layer) ==
            ShiftProgress(LayerStep(common, index, p, layer), at)
  {
    var namespaces := AddNamespaces(common, p.namespaces, layer.namespaces);
    CurrentShifts(common, index, namespaces, p.features, layer.features, at);
    var current := CurrentFeatures(common, index, namespaces, p.features, layer.features);
    if current.Some? {
      assert Shift(p.features + current.value, at) == Shift(p.features, at) + Shift(current.value, at);
    }
  }

  lemma EarlyEntriesStay(common: set<Detector>, layers: seq<Layer>, p: Progress)
    requires Gather(common, layers) == Some(p)
    ensures Shift(p.features, |layers|) == p.features
  {
    forall vf, k | Recorded(p.features, vf, k) ensures Shift(p.features, |layers|)[vf][k] == p.features[vf][k] {
      EntriesAreKeyed(common, layers, p, vf, k);
    }
    forall vf | vf in p.features ensures Shift(p.features, |layers|)[vf] == p.features[vf] {
      forall k | k in p.features[vf] ensures Shift(p.features, |layers|)[vf][k] == p.features[vf][k] {
        assert Recorded(p.features, vf, k);
      }
    }
  }

  lemma GatherOneMore(common: set<Detector>, layers: seq<Layer>, last: Layer)
    ensures Gather(common, layers + [last]) ==
            match Gather(common, layers)
            case None => None
            case Some(p) => LayerStep(common, |layers|, p, last)
  {
  }

  lemma EmptyLayerStep(common: set<Detector>, index: nat, p: Progress, empty: Layer)
    requires empty.namespaces == [] && empty.features == []
    ensures LayerStep(common, index, p, empty) == Some(p)
  {
    assert p.features + map[] == p.features;
  }

  lemma ShiftOneMore(common: set<Detector>, long: seq<Layer>, short: seq<Layer>, last: Layer, at: nat)
    requires |long| == |short| + 1 && at <= |short|
    requires Gather(common, long) == ShiftProgress(Gather(common, short), at)
    ensures Gather(common, long + [last]) == ShiftProgress(Gather(common, short + [last]), at)
  {
    GatherOneMore(common, long, last);
    GatherOneMore(common, short, last);
    if Gather(common, short).Some? {
      LayerStepShifts(common, |short|, Gather(common, short).value, last, at);
    }
  }

  lemma ShiftBase(common: set<Detector>, a: seq<Layer>, empty: Layer)
    requires empty.namespaces == [] && empty.features == []
    ensures Gather(common, a + [empty]) == ShiftProgress(Gather(common, a), |a|)
  {
    GatherOneMore(common, a, empty);
    if Gather(common, a).Some? {
      EmptyLayerStep(common, |a|, Gather(common, a).value, empty);
      EarlyEntriesStay(common, a, Gather(common, a).value);
    }
  }

  lemma {:induction false} GatherShifts(common: set<Detector>, a: seq<Layer>, empty: Layer, b: seq<Layer>)
    requires empty.namespaces == [] && empty.features == []
    ensures Gather(common, a + [empty] + b) == ShiftProgress(Gather(common, a + b), |a|)
  {
    if b == [] {
      assert a + [empty] + b == a + [empty] && a + b == a;
      ShiftBase(common, a, empty);
    } else {
      var init, last := b[..|b| - 1], b[|b| - 1];
      GatherShifts(common, a, empty, init);
      assert a + [empty] + b == (a + [empty] + init) + [last] && a + b == (a + init) + [last];
      ShiftOneMore(common, a + [empty] + init, a + init, last, |a|);
    }
  }

  lemma SpliceFold(a: seq<Layer>, empty: Layer, b: seq<Layer>, i: nat)
    requires a + b != [] && empty.namespaces == [] && empty.features == []
    requires forall d :: d in CommonDetectors(a + b) ==> d in empty.scannedBy
    ensures CommonDetectors(a + [empty] + b) == CommonDetectors(a + b)
    ensures var common := CommonDetectors(a + b);
            var long, short := Gather(common, a + [empty] + b), Gather(common, a + b);
            && (long.None? <==> short.None?)
            && (long.Some? ==>
                  && IntroducedIn(long.value.features, |a|) == {}
                  && IntroducedIn(long.value.features, Up(i, |a|)) == IntroducedIn(short.value.features, i))
  {
    SameCommonDetectors(a, empty, b);
    var common := CommonDetectors(a + b);
    GatherShifts(common, a, empty, b);
    if Gather(common, a + b).Some? {
      ShiftedIntroductions(Gather(common, a + b).value.features, |a|, i);
    }
  }

  lemma SpliceFeature(a: seq<Layer>, empty: Layer, b: seq<Layer>, i: nat, af: AncestryFeature)
    requires a + b != [] && empty.namespaces == [] && empty.features == []
    requires forall d :: d in CommonDetectors(a + b) ==> d in empty.scannedBy
    requires Gather(CommonDetectors(a + b), a + b).Some?
    ensures var common := CommonDetectors(a + b);
            && !ListedIn(common, a + [empty] + b, |a|, af)
            && (ListedIn(common, a + [empty] + b, Up(i, |a|), af) <==> ListedIn(common, a + b, i, af))
  {
    SpliceFold(a, empty, b, i);
    var common, long := CommonDetectors(a + b), a + [empty] + b;
    AncestryIsClosedForm(common, a + b, Gather(common, a + b).value, i, af);
    AncestryIsClosedForm(common, long, Gather(common, long).value, Up(i, |a|), af);
    AncestryIsClosedForm(common, long, Gather(common, long).value, |a|, af);
  }

  /** Splicing an empty layer, scanned by all common detectors, into a non-empty list of layers
      changes the outcome only by one more layer, without features, at that place. */
  lemma SpliceEmptyLayer(a: seq<Layer>, empty: Layer, b: seq<Layer>, long: Outcome, short: Outcome)
    requires a + b != [] && empty.namespaces == [] && empty.features == []
    requires forall d :: d in CommonDetectors(a + b) ==> d in empty.scannedBy
    requires IsOutcome(a + [empty] + b, long) && IsOutcome(a + b, short)
    ensures long.None? <==> short.None?
    ensures long.Some? ==> long.value.1 == short.value.1 && |long.value.0| == |short.value.0| + 1
    ensures long.Some? ==> long.value.0[|a|] == AncestryLayer(empty.hash, [])
    ensures long.Some? ==> forall i :: 0 <= i < |short.value.0| ==>
              var l, s := long.value.0[Up(i, |a|)], short.value.0[i];
              l.hash == s.hash && NoDuplicates(l.features) && Elements(l.features) == Elements(s.features)
  {
    var layers, common := a + [empty] + b, CommonDetectors(a + b);
    SpliceFold(a, empty, b, 0);
    FailsWhenHomeless(common, a + b);
    FailsWhenHomeless(common, layers);
    if long.Some? {
      forall i | 0 <= i < |a + b|
        ensures long.value.0[Up(i, |a|)].hash == short.value.0[i].hash
        ensures Elements(long.value.0[Up(i, |a|)].features) == Elements(short.value.0[i].features)
      {
        SplicedLayer(a, empty, b, i, long.value.0, short.value.0);
      }
      SplicedLayer(a, empty, b, 0, long.value.0, short.value.0);
    }
  }

  lemma SplicedLayer(a: seq<Layer>, empty: Layer, b: seq<Layer>, i: nat, long: seq<AncestryLayer>, short: seq<AncestryLayer>)
    requires i < |a + b| && empty.namespaces == [] && empty.features == []
    requires forall d :: d in CommonDetectors(a + b) ==> d in empty.scannedBy
    requires Gather(CommonDetectors(a + b), a + b).Some?
    requires IsAncestry(CommonDetectors(a + b), a + [empty] + b, long) && IsAncestry(CommonDetectors(a + b), a + b, short)
    ensures long[|a|] == AncestryLayer(empty.hash, [])
    ensures long[Up(i, |a|)].hash == short[i].hash && Elements(long[Up(i, |a|)].features) == Elements(short[i].features)
  {
    assert (a + [empty] + b)[Up(i, |a|)] == (a + b)[i] && (a + [empty] + b)[|a|] == empty;
    var spliced := long[|a|].features;
    if spliced != [] {
      assert spliced[0] in spliced;
      SpliceFeature(a, empty, b, i, spliced[0]);
      assert false;
    }
    forall af ensures af in long[Up(i, |a|)].features <==> af in short[i].features {
      SpliceFeature(a, empty, b, i, af);
    }
  }

  lemma SameCommonDetectors(a: seq<Layer>, empty: Layer, b: seq<Layer>)
    requires a + b != []
    requires forall d :: d in CommonDetectors(a + b) ==> d in empty.scannedBy
    ensures CommonDetectors(a + [empty] + b) == CommonDetectors(a + b)
  {
    var long, short := a + [empty] + b, a + b;
    assert forall i :: 0 <= i < |short| ==> short[i] == long[Up(i, |a|)];
    forall d | d in CommonDetectors(long) ensures d in CommonDetectors(short) {
      forall i | 0 <= i < |short| ensures d in short[i].scannedBy {
        assert d in long[Up(i, |a|)].scannedBy;
      }
    }
    forall d | d in CommonDetectors(short) ensures d in CommonDetectors(long) {
      forall i | 0 <= i < |long| ensures d in long[i].scannedBy {
        assert i != |a| ==> long[i] == short[if i < |a| then i else i - 1];
      }
    }
  }

  lemma ShiftedIntroductions(features: Introductions, at: nat, i: nat)
    ensures IntroducedIn(Shift(features, at), at) == {}
    ensures IntroducedIn(Shift(features, at), Up(i, at)) == IntroducedIn(features, i)
  {
    var shifted: Introductions := Shift(features, at);
    forall vf, k | Recorded(features, vf, k)
      ensures shifted[vf][k].feature == features[vf][k].feature
      ensures shifted[vf][k].layerIndex != at
      ensures shifted[vf][k].layerIndex == Up(i, at) <==> features[vf][k].layerIndex == i
    {}
    forall af | af in IntroducedIn(features, i) ensures af in IntroducedIn(shifted, Up(i, at)) {
      var vf, k :|
        vf in features && k in features[vf] && features[vf][k].layerIndex == i && features[vf][k].feature == af;
      assert Recorded(features, vf, k);
    }
    forall af | af in IntroducedIn(shifted, Up(i, at)) ensures af in IntroducedIn(features, i) {
      var vf, k :|
        vf in shifted && k in shifted[vf] && shifted[vf][k].layerIndex == Up(i, at) && shifted[vf][k].feature == af;
      assert Recorded(features, vf, k);
    }
  }
}
