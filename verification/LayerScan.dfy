/** worker.go and database/dbutil.go: scanning the layers of an image with the detectors that have
    not seen them yet, merging what they find, and recording the processed ancestry. */
module LayerScan {
  import opened VersionText
  import opened Models
  import opened Lists
  import Ancestry

  // ----- MergeLayers and DiffDetectors

  lemma OneMoreElement<T>(xs: seq<T>, x: T)
    ensures Elements(xs + [x]) == Elements(xs) + {x}
  {
  }

  /** `xs` followed by the elements of `ys` that are new, each once. */
  function AppendMissing<T(==)>(xs: seq<T>, ys: seq<T>): seq<T> {
    if ys == [] then xs
    else
      var r, y := AppendMissing(xs, ys[..|ys| - 1]), ys[|ys| - 1];
      if y in r then r else r + [y]
  }

  /** Appending keeps what was there in place, adds exactly the new elements, once each, and a
      second time adds nothing. */
  lemma {:induction false} AppendMissingIs<T>(xs: seq<T>, ys: seq<T>)
    ensures xs <= AppendMissing(xs, ys)
    ensures Elements(AppendMissing(xs, ys)) == Elements(xs) + Elements(ys)
    ensures NoDuplicates(xs) ==> NoDuplicates(AppendMissing(xs, ys))
    ensures Elements(ys) <= Elements(xs) ==> AppendMissing(xs, ys) == xs
  {
    if ys != [] {
      var init, y := ys[..|ys| - 1], ys[|ys| - 1];
      AppendMissingIs(xs, init);
      assert ys == init + [y];
      OneMoreElement(init, y);
      OneMoreElement(AppendMissing(xs, init), y);
    }
  }

  function Merged(l: Layer, more: Layer): Layer {
    Layer(l.hash, AppendMissing(l.scannedBy, more.scannedBy), AppendMissing(l.namespaces, more.namespaces),
          AppendMissing(l.features, more.features))
  }

  /** A layer that is updated in place. */
  class LayerRecord {
    var content: Layer

    constructor (l: Layer)
      ensures content == l
    {
      content := l;
    }

    /** Merges everything of `more`, which may be the same record, into this one. */
    method MergeLayers(more: LayerRecord)
      modifies this
      ensures content == Merged(old(content), old(more.content))
    {
      var features := AddAll(content.features, more.content.features);
      var namespaces := AddAll(content.namespaces, more.content.namespaces);
      var scannedBy := AddAll(content.scannedBy, more.content.scannedBy);
      content := content.(features := features, namespaces := namespaces, scannedBy := scannedBy);
    }
  }

  /** One of the loops of `MergeLayers`, with its set of what is present. */
  method AddAll<T(==)>(xs: seq<T>, ys: seq<T>) returns (r: seq<T>)
    ensures r == AppendMissing(xs, ys)
  {
    r := xs;
    var present := set x | x in xs;
    for n := 0 to |ys|
      invariant r == AppendMissing(xs, ys[..n]) && present == Elements(r)
    {
      assert ys[..n + 1][..n] == ys[..n];
      if ys[n] !in present {
        r := r + [ys[n]];
        present := present + {ys[n]};
      }
    }
    assert ys[..|ys|] == ys;
  }

  /** The detectors of `d1` that are not in `d2`, in no particular order. */
  method DiffDetectors(d1: seq<Detector>, d2: seq<Detector>) returns (r: seq<Detector>)
    ensures Elements(r) == Elements(d1) - Elements(d2) && NoDuplicates(r)
  {
    var todo := (set d | d in d1) - (set d | d in d2);
    r := [];
    ghost var diff := todo;
    while todo != {}
      invariant todo <= diff && Elements(r) == diff - todo && NoDuplicates(r)
    {
      var d :| d in todo;
      todo := todo - {d};
      OneMoreElement(r, d);
      assert d in Elements(r) <==> d in r;
      r := r + [d];
    }
  }

  // ----- Detection

  datatype Findings = Findings(namespaces: seq<LayerNamespace>, features: seq<LayerFeature>)

  /** What a detector finds in the layer with a given hash. */
  type Oracle = (Detector, string) -> Findings

  function Namespaces(finds: Oracle, hash: string, by_: seq<Detector>): seq<LayerNamespace> {
    if by_ == [] then [] else Namespaces(finds, hash, by_[..|by_| - 1]) + finds(by_[|by_| - 1], hash).namespaces
  }

  function Features(finds: Oracle, hash: string, by_: seq<Detector>): seq<LayerFeature> {
    if by_ == [] then [] else Features(finds, hash, by_[..|by_| - 1]) + finds(by_[|by_| - 1], hash).features
  }

  /** `detectContent`. */
  function Detected(finds: Oracle, hash: string, by_: seq<Detector>): Layer {
    Layer(hash, by_, Namespaces(finds, hash, by_), Features(finds, hash, by_))
  }

  /** A layer holds exactly what each of its detectors finds. */
  ghost predicate Faithful(finds: Oracle, hash: string, l: Layer) {
    && l.hash == hash
    && (forall f :: f in l.features <==> exists d :: d in l.scannedBy && f in finds(d, hash).features)
    && (forall n :: n in l.namespaces <==> exists d :: d in l.scannedBy && n in finds(d, hash).namespaces)
  }

  lemma {:induction false} DetectedIsFaithful(finds: Oracle, hash: string, by_: seq<Detector>)
    ensures Faithful(finds, hash, Detected(finds, hash, by_))
  {
    if by_ != [] {
      var init, d := by_[..|by_| - 1], by_[|by_| - 1];
      DetectedIsFaithful(finds, hash, init);
      assert by_ == init + [d];
    }
  }

  lemma MergedIsFaithful(finds: Oracle, hash: string, l: Layer, more: Layer)
    requires Faithful(finds, hash, l) && Faithful(finds, hash, more)
    ensures Faithful(finds, hash, Merged(l, more))
  {
    var m := Merged(l, more);
    AppendMissingIs(l.scannedBy, more.scannedBy);
    AppendMissingIs(l.features, more.features);
    AppendMissingIs(l.namespaces, more.namespaces);
    assert forall d :: d in m.scannedBy <==> d in Elements(m.scannedBy);
    assert forall f :: f in m.features <==> f in Elements(m.features);
    assert forall n :: n in m.namespaces <==> n in Elements(m.namespaces);
    assert forall d :: d in m.scannedBy <==> d in l.scannedBy || d in more.scannedBy;
  }

  // ----- The stored layers, whatever the interleaving of requests

  type Layers = map<string, Layer>

  function Stored(layers: Layers, hash: string): Layer {
    if hash in layers then layers[hash] else Layer(hash, [], [], [])
  }

  /** `PersistLayer` appends the content detected by some detectors, in a transaction of its own. */
  datatype Persist = Persist(hash: string, detectors: seq<Detector>)

  function Persisted(finds: Oracle, layers: Layers, p: Persist): Layers {
    layers[p.hash := Merged(Stored(layers, p.hash), Detected(finds, p.hash, p.detectors))]
  }

  function PersistAll(finds: Oracle, layers: Layers, ps: seq<Persist>): Layers {
    if ps == [] then layers else Persisted(finds, PersistAll(finds, layers, ps[..|ps| - 1]), ps[|ps| - 1])
  }

  ghost predicate AllFaithful(finds: Oracle, layers: Layers) {
    forall h :: h in layers ==> Faithful(finds, h, layers[h])
  }

  /** No layer is lost, and no layer loses a detector. */
  ghost predicate Grows(before: Layers, after: Layers) {
    forall h :: h in before ==> h in after && before[h].scannedBy <= after[h].scannedBy
  }

  lemma PersistKeeps(finds: Oracle, layers: Layers, p: Persist)
    requires AllFaithful(finds, layers)
    ensures AllFaithful(finds, Persisted(finds, layers, p)) && Grows(layers, Persisted(finds, layers, p))
  {
    var old_, new_ := Stored(layers, p.hash), Detected(finds, p.hash, p.detectors);
    DetectedIsFaithful(finds, p.hash, p.detectors);
    MergedIsFaithful(finds, p.hash, old_, new_);
    AppendMissingIs(old_.scannedBy, new_.scannedBy);
  }

  /** Over any interleaving of requests under changing detectors, every stored layer holds exactly
      what the detectors of its list find, and the list never shrinks. */
  lemma {:induction false} StoredLayersAreFaithful(finds: Oracle, layers: Layers, ps: seq<Persist>)
    requires AllFaithful(finds, layers)
    ensures AllFaithful(finds, PersistAll(finds, layers, ps)) && Grows(layers, PersistAll(finds, layers, ps))
  {
    if ps != [] {
      var init := PersistAll(finds, layers, ps[..|ps| - 1]);
      StoredLayersAreFaithful(finds, layers, ps[..|ps| - 1]);
      PersistKeeps(finds, init, ps[|ps| - 1]);
    }
  }

  // ----- ProcessAncestry

  /** The failures of the surroundings: detection may fail for a layer, the persisting of layers
      may stop after some of them, and one of the last commits may fail. */
  datatype Weather = Weather(detects: bool, persists: nat, commits: bool)

  /** An ancestry as it is stored: its layers, and the detectors that processed it. */
  datatype StoredAncestry = StoredAncestry(layers: seq<AncestryLayer>, processedBy: set<Detector>)

  predicate IsProcessed(enabled: seq<Detector>, ancestries: map<string, StoredAncestry>, name: string) {
    name in ancestries && forall d :: d in enabled ==> d in ancestries[name].processedBy
  }

  /** The layers handed to `computeAncestryLayers`: stored content merged with the new one. */
  ghost predicate AreComplete(finds: Oracle, enabled: seq<Detector>, hashes: seq<string>, layers: seq<Layer>) {
    && |layers| == |hashes|
    && forall i :: 0 <= i < |hashes| ==>
         Faithful(finds, hashes[i], layers[i]) && forall d :: d in enabled ==> d in layers[i].scannedBy
  }

  ghost predicate AreStored(layers: Layers, hashes: seq<string>) {
    forall i :: 0 <= i < |hashes| ==> hashes[i] in layers
  }

  ghost function StoredAt(layers: Layers, hashes: seq<string>): seq<Layer>
    requires AreStored(layers, hashes)
  {
    seq(|hashes|, i requires 0 <= i < |hashes| => layers[hashes[i]])
  }

  class Datastore {
    var layers: Layers
    var ancestries: map<string, StoredAncestry>

    constructor ()
      ensures layers == map[] && ancestries == map[]
    {
      layers, ancestries := map[], map[];
    }

    method IsAncestryProcessed(enabled: seq<Detector>, name: string) returns (ok: bool)
      ensures ok == IsProcessed(enabled, ancestries, name)
      ensures ok <==> name in ancestries && Elements(enabled) <= ancestries[name].processedBy
    {
      if name !in ancestries {
        return false;
      }
      var missing := set d | d in enabled && d !in ancestries[name].processedBy;
      assert forall d :: d in enabled && d !in ancestries[name].processedBy ==> d in missing;
      return missing == {};
    }

    /** The new content of each requested layer, found by the detectors that have not seen it. */
    method DetectLayers(finds: Oracle, enabled: seq<Detector>, hashes: seq<string>) returns (found: map<string, Layer>)
      ensures found.Keys == Elements(hashes)
      ensures forall h :: h in found ==>
                && found[h] == Detected(finds, h, found[h].scannedBy)
                && Elements(found[h].scannedBy) == Elements(enabled) - Elements(Stored(layers, h).scannedBy)
    {
      found := map[];
      for n := 0 to |hashes|
        invariant found.Keys == Elements(hashes[..n])
        invariant forall h :: h in found ==>
                    && found[h] == Detected(finds, h, found[h].scannedBy)
                    && Elements(found[h].scannedBy) == Elements(enabled) - Elements(Stored(layers, h).scannedBy)
      {
        assert hashes[..n + 1] == hashes[..n] + [hashes[n]];
        var missing := DiffDetectors(enabled, Stored(layers, hashes[n]).scannedBy);
        found := found[hashes[n] := Detected(finds, hashes[n], missing)];
      }
      assert hashes[..|hashes|] == hashes;
    }

    /** Persists the new content of the layers, one transaction each, until `budget` runs out. */
    method PersistLayers(finds: Oracle, found: map<string, Layer>, budget: nat) returns (ok: bool)
      requires AllFaithful(finds, layers)
      requires forall h :: h in found ==> found[h] == Detected(finds, h, found[h].scannedBy)
      modifies this`layers
      ensures AllFaithful(finds, layers) && Grows(old(layers), layers)
      ensures forall h :: h in found && ok ==> h in layers && layers[h] == Merged(Stored(old(layers), h), found[h])
    {
      var todo, left := found.Keys, budget;
      while todo != {}
        invariant todo <= found.Keys
        invariant AllFaithful(finds, layers) && Grows(old(layers), layers)
        invariant forall h :: h in todo ==> Stored(layers, h) == Stored(old(layers), h)
        invariant forall h :: h in found && h !in todo ==>
                    h in layers && layers[h] == Merged(Stored(old(layers), h), found[h])
      {
        if left == 0 {
          return false;
        }
        var h :| h in todo;
        PersistKeeps(finds, layers, Persist(h, found[h].scannedBy));
        ghost var before := layers;
        layers := layers[h := Merged(Stored(layers, h), found[h])];
        assert Grows(before, layers);
        todo, left := todo - {h}, left - 1;
      }
      return true;
    }

    method ProcessLayers(finds: Oracle, enabled: seq<Detector>, hashes: seq<string>, weather: Weather)
      returns (complete: Option<seq<Layer>>)
      requires AllFaithful(finds, layers)
      modifies this`layers
      ensures AllFaithful(finds, layers) && Grows(old(layers), layers)
      ensures complete.Some? ==> AreComplete(finds, enabled, hashes, complete.value)
      ensures complete.Some? ==> AreStored(layers, hashes) && complete.value == StoredAt(layers, hashes)
    {
      var existing := layers;
      var found := DetectLayers(finds, enabled, hashes);
      if !weather.detects {
        return None;
      }
      var ok := PersistLayers(finds, found, weather.persists);
      if !ok {
        return None;
      }
      var result := CombineLayers(existing, found, hashes);
      forall i | 0 <= i < |hashes|
        ensures hashes[i] in layers && result[i] == layers[hashes[i]] && Faithful(finds, hashes[i], result[i])
        ensures forall d :: d in enabled ==> d in result[i].scannedBy
      {
        assert hashes[i] in Elements(hashes);
        MergeIsComplete(finds, enabled, hashes[i], Stored(existing, hashes[i]), found[hashes[i]]);
      }
      return Some(result);
    }

    /** After a success the ancestry counts as processed exactly if there was a layer to process or
        no detector to process it with, or it counted as processed already. */
    method ProcessAncestry(finds: Oracle, enabled: seq<Detector>, imageFormat: string, name: string, hashes: seq<string>,
                           weather: Weather) returns (ok: bool)
      requires AllFaithful(finds, layers)
      modifies this
      ensures AllFaithful(finds, layers) && Grows(old(layers), layers)
      ensures !ok ==> ancestries == old(ancestries)
      ensures name in old(ancestries) && Elements(enabled) <= old(ancestries)[name].processedBy ==>
                && layers == old(layers) && ancestries == old(ancestries)
                && (ok <==> name != "" && imageFormat != "")
      ensures ok ==> ancestries.Keys == old(ancestries).Keys + {name} &&
                     forall other :: other in old(ancestries) && other != name ==> ancestries[other] == old(ancestries)[other]
      ensures ok && !(name in old(ancestries) && Elements(enabled) <= old(ancestries)[name].processedBy) ==>
                && (IsProcessed(enabled, ancestries, name) <==> hashes != [] || enabled == [])
                && AreStored(layers, hashes)
                && Ancestry.IsOutcome(StoredAt(layers, hashes), Some((ancestries[name].layers, ancestries[name].processedBy)))
    {
      if name == "" || imageFormat == "" {
        return false;
      }
      var processed := IsAncestryProcessed(enabled, name);
      if processed {
        return true;
      }
      var complete := ProcessLayers(finds, enabled, hashes, weather);
      if complete.None? {
        return false;
      }
      var computed := Ancestry.ComputeAncestryLayers(complete.value);
      if computed.None? || !weather.commits {
        return false;
      }
      if hashes != [] {
        CommonCoverEnabled(finds, enabled, hashes, complete.value);
      } else {
        assert enabled != [] ==> enabled[0] in enabled;
      }
      ancestries := ancestries[name := StoredAncestry(computed.value.0, computed.value.1)];
      return true;
    }
  }

  /** The stored content of each requested layer merged with its new content. */
  method CombineLayers(existing: Layers, found: map<string, Layer>, hashes: seq<string>) returns (result: seq<Layer>)
    requires forall h :: h in hashes ==> h in found
    ensures |result| == |hashes|
    ensures forall i :: 0 <= i < |hashes| ==> result[i] == Merged(Stored(existing, hashes[i]), found[hashes[i]])
  {
    result := [];
    for n := 0 to |hashes|
      invariant |result| == n
      invariant forall i :: 0 <= i < n ==> result[i] == Merged(Stored(existing, hashes[i]), found[hashes[i]])
    {
      var h := hashes[n];
      var layer := new LayerRecord(Stored(existing, h));
      var newContent := new LayerRecord(found[h]);
      layer.MergeLayers(newContent);
      result := result + [layer.content];
    }
  }

  lemma MergeIsComplete(finds: Oracle, enabled: seq<Detector>, h: string, existing: Layer, found: Layer)
    requires Faithful(finds, h, existing) && found == Detected(finds, h, found.scannedBy)
    requires Elements(found.scannedBy) == Elements(enabled) - Elements(existing.scannedBy)
    ensures Faithful(finds, h, Merged(existing, found)) && forall d :: d in enabled ==> d in Merged(existing, found).scannedBy
  {
    DetectedIsFaithful(finds, h, found.scannedBy);
    MergedIsFaithful(finds, h, existing, found);
    AppendMissingIs(existing.scannedBy, found.scannedBy);
    forall d | d in enabled ensures d in Merged(existing, found).scannedBy {
      assert d in Elements(enabled);
      assert d in Elements(Merged(existing, found).scannedBy);
    }
  }

  /** After a successful request on at least one layer, a request under any detectors is skipped if
      and only if each of them scanned every stored layer of the ancestry. */
  lemma SkippedExactlyIf(layers: Layers, ancestries: map<string, StoredAncestry>, name: string, hashes: seq<string>,
                         enabled: seq<Detector>)
    requires hashes != [] && AreStored(layers, hashes) && name in ancestries
    requires Ancestry.IsOutcome(StoredAt(layers, hashes), Some((ancestries[name].layers, ancestries[name].processedBy)))
    ensures IsProcessed(enabled, ancestries, name) <==>
            forall d, i :: d in enabled && 0 <= i < |hashes| ==> d in layers[hashes[i]].scannedBy
  {
    var stored := StoredAt(layers, hashes);
    assert ancestries[name].processedBy == Ancestry.CommonDetectors(stored);
    forall d ensures d in ancestries[name].processedBy <==> forall i :: 0 <= i < |hashes| ==> d in layers[hashes[i]].scannedBy {
      if d in ancestries[name].processedBy {
        assert forall i :: 0 <= i < |hashes| ==> stored[i] == layers[hashes[i]];
      }
    }
  }

  /** Two requests in a row: whether the second is skipped depends on what scanned the layers. */
  method RequestTwice(store: Datastore, finds: Oracle, first: seq<Detector>, second: seq<Detector>, imageFormat: string,
                      name: string, hashes: seq<string>, weather: Weather) returns (ok: bool, skipped: bool)
    requires AllFaithful(finds, store.layers)
    modifies store
    ensures ok && hashes != [] &&
            !(name in old(store.ancestries) && Elements(first) <= old(store.ancestries)[name].processedBy) ==>
              && AreStored(store.layers, hashes)
              && (skipped <==>
                    forall d, i :: d in second && 0 <= i < |hashes| ==> d in store.layers[hashes[i]].scannedBy)
  {
    ok := store.ProcessAncestry(finds, first, imageFormat, name, hashes, weather);
    skipped := store.IsAncestryProcessed(second, name);
    if ok && hashes != [] &&
       !(name in old(store.ancestries) && Elements(first) <= old(store.ancestries)[name].processedBy) {
      SkippedExactlyIf(store.layers, store.ancestries, name, hashes, second);
    }
  }

  lemma CommonCoverEnabled(finds: Oracle, enabled: seq<Detector>, hashes: seq<string>, layers: seq<Layer>)
    requires AreComplete(finds, enabled, hashes, layers) && hashes != []
    ensures layers != [] && forall d :: d in enabled ==> d in Ancestry.CommonDetectors(layers)
  {
  }
}
