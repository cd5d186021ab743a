/** updater.go: what a response of `doVulnerabilitiesNamespacing` holds, field by field, in terms of
    the raw vulnerabilities alone. */
module Responses {
  import opened VersionText
  import opened Models
  import opened Grouping
  import opened Regrouping

  /** The features in a namespace that have the five fields they need, in order. */
  function WantedOf(fs: seq<AffectedFeature>, namespace: string): seq<AffectedFeature> {
    if fs == [] then []
    else
      var f, rest := fs[|fs| - 1], WantedOf(fs[..|fs| - 1], namespace);
      if && f.affectedType != "" && f.affectedVersion != "" && f.featureName != ""
         && f.namespace.name == namespace != "" && f.namespace.format != ""
      then rest + [f] else rest
  }

  /** Those features of all vulnerabilities of a name, in order. */
  function Wanted(raw: seq<Vulnerability>, name: string, namespace: string): seq<AffectedFeature> {
    if raw == [] then []
    else
      var v := raw[|raw| - 1];
      Wanted(raw[..|raw| - 1], name, namespace) + if v.name == name then WantedOf(v.affected, namespace) else []
  }

  ghost predicate ColonFree(raw: seq<Vulnerability>) {
    forall v :: v in raw ==> ':' !in v.name
  }

  // ----- Every complete feature, and nothing else

  lemma {:induction false} RawEntry(raw: seq<Vulnerability>, i: nat, k: nat)
    requires i < |raw| && k < |raw[i].affected|
    ensures Entry(raw[i], raw[i].affected[k]) in Entries(raw)
    decreases |raw|
  {
    var n := |raw| - 1;
    if i == n {
      EntriesOfAt(raw[n], |raw[n].affected|, k);
    } else {
      RawEntry(raw[..n], i, k);
    }
  }

  /** For valid names and severities every affected feature with its five fields is listed, whatever
      its other fields. */
  lemma CompleteFeaturesAreListed(raw: seq<Vulnerability>, list: seq<Vulnerability>, i: nat, f: AffectedFeature)
    requires IsListingOf(list, raw) && AllValid(raw) && i < |raw| && f in raw[i].affected
    requires f.affectedType != "" && f.affectedVersion != "" && f.featureName != ""
    requires f.namespace.name != "" && f.namespace.format != ""
    ensures exists w :: w in list && f in w.affected
  {
    var k :| 0 <= k < |raw[i].affected| && raw[i].affected[k] == f;
    var e := Entry(raw[i], f);
    RawEntry(raw, i, k);
    EntryIsSelected(Entries(raw), e);
    var j := Listed(raw, list, IndexOf(e));
    assert list[j] in list && f in list[j].affected;
  }

  /** Whatever is listed has its fields, and comes from a raw vulnerability. */
  lemma ListedIsComplete(raw: seq<Vulnerability>, list: seq<Vulnerability>, w: Vulnerability, f: AffectedFeature)
    requires IsListingOf(list, raw) && w in list && f in w.affected
    ensures w.name != "" && !w.severity.Other? && w.namespace.name != "" && w.namespace.format != ""
    ensures f.affectedType != "" && f.affectedVersion != "" && f.featureName != ""
    ensures f.namespace.name != "" && f.namespace.format != ""
    ensures exists v :: v in raw && f in v.affected
  {
    var j :| 0 <= j < |list| && list[j] == w;
    ListedIsListed(raw, list, j);
    ListedGroup(raw, list, j);
    SelectedComesFromEntries(Entries(raw), IndexOfGroup(w), f);
    var k :| 0 <= k < |Entries(raw)| && WellFormed(Entries(raw)[k].feature) && Entries(raw)[k].feature == f;
    EntryOf(raw, Entries(raw)[k]);
  }

  // ----- In order, with multiplicity, per name and namespace

  lemma {:induction false} SelectedOfName(v: Vulnerability, n: nat, namespace: string)
    requires n <= |v.affected|
    ensures Selected(EntriesOf(v, n), Join(namespace, v.name)) == WantedOf(v.affected[..n], namespace)
    decreases n
  {
    if n > 0 {
      SelectedOfName(v, n - 1, namespace);
      SelectedOneMore(v, n - 1, Join(namespace, v.name));
      assert v.affected[..n][..n - 1] == v.affected[..n - 1];
      SameIndex(v.affected[n - 1].namespace.name, namespace, v.name);
    }
  }

  lemma {:induction false} SelectedOfOtherName(v: Vulnerability, n: nat, name: string, namespace: string)
    requires n <= |v.affected| && ':' !in v.name && ':' !in name && v.name != name
    ensures Selected(EntriesOf(v, n), Join(namespace, name)) == []
    decreases n
  {
    if n > 0 {
      SelectedOfOtherName(v, n - 1, name, namespace);
      SelectedOneMore(v, n - 1, Join(namespace, name));
      SameIndexSameNames(v.affected[n - 1].namespace.name, v.name, namespace, name);
    }
  }

  lemma SameIndexSameNames(a: string, n: string, b: string, m: string)
    requires ':' !in n && ':' !in m
    ensures Join(a, n) == Join(b, m) <==> a == b && n == m
  {
    if Join(a, n) == Join(b, m) {
      ColonFreeNamesDoNotCollide(a, n, b, m);
    }
  }

  lemma {:induction false} SelectedIsWanted(raw: seq<Vulnerability>, name: string, namespace: string)
    requires ColonFree(raw) && ':' !in name
    ensures Selected(Entries(raw), Join(namespace, name)) == Wanted(raw, name, namespace)
    decreases |raw|
  {
    if raw != [] {
      var n, idx := |raw| - 1, Join(namespace, name);
      SelectedIsWanted(raw[..n], name, namespace);
      SelectedOfConcat(Entries(raw[..n]), EntriesOf(raw[n], |raw[n].affected|), idx);
      if raw[n].name == name {
        SelectedOfName(raw[n], |raw[n].affected|, namespace);
      } else {
        SelectedOfOtherName(raw[n], |raw[n].affected|, name, namespace);
      }
      assert raw[n].affected[..|raw[n].affected|] == raw[n].affected;
    }
  }

  /** For names without a colon a listed vulnerability holds exactly the complete features of its
      name and namespace, in order and with multiplicity. */
  lemma ListedHoldsWhatIsWanted(raw: seq<Vulnerability>, list: seq<Vulnerability>, w: Vulnerability)
    requires IsListingOf(list, raw) && ColonFree(raw) && w in list && ':' !in w.name
    ensures w.affected == Wanted(raw, w.name, w.namespace.name)
  {
    var j :| 0 <= j < |list| && list[j] == w;
    ListedIsListed(raw, list, j);
    SelectedIsWanted(raw, w.name, w.namespace.name);
  }

  /** For valid names without a colon and valid severities, a name and namespace are listed, once,
      if and only if they have a complete feature. */
  lemma WantedIsListed(raw: seq<Vulnerability>, list: seq<Vulnerability>, name: string, namespace: string)
    requires IsListingOf(list, raw) && AllValid(raw) && ColonFree(raw) && ':' !in name
    ensures Wanted(raw, name, namespace) != [] <==> exists w :: w in list && w.name == name && w.namespace.name == namespace
    ensures forall i, j :: 0 <= i < j < |list| ==>
              list[i].name != list[j].name || list[i].namespace.name != list[j].namespace.name
  {
    SelectedIsWanted(raw, name, namespace);
    if Wanted(raw, name, namespace) != [] {
      var j := Listed(raw, list, Join(namespace, name));
      ListedNames(raw, list, j);
      SameIndexSameNames(list[j].namespace.name, list[j].name, namespace, name);
      assert list[j] in list;
    }
    if w :| w in list && w.name == name && w.namespace.name == namespace {
      var j :| 0 <= j < |list| && list[j] == w;
      ListedIsListed(raw, list, j);
    }
  }

  /** A group is a copy of a raw vulnerability but for its namespace and features. */
  lemma {:induction false} GroupIsACopy(es: seq<Entry>, idx: string)
    ensures Group(es, idx).Some? ==>
              exists k :: 0 <= k < |es| && Copies(es[k].source, Group(es, idx).value) && FirstAt(es, idx, k)
    decreases |es|
  {
    if es != [] && Group(es, idx).Some? {
      var n := |es| - 1;
      GroupIsACopy(es[..n], idx);
      if Group(es[..n], idx).Some? {
        var k :| 0 <= k < n && Copies(es[..n][k].source, Group(es[..n], idx).value) && FirstAt(es[..n], idx, k);
        assert Copies(es[k].source, Group(es, idx).value) && FirstAt(es, idx, k);
      } else {
        NothingBefore(es, idx, n);
        assert Copies(es[n].source, Group(es, idx).value) && FirstAt(es, idx, n);
      }
    }
  }

  predicate Copies(v: Vulnerability, w: Vulnerability) {
    && w.name == v.name && w.description == v.description && w.link == v.link
    && w.severity == v.severity && w.metadata == v.metadata
  }

  /** Entry `k` is the first one of the index. */
  ghost predicate FirstAt(es: seq<Entry>, idx: string, k: nat) {
    && k < |es| && WellFormed(es[k].feature) && IndexOf(es[k]) == idx
    && forall m :: 0 <= m < k ==> !(WellFormed(es[m].feature) && IndexOf(es[m]) == idx)
  }

  lemma NothingBefore(es: seq<Entry>, idx: string, n: nat)
    requires n <= |es| && Group(es[..n], idx).None?
    ensures forall m :: 0 <= m < n ==> !(WellFormed(es[m].feature) && IndexOf(es[m]) == idx)
  {
    GroupKeepsFeatures(es[..n], idx);
    forall m | 0 <= m < n ensures !(WellFormed(es[m].feature) && IndexOf(es[m]) == idx) {
      if WellFormed(es[m].feature) && IndexOf(es[m]) == idx {
        assert es[..n][m] == es[m];
        EntryIsSelected(es[..n], es[m]);
        assert false;
      }
    }
  }

  /** A listed vulnerability copies name, description, link, severity and metadata of a raw one. */
  lemma ListedNames(raw: seq<Vulnerability>, list: seq<Vulnerability>, j: nat)
    requires IsListingOf(list, raw) && j < |list|
    ensures exists v :: v in raw && Copies(v, list[j])
  {
    var idx := IndexOfGroup(list[j]);
    ListedGroup(raw, list, j);
    GroupIsACopy(Entries(raw), idx);
    var k :| 0 <= k < |Entries(raw)| && Copies(Entries(raw)[k].source, list[j]) && FirstAt(Entries(raw), idx, k);
    EntryOf(raw, Entries(raw)[k]);
  }
}
