/** updater.go: `doVulnerabilitiesNamespacing`, which splits fetched vulnerabilities by namespace
    and merges those with the same namespace and name. */
module Grouping {
  import opened VersionText
  import opened Models

  /** One affected feature together with the vulnerability that listed it. */
  datatype Entry = Entry(source: Vulnerability, feature: AffectedFeature)

  predicate WellFormed(f: AffectedFeature) {
    && f.affectedType != "" && f.affectedVersion != "" && f.featureName != ""
    && f.namespace.name != "" && f.namespace.format != ""
  }

  /** The key of the grouping map. */
  function Join(namespace: string, name: string): string {
    namespace + ":" + name
  }

  function IndexOf(e: Entry): string {
    Join(e.feature.namespace.name, e.source.name)
  }

  function IndexOfGroup(v: Vulnerability): string {
    Join(v.namespace.name, v.name)
  }

  function Opened(e: Entry): Vulnerability {
    e.source.(namespace := e.feature.namespace, affected := [e.feature])
  }

  /** The entries in the order of the two loops. */
  function EntriesOf(v: Vulnerability, n: nat): seq<Entry>
    requires n <= |v.affected|
  {
    if n == 0 then [] else EntriesOf(v, n - 1) + [Entry(v, v.affected[n - 1])]
  }

  function Entries(vs: seq<Vulnerability>): seq<Entry> {
    if vs == [] then [] else
    Entries(vs[..|vs| - 1]) + EntriesOf(vs[|vs| - 1], |vs[|vs| - 1].affected|)
  }

  /** The grouping map with one more entry. */
  function WithEntry(m: map<string, Vulnerability>, e: Entry): map<string, Vulnerability> {
    if !WellFormed(e.feature) then m
    else if IndexOf(e) !in m then m[IndexOf(e) := Opened(e)]
    else m[IndexOf(e) := m[IndexOf(e)].(affected := m[IndexOf(e)].affected + [e.feature])]
  }

  /** The grouping map after the given entries. */
  function Grouped(es: seq<Entry>): map<string, Vulnerability> {
    if es == [] then map[] else WithEntry(Grouped(es[..|es| - 1]), es[|es| - 1])
  }

  predicate Acceptable(v: Vulnerability) {
    v.name != "" && !v.severity.Other? && v.namespace.name != "" && v.namespace.format != ""
  }

  /** What survives the final filter. */
  function Accepted(m: map<string, Vulnerability>): map<string, Vulnerability> {
    map idx | idx in m && Acceptable(m[idx]) :: m[idx]
  }

  /** `list` holds each value of `m` once, in some order. */
  ghost predicate IsListing(list: seq<Vulnerability>, m: map<string, Vulnerability>) {
    && (forall i :: 0 <= i < |list| ==> IndexOfGroup(list[i]) in m && m[IndexOfGroup(list[i])] == list[i])
    && (forall idx :: idx in m ==> m[idx] in list)
    && (forall i, j :: 0 <= i < j < |list| ==> IndexOfGroup(list[i]) != IndexOfGroup(list[j]))
  }

  /** `list` is a response of `doVulnerabilitiesNamespacing` to `raw`. */
  ghost predicate IsListingOf(list: seq<Vulnerability>, raw: seq<Vulnerability>) {
    IsListing(list, Accepted(Grouped(Entries(raw))))
  }

  // ----- Grouping, index by index

  function Merge(a: Option<Vulnerability>, b: Option<Vulnerability>): Option<Vulnerability> {
    if a.None? then b else if b.None? then a
    else Some(a.value.(affected := a.value.affected + b.value.affected))
  }

  function Single(e: Entry, idx: string): Option<Vulnerability> {
    if WellFormed(e.feature) && IndexOf(e) == idx then Some(Opened(e)) else None
  }

  /** The group of an index: the first entry's vulnerability and namespace, everyone's features. */
  function Group(es: seq<Entry>, idx: string): Option<Vulnerability> {
    if es == [] then None else Merge(Group(es[..|es| - 1], idx), Single(es[|es| - 1], idx))
  }

  /** The well-formed features of an index, in order and with multiplicity. */
  function Selected(es: seq<Entry>, idx: string): seq<AffectedFeature> {
    if es == [] then []
    else
      var e, rest := es[|es| - 1], Selected(es[..|es| - 1], idx);
      if WellFormed(e.feature) && IndexOf(e) == idx then rest + [e.feature] else rest
  }

  lemma {:induction false} GroupedIsGroup(es: seq<Entry>, idx: string)
    ensures (if idx in Grouped(es) then Some(Grouped(es)[idx]) else None) == Group(es, idx)
  {
    if es != [] {
      GroupedIsGroup(es[..|es| - 1], idx);
    }
  }

  /** Every well-formed feature is kept, in order and with multiplicity, under its own index. */
  lemma {:induction false} GroupKeepsFeatures(es: seq<Entry>, idx: string)
    ensures Group(es, idx).None? <==> Selected(es, idx) == []
    ensures Group(es, idx).Some? ==>
              && Group(es, idx).value.affected == Selected(es, idx)
              && IndexOfGroup(Group(es, idx).value) == idx
              && Group(es, idx).value.namespace == Selected(es, idx)[0].namespace
  {
    if es != [] {
      GroupKeepsFeatures(es[..|es| - 1], idx);
    }
  }

  lemma {:induction false} GroupOfConcat(a: seq<Entry>, b: seq<Entry>, idx: string)
    ensures Group(a + b, idx) == Merge(Group(a, idx), Group(b, idx))
  {
    if b == [] {
      assert a + b == a;
    } else {
      var init, e := b[..|b| - 1], b[|b| - 1];
      assert (a + b)[..|a + b| - 1] == a + init;
      GroupOfConcat(a, init, idx);
      MergeIsAssociative(Group(a, idx), Group(init, idx), Single(e, idx));
    }
  }

  lemma MergeIsAssociative(a: Option<Vulnerability>, b: Option<Vulnerability>, c: Option<Vulnerability>)
    ensures Merge(Merge(a, b), c) == Merge(a, Merge(b, c))
  {
    if a.Some? && b.Some? && c.Some? {
      var x, y, z := a.value.affected, b.value.affected, c.value.affected;
      assert (x + y) + z == x + (y + z);
    }
  }

  /** The ids of a listing are unique. */
  lemma ListingHasUniqueIds(list: seq<Vulnerability>, m: map<string, Vulnerability>, i: nat, j: nat)
    requires IsListing(list, m) && i < j < |list|
    ensures IdOf(list[i]) != IdOf(list[j])
  {
  }

  // ----- The loops

  method DoVulnerabilitiesNamespacing(vulnerabilities: seq<Vulnerability>) returns (response: seq<Vulnerability>)
    ensures IsListingOf(response, vulnerabilities)
  {
    var groups: map<string, Vulnerability> := map[];
    for n := 0 to |vulnerabilities|
      invariant groups == Grouped(Entries(vulnerabilities[..n]))
    {
      assert vulnerabilities[..n + 1][..n] == vulnerabilities[..n];
      groups := AddVulnerability(groups, vulnerabilities[n], Entries(vulnerabilities[..n]));
    }
    assert vulnerabilities[..|vulnerabilities|] == vulnerabilities;
    response := ListGroups(groups, Entries(vulnerabilities));
  }

  lemma GroupedOneMore(es: seq<Entry>, v: Vulnerability, k: nat)
    requires k < |v.affected|
    ensures Grouped(es + EntriesOf(v, k + 1)) == WithEntry(Grouped(es + EntriesOf(v, k)), Entry(v, v.affected[k]))
  {
    var more := es + EntriesOf(v, k + 1);
    assert more[..|more| - 1] == es + EntriesOf(v, k) && more[|more| - 1] == Entry(v, v.affected[k]);
  }

  /** The loop over the affected features of one vulnerability. */
  method AddVulnerability(before: map<string, Vulnerability>, v: Vulnerability, ghost es: seq<Entry>)
    returns (groups: map<string, Vulnerability>)
    requires before == Grouped(es)
    ensures groups == Grouped(es + EntriesOf(v, |v.affected|))
  {
    groups := before;
    assert es + EntriesOf(v, 0) == es;
    for k := 0 to |v.affected|
      invariant groups == Grouped(es + EntriesOf(v, k))
    {
      var fv := v.affected[k];
      GroupedOneMore(es, v, k);
      if || fv.affectedType == "" || fv.affectedVersion == "" || fv.featureName == ""
         || fv.namespace.name == "" || fv.namespace.format == "" {
        continue;
      }
      var index := Join(fv.namespace.name, v.name);
      if index !in groups {
        groups := groups[index := v.(namespace := fv.namespace, affected := [fv])];
      } else {
        groups := groups[index := groups[index].(affected := groups[index].affected + [fv])];
      }
    }
  }

  lemma AcceptOneMore(groups: map<string, Vulnerability>, todo: set<string>, idx: string)
    requires idx in todo && idx in groups
    ensures var m := Accepted(groups - todo);
            idx !in m && Accepted(groups - (todo - {idx})) == if Acceptable(groups[idx]) then m[idx := groups[idx]] else m
  {
  }

  lemma ListOneMore(list: seq<Vulnerability>, m: map<string, Vulnerability>, v: Vulnerability)
    requires IsListing(list, m) && IndexOfGroup(v) !in m
    ensures IsListing(list + [v], m[IndexOfGroup(v) := v])
  {
  }

  /** The conversion of the map into a slice, in any order, without malformed vulnerabilities. */
  method ListGroups(groups: map<string, Vulnerability>, ghost es: seq<Entry>) returns (response: seq<Vulnerability>)
    requires groups == Grouped(es)
    ensures IsListing(response, Accepted(groups))
  {
    response := [];
    var todo := groups.Keys;
    while todo != {}
      invariant todo <= groups.Keys
      invariant IsListing(response, Accepted(groups - todo))
    {
      var idx :| idx in todo;
      GroupedIsGroup(es, idx);
      GroupKeepsFeatures(es, idx);
      var v := groups[idx];
      AcceptOneMore(groups, todo, idx);
      if !(v.name == "" || v.severity.Other? || v.namespace.name == "" || v.namespace.format == "") {
        ListOneMore(response, Accepted(groups - todo), v);
        response := response + [v];
      }
      todo := todo - {idx};
    }
    assert groups - {} == groups;
  }
}
