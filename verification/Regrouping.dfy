/** updater.go: grouping each updater's vulnerabilities and then grouping the concatenation again
    (`fetch` and `update`), against grouping everything once. The two agree exactly if no updater
    has colliding indexes and the filter has one verdict per index. */
module Regrouping {
  import opened VersionText
  import opened Models
  import opened Grouping

  function Flatten(lists: seq<seq<Vulnerability>>): seq<Vulnerability> {
    if lists == [] then [] else Flatten(lists[..|lists| - 1]) + lists[|lists| - 1]
  }

  lemma {:induction false} EntriesOfConcat(a: seq<Vulnerability>, b: seq<Vulnerability>)
    ensures Entries(a + b) == Entries(a) + Entries(b)
    decreases |b|
  {
    if b == [] {
      assert a + b == a;
    } else {
      var init, v := b[..|b| - 1], b[|b| - 1];
      EntriesOfConcat(a, init);
      ConcatOneMore(a, init, v);
      assert b == init + [v];
    }
  }

  lemma ConcatOneMore(a: seq<Vulnerability>, init: seq<Vulnerability>, v: Vulnerability)
    requires Entries(a + init) == Entries(a) + Entries(init)
    ensures Entries(a + (init + [v])) == Entries(a) + Entries(init + [v])
  {
    EntriesOfOneMore(a + init, v);
    EntriesOfOneMore(init, v);
    assert a + (init + [v]) == (a + init) + [v];
    Reassociate(Entries(a), Entries(init), EntriesOf(v, |v.affected|));
  }

  lemma EntriesOfOneMore(a: seq<Vulnerability>, v: Vulnerability)
    ensures Entries(a + [v]) == Entries(a) + EntriesOf(v, |v.affected|)
  {
  }

  lemma Reassociate(a: seq<Entry>, b: seq<Entry>, c: seq<Entry>)
    ensures a + b + c == a + (b + c)
  {
  }

  /** A vulnerability that is already a group: its features are well formed and of its namespace. */
  ghost predicate IsGroup(v: Vulnerability) {
    && v.affected != [] && v.affected[0].namespace == v.namespace
    && forall i :: 0 <= i < |v.affected| ==> WellFormed(v.affected[i]) && v.affected[i].namespace.name == v.namespace.name
  }

  lemma {:induction false} RegroupOne(v: Vulnerability, n: nat, idx: string)
    requires IsGroup(v) && n <= |v.affected|
    ensures Group(EntriesOf(v, n), idx) ==
            if n > 0 && IndexOfGroup(v) == idx then Some(v.(affected := v.affected[..n])) else None
  {
    if n > 0 {
      RegroupOne(v, n - 1, idx);
      var es := EntriesOf(v, n);
      var e := Entry(v, v.affected[n - 1]);
      assert es[..|es| - 1] == EntriesOf(v, n - 1) && es[|es| - 1] == e;
      assert WellFormed(e.feature) && IndexOf(e) == IndexOfGroup(v);
      assert Group(es, idx) == Merge(Group(EntriesOf(v, n - 1), idx), Single(e, idx));
      assert v.affected[..n] == v.affected[..n - 1] + [v.affected[n - 1]];
      if n == 1 {
        assert v.affected[..n] == [e.feature] && Opened(e) == v.(affected := [e.feature]);
      }
    }
  }

  /** Grouping a listing of groups gives the groups back. */
  lemma {:induction false} RegroupListing(list: seq<Vulnerability>, idx: string)
    requires forall i :: 0 <= i < |list| ==> IsGroup(list[i])
    requires forall i, j :: 0 <= i < j < |list| ==> IndexOfGroup(list[i]) != IndexOfGroup(list[j])
    ensures forall i :: 0 <= i < |list| && IndexOfGroup(list[i]) == idx ==> Group(Entries(list), idx) == Some(list[i])
    ensures (forall i :: 0 <= i < |list| ==> IndexOfGroup(list[i]) != idx) ==> Group(Entries(list), idx) == None
  {
    if list != [] {
      var init, v := list[..|list| - 1], list[|list| - 1];
      RegroupListing(init, idx);
      RegroupOne(v, |v.affected|, idx);
      assert v.affected[..|v.affected|] == v.affected;
      GroupOfConcat(Entries(init), EntriesOf(v, |v.affected|), idx);
      assert forall i :: 0 <= i < |init| ==> list[i] == init[i];
    }
  }

  /** No two namespace-name pairs of the entries join to the same index. */
  ghost predicate Unambiguous(es: seq<Entry>) {
    forall e, d :: e in es && d in es && WellFormed(e.feature) && WellFormed(d.feature) && IndexOf(e) == IndexOf(d) ==>
      e.feature.namespace.name == d.feature.namespace.name
  }

  /** The parts of unambiguous entries are unambiguous. */
  lemma UnambiguousParts(a: seq<Entry>, b: seq<Entry>)
    requires Unambiguous(a + b)
    ensures Unambiguous(a) && Unambiguous(b)
  {
  }

  ghost predicate AllValid(vs: seq<Vulnerability>) {
    forall i :: 0 <= i < |vs| ==> vs[i].name != "" && !vs[i].severity.Other?
  }

  ghost predicate ComesFrom(f: AffectedFeature, es: seq<Entry>, idx: string) {
    exists k :: 0 <= k < |es| && WellFormed(es[k].feature) && IndexOf(es[k]) == idx && es[k].feature == f
  }

  lemma {:induction false} SelectedComesFromEntries(es: seq<Entry>, idx: string, f: AffectedFeature)
    requires f in Selected(es, idx)
    ensures ComesFrom(f, es, idx)
  {
    var init, e := es[..|es| - 1], es[|es| - 1];
    if f in Selected(init, idx) {
      SelectedComesFromEntries(init, idx, f);
      var k :| 0 <= k < |init| && WellFormed(init[k].feature) && IndexOf(init[k]) == idx && init[k].feature == f;
      assert es[k] == init[k];
    } else {
      assert e.feature == f;
    }
  }

  lemma GroupsAreGroups(es: seq<Entry>, idx: string)
    requires Unambiguous(es) && Group(es, idx).Some?
    ensures IsGroup(Group(es, idx).value)
  {
    GroupKeepsFeatures(es, idx);
    var v := Group(es, idx).value;
    SelectedComesFromEntries(es, idx, v.affected[0]);
    forall i | 0 <= i < |v.affected| ensures WellFormed(v.affected[i]) && v.affected[i].namespace.name == v.namespace.name {
      SelectedComesFromEntries(es, idx, v.affected[i]);
    }
  }

  lemma {:induction false} GroupsAreAcceptable(es: seq<Entry>, idx: string)
    requires forall i :: 0 <= i < |es| ==> es[i].source.name != "" && !es[i].source.severity.Other?
    ensures Group(es, idx).Some? ==> Acceptable(Group(es, idx).value)
  {
    if es != [] {
      GroupsAreAcceptable(es[..|es| - 1], idx);
    }
  }

  lemma {:induction false} EntriesHaveSources(vs: seq<Vulnerability>)
    requires AllValid(vs)
    ensures forall i :: 0 <= i < |Entries(vs)| ==> Entries(vs)[i].source.name != "" && !Entries(vs)[i].source.severity.Other?
  {
    if vs != [] {
      EntriesHaveSources(vs[..|vs| - 1]);
      var v := vs[|vs| - 1];
      SourceOfEntries(v, |v.affected|);
    }
  }

  lemma {:induction false} SourceOfEntries(v: Vulnerability, n: nat)
    requires n <= |v.affected|
    ensures forall i :: 0 <= i < |EntriesOf(v, n)| ==> EntriesOf(v, n)[i].source == v
  {
    if n > 0 { SourceOfEntries(v, n - 1); }
  }

  /** An entry is a feature of one of the vulnerabilities. */
  lemma {:induction false} EntryOf(vs: seq<Vulnerability>, e: Entry)
    requires e in Entries(vs)
    ensures e.source in vs && e.feature in e.source.affected
  {
    var n := |vs| - 1;
    if e in Entries(vs[..n]) {
      EntryOf(vs[..n], e);
    } else {
      EntryOfOne(vs[n], |vs[n].affected|, e);
    }
  }

  lemma {:induction false} EntryOfOne(v: Vulnerability, n: nat, e: Entry)
    requires n <= |v.affected| && e in EntriesOf(v, n)
    ensures e.source == v && e.feature in v.affected
  {
    if e in EntriesOf(v, n - 1) {
      EntryOfOne(v, n - 1, e);
    }
  }

  /** What the filter leaves of a group. */
  function Filtered(g: Option<Vulnerability>): Option<Vulnerability> {
    if g.Some? && Acceptable(g.value) then g else None
  }

  /** An element of a listing is the group of its index. */
  lemma ListedGroup(raw: seq<Vulnerability>, list: seq<Vulnerability>, i: nat)
    requires IsListingOf(list, raw) && i < |list|
    ensures Group(Entries(raw), IndexOfGroup(list[i])) == Some(list[i]) && Acceptable(list[i])
  {
    GroupedIsGroup(Entries(raw), IndexOfGroup(list[i]));
  }

  /** Every acceptable group is listed. */
  lemma GroupIsListed(raw: seq<Vulnerability>, list: seq<Vulnerability>, idx: string)
    requires IsListingOf(list, raw) && Filtered(Group(Entries(raw), idx)).Some?
    ensures exists i :: 0 <= i < |list| && list[i] == Group(Entries(raw), idx).value && IndexOfGroup(list[i]) == idx
  {
    var m := Grouped(Entries(raw));
    GroupedIsGroup(Entries(raw), idx);
    GroupKeepsFeatures(Entries(raw), idx);
    assert idx in Accepted(m) && Accepted(m)[idx] == m[idx];
    assert m[idx] in list;
  }

  /** One updater without collisions: its grouped output groups to what the filter left of the
      groups of its raw output. */
  lemma RegroupUpdater(raw: seq<Vulnerability>, list: seq<Vulnerability>, idx: string)
    requires Unambiguous(Entries(raw)) && IsListingOf(list, raw)
    ensures Group(Entries(list), idx) == Filtered(Group(Entries(raw), idx))
  {
    forall i | 0 <= i < |list| ensures IsGroup(list[i]) {
      ListedGroup(raw, list, i);
      GroupsAreGroups(Entries(raw), IndexOfGroup(list[i]));
    }
    RegroupListing(list, idx);
    if Filtered(Group(Entries(raw), idx)).Some? {
      GroupIsListed(raw, list, idx);
    } else {
      forall i | 0 <= i < |list| ensures IndexOfGroup(list[i]) != idx {
        ListedGroup(raw, list, i);
      }
    }
  }

  ghost predicate AreListings(raws: seq<seq<Vulnerability>>, lists: seq<seq<Vulnerability>>) {
    |raws| == |lists| && forall u :: 0 <= u < |raws| ==> ListsUpdater(raws, lists, u)
  }

  ghost predicate ListsUpdater(raws: seq<seq<Vulnerability>>, lists: seq<seq<Vulnerability>>, u: int) {
    0 <= u < |raws| && u < |lists| && IsListingOf(lists[u], raws[u])
  }

  function Lookup(m: map<string, Vulnerability>, idx: string): Option<Vulnerability> {
    if idx in m then Some(m[idx]) else None
  }

  lemma SameMaps(a: map<string, Vulnerability>, b: map<string, Vulnerability>)
    requires forall idx :: Lookup(a, idx) == Lookup(b, idx)
    ensures a == b
  {
    forall idx ensures idx in a <==> idx in b
               ensures idx in a ==> a[idx] == b[idx]
    {
      assert Lookup(a, idx) == Lookup(b, idx);
    }
  }

  lemma LookupIs(es: seq<Entry>, idx: string)
    ensures Lookup(Grouped(es), idx) == Group(es, idx)
    ensures Lookup(Accepted(Grouped(es)), idx) == Filtered(Group(es, idx))
  {
    GroupedIsGroup(es, idx);
  }

  ghost predicate SameGroup(a: seq<Entry>, b: seq<Entry>, idx: string) {
    Group(a, idx) == Group(b, idx)
  }

  ghost predicate SameAfterFilter(a: seq<Entry>, b: seq<Entry>, idx: string) {
    Filtered(Group(a, idx)) == Filtered(Group(b, idx))
  }

  lemma SameGroups(a: seq<Entry>, b: seq<Entry>)
    ensures Grouped(a) == Grouped(b) <==> forall idx :: SameGroup(a, b, idx)
    ensures Accepted(Grouped(a)) == Accepted(Grouped(b)) <==> forall idx :: SameAfterFilter(a, b, idx)
  {
    forall idx
      ensures SameGroup(a, b, idx) <==> Lookup(Grouped(a), idx) == Lookup(Grouped(b), idx)
      ensures SameAfterFilter(a, b, idx) <==> Lookup(Accepted(Grouped(a)), idx) == Lookup(Accepted(Grouped(b)), idx)
    {
      LookupIs(a, idx);
      LookupIs(b, idx);
    }
    if forall idx :: SameGroup(a, b, idx) {
      SameMaps(Grouped(a), Grouped(b));
    }
    if forall idx :: SameAfterFilter(a, b, idx) {
      SameMaps(Accepted(Grouped(a)), Accepted(Grouped(b)));
    }
  }

  // ----- Severities: the exact condition

  function MergeAll(gs: seq<Option<Vulnerability>>): Option<Vulnerability> {
    if gs == [] then None else Merge(MergeAll(gs[..|gs| - 1]), gs[|gs| - 1])
  }

  function FilterEach(gs: seq<Option<Vulnerability>>): seq<Option<Vulnerability>> {
    seq(|gs|, u requires 0 <= u < |gs| => Filtered(gs[u]))
  }

  /** What each updater makes of an index. */
  function GroupsAt(raws: seq<seq<Vulnerability>>, idx: string): seq<Option<Vulnerability>> {
    seq(|raws|, u requires 0 <= u < |raws| => Group(Entries(raws[u]), idx))
  }

  lemma {:induction false} GroupOfAll(raws: seq<seq<Vulnerability>>, idx: string)
    ensures Group(Entries(Flatten(raws)), idx) == MergeAll(GroupsAt(raws, idx))
  {
    if raws != [] {
      var n := |raws| - 1;
      GroupOfAll(raws[..n], idx);
      EntriesOfConcat(Flatten(raws[..n]), raws[n]);
      GroupOfConcat(Entries(Flatten(raws[..n])), Entries(raws[n]), idx);
      assert GroupsAt(raws, idx)[..n] == GroupsAt(raws[..n], idx);
    }
  }

  /** The groups that there are, are all acceptable or all not. */
  ghost predicate OneVerdict(gs: seq<Option<Vulnerability>>) {
    forall u, w :: 0 <= u < |gs| && 0 <= w < |gs| && gs[u].Some? && gs[w].Some? ==>
      (Acceptable(gs[u].value) <==> Acceptable(gs[w].value))
  }

  ghost predicate OneVerdictAt(raws: seq<seq<Vulnerability>>, idx: string) {
    OneVerdict(GroupsAt(raws, idx))
  }

  /** Filtering after merging against filtering before. */
  lemma {:induction false} FilterAndMerge(gs: seq<Option<Vulnerability>>)
    requires forall u :: 0 <= u < |gs| && gs[u].Some? ==> gs[u].value.affected != []
    ensures var once, twice := MergeAll(gs), MergeAll(FilterEach(gs));
            && (twice.Some? ==> Acceptable(twice.value) && once.Some?)
            && (once == twice <==> forall u :: 0 <= u < |gs| && gs[u].Some? ==> Acceptable(gs[u].value))
            && (twice.None? <==> forall u :: 0 <= u < |gs| && gs[u].Some? ==> !Acceptable(gs[u].value))
            && (twice.Some? && once != twice && Acceptable(once.value) ==> |twice.value.affected| < |once.value.affected|)
            && (once.Some? ==>
                  exists u :: 0 <= u < |gs| && gs[u].Some? && (Acceptable(gs[u].value) <==> Acceptable(once.value)))
  {
    if gs != [] {
      var n := |gs| - 1;
      var init := gs[..n];
      assert FilterEach(gs)[..n] == FilterEach(init);
      FilterAndMerge(init);
      assert forall u :: 0 <= u < n ==> init[u] == gs[u];
    }
  }

  lemma VerdictDecides(gs: seq<Option<Vulnerability>>)
    requires forall u :: 0 <= u < |gs| && gs[u].Some? ==> gs[u].value.affected != []
    ensures Filtered(MergeAll(FilterEach(gs))) == Filtered(MergeAll(gs)) <==> OneVerdict(gs)
  {
    FilterAndMerge(gs);
  }

  lemma RegroupedGroups(raws: seq<seq<Vulnerability>>, lists: seq<seq<Vulnerability>>, idx: string)
    requires AreListings(raws, lists) && forall u :: 0 <= u < |raws| ==> Unambiguous(Entries(raws[u]))
    ensures Group(Entries(Flatten(lists)), idx) == MergeAll(FilterEach(GroupsAt(raws, idx)))
  {
    GroupOfAll(lists, idx);
    forall u | 0 <= u < |raws| ensures GroupsAt(lists, idx)[u] == FilterEach(GroupsAt(raws, idx))[u] {
      assert ListsUpdater(raws, lists, u);
      RegroupUpdater(raws[u], lists[u], idx);
    }
    assert GroupsAt(lists, idx) == FilterEach(GroupsAt(raws, idx));
  }

  /** Where indexes of one updater do not collide, grouping twice gives the accepted groups of
      grouping once if and only if the filter has one verdict on the groups of each index. */
  lemma SeveritiesDecide(raws: seq<seq<Vulnerability>>, lists: seq<seq<Vulnerability>>)
    requires AreListings(raws, lists) && forall u :: 0 <= u < |raws| ==> Unambiguous(Entries(raws[u]))
    ensures Accepted(Grouped(Entries(Flatten(lists)))) == Accepted(Grouped(Entries(Flatten(raws)))) <==>
            forall idx :: OneVerdictAt(raws, idx)
  {
    SameGroups(Entries(Flatten(lists)), Entries(Flatten(raws)));
    forall idx
      ensures SameAfterFilter(Entries(Flatten(lists)), Entries(Flatten(raws)), idx) <==> OneVerdictAt(raws, idx)
    {
      SeveritiesAt(raws, lists, idx);
    }
  }

  lemma SeveritiesAt(raws: seq<seq<Vulnerability>>, lists: seq<seq<Vulnerability>>, idx: string)
    requires AreListings(raws, lists) && forall u :: 0 <= u < |raws| ==> Unambiguous(Entries(raws[u]))
    ensures SameAfterFilter(Entries(Flatten(lists)), Entries(Flatten(raws)), idx) <==> OneVerdictAt(raws, idx)
  {
    RegroupedGroups(raws, lists, idx);
    GroupOfAll(raws, idx);
    forall u | 0 <= u < |raws| ensures GroupsAt(raws, idx)[u].Some? ==> GroupsAt(raws, idx)[u].value.affected != [] {
      GroupKeepsFeatures(Entries(raws[u]), idx);
    }
    VerdictDecides(GroupsAt(raws, idx));
  }

  // ----- Collisions: the exact condition

  lemma {:induction false} SelectedOfConcat(a: seq<Entry>, b: seq<Entry>, idx: string)
    ensures Selected(a + b, idx) == Selected(a, idx) + Selected(b, idx)
  {
    if b == [] {
      assert a + b == a;
    } else {
      assert (a + b)[..|a + b| - 1] == a + b[..|b| - 1];
      SelectedOfConcat(a, b[..|b| - 1], idx);
    }
  }

  lemma {:induction false} EntryIsSelected(es: seq<Entry>, e: Entry)
    requires e in es && WellFormed(e.feature)
    ensures e.feature in Selected(es, IndexOf(e))
  {
    var n := |es| - 1;
    if es[n] != e {
      EntryIsSelected(es[..n], e);
    }
  }

  /** The features that a list of vulnerabilities has under an index. */
  function Under(vs: seq<Vulnerability>, idx: string): seq<AffectedFeature> {
    Selected(Entries(vs), idx)
  }

  lemma UnderConcat(a: seq<Vulnerability>, b: seq<Vulnerability>, idx: string)
    ensures Under(a + b, idx) == Under(a, idx) + Under(b, idx)
  {
    EntriesOfConcat(a, b);
    SelectedOfConcat(Entries(a), Entries(b), idx);
  }

  /** What one element of a list contributes. */
  lemma UnderSplit(list: seq<Vulnerability>, i: nat, idx: string)
    requires i < |list|
    ensures Under(list, idx) == Under(list[..i], idx) + Under([list[i]], idx) + Under(list[i + 1..], idx)
  {
    assert list == list[..i] + [list[i]] + list[i + 1..];
    UnderConcat(list[..i] + [list[i]], list[i + 1..], idx);
    UnderConcat(list[..i], [list[i]], idx);
  }

  /** How many features have a namespace name. */
  function Own(fs: seq<AffectedFeature>, ns: string): nat {
    if fs == [] then 0 else Own(fs[..|fs| - 1], ns) + if fs[|fs| - 1].namespace.name == ns then 1 else 0
  }

  lemma {:induction false} OwnConcat(a: seq<AffectedFeature>, b: seq<AffectedFeature>, ns: string)
    ensures Own(a + b, ns) == Own(a, ns) + Own(b, ns)
  {
    if b == [] {
      assert a + b == a;
    } else {
      assert (a + b)[..|a + b| - 1] == a + b[..|b| - 1];
      OwnConcat(a, b[..|b| - 1], ns);
    }
  }

  lemma OwnPrefix(a: seq<AffectedFeature>, b: seq<AffectedFeature>, ns: string)
    requires a <= b
    ensures Own(a, ns) <= Own(b, ns)
  {
    assert b == a + b[|a|..];
    OwnConcat(a, b[|a|..], ns);
  }

  lemma OwnFirst(fs: seq<AffectedFeature>)
    requires fs != []
    ensures Own(fs, fs[0].namespace.name) >= 1
  {
    assert fs == [fs[0]] + fs[1..];
    assert [fs[0]][..0] == [];
    OwnConcat([fs[0]], fs[1..], fs[0].namespace.name);
  }

  lemma SameNameSameNamespace(a: string, b: string, name: string)
    requires Join(a, name) == Join(b, name)
    ensures a == b
  {
    assert |Join(a, name)| == |a| + 1 + |name| && |Join(b, name)| == |b| + 1 + |name|;
    assert Join(a, name)[..|a|] == a && Join(b, name)[..|b|] == b;
  }

  /** A listed vulnerability: its features are well formed, and the first is of its namespace. */
  ghost predicate IsListed(v: Vulnerability) {
    && v.affected != [] && v.affected[0].namespace == v.namespace
    && forall i :: 0 <= i < |v.affected| ==> WellFormed(v.affected[i])
  }

  lemma ListedIsListed(raw: seq<Vulnerability>, list: seq<Vulnerability>, i: nat)
    requires IsListingOf(list, raw) && i < |list|
    ensures IsListed(list[i]) && list[i].affected == Under(raw, IndexOfGroup(list[i]))
  {
    var idx := IndexOfGroup(list[i]);
    ListedGroup(raw, list, i);
    GroupKeepsFeatures(Entries(raw), idx);
    forall k | 0 <= k < |list[i].affected| ensures WellFormed(list[i].affected[k]) {
      SelectedComesFromEntries(Entries(raw), idx, list[i].affected[k]);
    }
  }

  lemma SelectedOneMore(v: Vulnerability, n: nat, idx: string)
    requires n < |v.affected|
    ensures var f := v.affected[n];
            Selected(EntriesOf(v, n + 1), idx) ==
            Selected(EntriesOf(v, n), idx) + if WellFormed(f) && Join(f.namespace.name, v.name) == idx then [f] else []
  {
    var es := EntriesOf(v, n + 1);
    assert es[..|es| - 1] == EntriesOf(v, n) && es[|es| - 1] == Entry(v, v.affected[n]);
  }

  /** The features of a namespace. */
  function OfNamespace(fs: seq<AffectedFeature>, ns: string): seq<AffectedFeature> {
    if fs == [] then []
    else
      var f, rest := fs[|fs| - 1], OfNamespace(fs[..|fs| - 1], ns);
      if f.namespace.name == ns then rest + [f] else rest
  }

  lemma {:induction false} OwnOfNamespace(fs: seq<AffectedFeature>, ns: string)
    ensures Own(OfNamespace(fs, ns), ns) == Own(fs, ns)
    decreases |fs|
  {
    if fs != [] {
      OwnOfNamespace(fs[..|fs| - 1], ns);
    }
  }

  /** A listed vulnerability keeps, under its index, its features of its own namespace. */
  lemma {:induction false} KeepsOwn(v: Vulnerability, n: nat)
    requires IsListed(v) && n <= |v.affected|
    ensures Selected(EntriesOf(v, n), IndexOfGroup(v)) == OfNamespace(v.affected[..n], v.namespace.name)
    decreases n
  {
    if n > 0 {
      KeepsOwn(v, n - 1);
      SelectedOneMore(v, n - 1, IndexOfGroup(v));
      assert v.affected[..n][..n - 1] == v.affected[..n - 1];
      SameIndex(v.affected[n - 1].namespace.name, v.namespace.name, v.name);
    }
  }

  lemma SameIndex(a: string, b: string, name: string)
    ensures Join(a, name) == Join(b, name) <==> a == b
  {
    if Join(a, name) == Join(b, name) {
      SameNameSameNamespace(a, b, name);
    }
  }

  lemma UnderOne(v: Vulnerability, idx: string)
    ensures Under([v], idx) == Selected(EntriesOf(v, |v.affected|), idx)
  {
    assert [v][..0] == [];
    assert Entries([v]) == EntriesOf(v, |v.affected|);
  }

  /** A listed vulnerability keeps, under its index, its features of its own namespace. */
  lemma KeepsOwnUnder(v: Vulnerability)
    requires IsListed(v)
    ensures Own(Under([v], IndexOfGroup(v)), v.namespace.name) == Own(v.affected, v.namespace.name)
  {
    UnderOne(v, IndexOfGroup(v));
    KeepsOwn(v, |v.affected|);
    assert v.affected[..|v.affected|] == v.affected;
    OwnOfNamespace(v.affected, v.namespace.name);
  }

  /** Grouping again never takes features from a namespace that opened a group. */
  lemma RegroupingKeepsOwn(raw: seq<Vulnerability>, list: seq<Vulnerability>, idx: string)
    requires AllValid(raw) && IsListingOf(list, raw) && Under(raw, idx) != []
    ensures var ns := Under(raw, idx)[0].namespace.name; Own(Under(raw, idx), ns) <= Own(Under(list, idx), ns)
  {
    var j := Listed(raw, list, idx);
    var ns := Under(raw, idx)[0].namespace.name;
    ListedIsListed(raw, list, j);
    KeepsOwnUnder(list[j]);
    UnderSplit(list, j, idx);
    OwnConcat(Under(list[..j], idx) + Under([list[j]], idx), Under(list[j + 1..], idx), ns);
    OwnConcat(Under(list[..j], idx), Under([list[j]], idx), ns);
  }

  /** Where the group of an index is listed. */
  lemma Listed(raw: seq<Vulnerability>, list: seq<Vulnerability>, idx: string) returns (j: nat)
    requires AllValid(raw) && IsListingOf(list, raw) && Under(raw, idx) != []
    ensures j < |list| && IndexOfGroup(list[j]) == idx && list[j].affected == Under(raw, idx)
  {
    GroupKeepsFeatures(Entries(raw), idx);
    EntriesHaveSources(raw);
    GroupsAreAcceptable(Entries(raw), idx);
    GroupIsListed(raw, list, idx);
    j :| 0 <= j < |list| && list[j] == Group(Entries(raw), idx).value && IndexOfGroup(list[j]) == idx;
  }

  /** Two elements of a list contribute apart from each other. */
  lemma TwoContribute(list: seq<Vulnerability>, i: nat, j: nat, idx: string, ns: string)
    requires i < j < |list|
    ensures |Under(list, idx)| >= |Under([list[i]], idx)| + |Under([list[j]], idx)|
    ensures Own(Under(list, idx), ns) >= Own(Under([list[i]], idx), ns) + Own(Under([list[j]], idx), ns)
  {
    var rest := list[i + 1..];
    var a, x, b, y, c := Under(list[..i], idx), Under([list[i]], idx),
                         Under(rest[..j - i - 1], idx), Under([list[j]], idx), Under(rest[j - i..], idx);
    UnderSplit(list, i, idx);
    UnderSplit(rest, j - i - 1, idx);
    assert Under(list, idx) == (a + x) + ((b + y) + c);
    OwnConcat(a + x, (b + y) + c, ns);
    OwnConcat(a, x, ns);
    OwnConcat(b + y, c, ns);
    OwnConcat(b, y, ns);
  }

  lemma {:induction false} FirstTorn(list: seq<Vulnerability>, k: nat) returns (i: nat)
    requires k < |list| && !IsGroup(list[k])
    ensures i <= k && !IsGroup(list[i]) && forall m :: 0 <= m < i ==> IsGroup(list[m])
  {
    if m :| 0 <= m < k && !IsGroup(list[m]) {
      i := FirstTorn(list, m);
    } else {
      i := k;
    }
  }

  /** A collision shows in a listed group with features of two namespaces. */
  lemma CollisionIsListed(raw: seq<Vulnerability>, list: seq<Vulnerability>) returns (k: nat)
    requires AllValid(raw) && IsListingOf(list, raw) && !Unambiguous(Entries(raw))
    ensures k < |list| && !IsGroup(list[k])
  {
    var es := Entries(raw);
    var e, d :| e in es && d in es && WellFormed(e.feature) && WellFormed(d.feature) && IndexOf(e) == IndexOf(d) &&
                e.feature.namespace.name != d.feature.namespace.name;
    EntryIsSelected(es, e);
    EntryIsSelected(es, d);
    k := Listed(raw, list, IndexOf(e));
    assert e.feature in list[k].affected && d.feature in list[k].affected;
  }

  /** A torn group hands a feature to another index. */
  lemma TornFeature(v: Vulnerability) returns (f: AffectedFeature)
    requires IsListed(v) && !IsGroup(v)
    ensures Join(f.namespace.name, v.name) != IndexOfGroup(v)
    ensures f in Under([v], Join(f.namespace.name, v.name))
  {
    var k :| 0 <= k < |v.affected| && v.affected[k].namespace.name != v.namespace.name;
    f := v.affected[k];
    if Join(f.namespace.name, v.name) == IndexOfGroup(v) {
      SameNameSameNamespace(f.namespace.name, v.namespace.name, v.name);
    }
    EntriesOfAt(v, |v.affected|, k);
    EntryIsSelected(EntriesOf(v, |v.affected|), Entry(v, f));
    UnderOne(v, Join(f.namespace.name, v.name));
  }

  lemma {:induction false} EntriesOfAt(v: Vulnerability, n: nat, k: nat)
    requires k < n <= |v.affected|
    ensures Entry(v, v.affected[k]) in EntriesOf(v, n)
  {
    if k < n - 1 {
      EntriesOfAt(v, n - 1, k);
    }
  }

  lemma WholeGroupKeepsAll(v: Vulnerability, idx: string)
    requires IsGroup(v)
    ensures Under([v], idx) == if IndexOfGroup(v) == idx then v.affected else []
  {
    UnderOne(v, idx);
    RegroupOne(v, |v.affected|, idx);
    GroupKeepsFeatures(EntriesOf(v, |v.affected|), idx);
    assert v.affected[..|v.affected|] == v.affected;
  }

  lemma {:induction false} WholeGroupsElsewhere(list: seq<Vulnerability>, idx: string)
    requires forall m :: 0 <= m < |list| ==> IsGroup(list[m]) && IndexOfGroup(list[m]) != idx
    ensures Under(list, idx) == []
  {
    if list != [] {
      var n := |list| - 1;
      WholeGroupsElsewhere(list[..n], idx);
      WholeGroupKeepsAll(list[n], idx);
      assert list == list[..n] + [list[n]];
      UnderConcat(list[..n], [list[n]], idx);
    }
  }

  /** With a collision some index gets features that it did not have, or gets them too early. */
  lemma CollisionMovesFeatures(raw: seq<Vulnerability>, list: seq<Vulnerability>) returns (idx: string)
    requires AllValid(raw) && IsListingOf(list, raw) && !Unambiguous(Entries(raw))
    ensures !(Under(list, idx) <= Under(raw, idx))
  {
    var k := CollisionIsListed(raw, list);
    var i := FirstTorn(list, k);
    ListedIsListed(raw, list, i);
    var f := TornFeature(list[i]);
    idx := Join(f.namespace.name, list[i].name);
    UnderSplit(list, i, idx);
    if Under(raw, idx) != [] {
      var j := Listed(raw, list, idx);
      ListedIsListed(raw, list, j);
      if j < i {
        WholeGroupKeepsAll(list[j], idx);
        TwoContribute(list, j, i, idx, "");
      } else {
        OpenedTooEarly(raw, list, i, j, idx);
      }
    }
  }

  lemma OpenedTooEarly(raw: seq<Vulnerability>, list: seq<Vulnerability>, i: nat, j: nat, idx: string)
    requires IsListingOf(list, raw) && i < j < |list|
    requires forall m :: 0 <= m < i ==> IsGroup(list[m])
    requires IndexOfGroup(list[j]) == idx && IsListed(list[j]) && list[j].affected == Under(raw, idx)
    requires Under([list[i]], idx) != []
    ensures !(Under(list, idx) <= Under(raw, idx))
  {
    var ns := list[j].namespace.name;
    if Under(list, idx) <= Under(raw, idx) {
      assert forall m :: 0 <= m < i ==> list[..i][m] == list[m];
      WholeGroupsElsewhere(list[..i], idx);
      UnderSplit(list, i, idx);
      assert Under([list[i]], idx)[0] == Under(list, idx)[0] == list[j].affected[0];
      OwnFirst(Under([list[i]], idx));
      KeepsOwnUnder(list[j]);
      TwoContribute(list, i, j, idx, ns);
      OwnPrefix(Under(list, idx), Under(raw, idx), ns);
      assert false;
    }
  }

  ghost predicate AllUpdatersValid(raws: seq<seq<Vulnerability>>) {
    forall u :: 0 <= u < |raws| ==> ValidUpdater(raws, u)
  }

  ghost predicate ValidUpdater(raws: seq<seq<Vulnerability>>, u: int) {
    0 <= u < |raws| && AllValid(raws[u])
  }

  /** What the first `n` lists have under an index. */
  function UnderAll(lists: seq<seq<Vulnerability>>, n: nat, idx: string): seq<AffectedFeature>
    requires n <= |lists|
  {
    if n == 0 then [] else UnderAll(lists, n - 1, idx) + Under(lists[n - 1], idx)
  }

  lemma {:induction false} UnderFlatten(lists: seq<seq<Vulnerability>>, n: nat, idx: string)
    requires n <= |lists|
    ensures Under(Flatten(lists[..n]), idx) == UnderAll(lists, n, idx)
    decreases n
  {
    if n > 0 {
      UnderFlatten(lists, n - 1, idx);
      assert lists[..n][..n - 1] == lists[..n - 1];
      UnderConcat(Flatten(lists[..n - 1]), lists[n - 1], idx);
    }
  }

  lemma AheadBy<T>(got: seq<T>, r: seq<T>, due: seq<T>, s: seq<T>)
    requires !(got <= due) && got + r <= due + s
    ensures |due| < |got| && got[|due|..] + r <= s
  {
    var all := due + s;
    assert got == (got + r)[..|got|] == all[..|got|];
    assert |due| < |got| by {
      if |got| <= |due| {
        assert false;
      }
    }
    assert got[|due|..] + r == (got + r)[|due|..] == all[|due|..|got + r|];
    assert all[|due|..] == s;
  }

  lemma SamePrefix<T>(p: seq<T>, r: seq<T>, s: seq<T>)
    requires p + r <= p + s
    ensures r <= s
  {
    assert r == (p + r)[|p|..] && s == (p + s)[|p|..];
  }

  /** An index that is ahead of the raw features stays ahead: its next group opens with a feature
      that it is ahead by, and keeps all of that namespace. */
  lemma NoCatchingUp(raw: seq<Vulnerability>, list: seq<Vulnerability>, idx: string,
                     got: seq<AffectedFeature>, due: seq<AffectedFeature>)
    requires AllValid(raw) && IsListingOf(list, raw) && !(got <= due)
    ensures !(got + Under(list, idx) <= due + Under(raw, idx))
  {
    var r, s := Under(list, idx), Under(raw, idx);
    if got + r <= due + s {
      AheadBy(got, r, due, s);
      var ahead := got[|due|..];
      var ns := s[0].namespace.name;
      assert ahead[0] == s[0];
      OwnFirst(ahead);
      OwnConcat(ahead, r, ns);
      OwnPrefix(ahead + r, s, ns);
      RegroupingKeepsOwn(raw, list, idx);
      assert false;
    }
  }

  /** After `n` updaters an index has features that it is not due. */
  ghost predicate Ahead(raws: seq<seq<Vulnerability>>, lists: seq<seq<Vulnerability>>, n: nat, idx: string)
    requires n <= |raws| && n <= |lists|
  {
    !(UnderAll(lists, n, idx) <= UnderAll(raws, n, idx))
  }

  lemma AheadOfNext(raws: seq<seq<Vulnerability>>, lists: seq<seq<Vulnerability>>, n: nat, idx: string)
    requires AreListings(raws, lists) && AllUpdatersValid(raws) && n < |raws| && Ahead(raws, lists, n, idx)
    ensures Ahead(raws, lists, n + 1, idx)
  {
    assert ListsUpdater(raws, lists, n) && ValidUpdater(raws, n);
    NoCatchingUp(raws[n], lists[n], idx, UnderAll(lists, n, idx), UnderAll(raws, n, idx));
  }

  lemma GetsAhead(raws: seq<seq<Vulnerability>>, lists: seq<seq<Vulnerability>>, u: nat, idx: string)
    requires u < |raws| == |lists| && UnderAll(lists, u, idx) == UnderAll(raws, u, idx)
    requires !(Under(lists[u], idx) <= Under(raws[u], idx))
    ensures Ahead(raws, lists, u + 1, idx)
  {
    if !Ahead(raws, lists, u + 1, idx) {
      SamePrefix(UnderAll(raws, u, idx), Under(lists[u], idx), Under(raws[u], idx));
      assert false;
    }
  }

  lemma {:induction false} StaysAhead(raws: seq<seq<Vulnerability>>, lists: seq<seq<Vulnerability>>, u: nat, idx: string)
    requires AreListings(raws, lists) && AllUpdatersValid(raws) && u <= |raws| && Ahead(raws, lists, u, idx)
    ensures Ahead(raws, lists, |raws|, idx)
    decreases |raws| - u
  {
    if u < |raws| {
      AheadOfNext(raws, lists, u, idx);
      StaysAhead(raws, lists, u + 1, idx);
    }
  }

  lemma AheadShows(raws: seq<seq<Vulnerability>>, lists: seq<seq<Vulnerability>>, idx: string)
    requires |raws| == |lists| && Ahead(raws, lists, |raws|, idx)
    ensures !SameGroup(Entries(Flatten(lists)), Entries(Flatten(raws)), idx)
  {
    UnderFlatten(raws, |raws|, idx);
    UnderFlatten(lists, |lists|, idx);
    assert raws[..|raws|] == raws && lists[..|lists|] == lists;
    SameFeatures(Entries(Flatten(lists)), Entries(Flatten(raws)), idx);
  }

  /** Valid vulnerabilities whose indexes do not collide group again to the same groups. */
  lemma RegroupUnambiguous(raws: seq<seq<Vulnerability>>, lists: seq<seq<Vulnerability>>, idx: string)
    requires AreListings(raws, lists) && AllUpdatersValid(raws)
    requires forall u :: 0 <= u < |raws| ==> Unambiguous(Entries(raws[u]))
    ensures Group(Entries(Flatten(lists)), idx) == Group(Entries(Flatten(raws)), idx)
    ensures Under(Flatten(lists), idx) == Under(Flatten(raws), idx)
  {
    RegroupedGroups(raws, lists, idx);
    GroupOfAll(raws, idx);
    forall u | 0 <= u < |raws| ensures FilterEach(GroupsAt(raws, idx))[u] == GroupsAt(raws, idx)[u] {
      assert ValidUpdater(raws, u);
      EntriesHaveSources(raws[u]);
      GroupsAreAcceptable(Entries(raws[u]), idx);
    }
    assert FilterEach(GroupsAt(raws, idx)) == GroupsAt(raws, idx);
    GroupKeepsFeatures(Entries(Flatten(lists)), idx);
    GroupKeepsFeatures(Entries(Flatten(raws)), idx);
  }

  lemma {:induction false} FirstCollision(raws: seq<seq<Vulnerability>>, w: nat) returns (u: nat)
    requires w < |raws| && !Unambiguous(Entries(raws[w]))
    ensures u <= w && !Unambiguous(Entries(raws[u])) && forall m :: 0 <= m < u ==> Unambiguous(Entries(raws[m]))
  {
    if m :| 0 <= m < w && !Unambiguous(Entries(raws[m])) {
      u := FirstCollision(raws, m);
    } else {
      u := w;
    }
  }

  lemma CollisionAt(raws: seq<seq<Vulnerability>>, lists: seq<seq<Vulnerability>>, u: nat) returns (idx: string)
    requires AreListings(raws, lists) && AllUpdatersValid(raws) && u < |raws| && !Unambiguous(Entries(raws[u]))
    ensures !(Under(lists[u], idx) <= Under(raws[u], idx))
  {
    assert ListsUpdater(raws, lists, u) && ValidUpdater(raws, u);
    idx := CollisionMovesFeatures(raws[u], lists[u]);
  }

  lemma CollisionShows(raws: seq<seq<Vulnerability>>, lists: seq<seq<Vulnerability>>, w: nat) returns (idx: string)
    requires AreListings(raws, lists) && AllUpdatersValid(raws) && w < |raws| && !Unambiguous(Entries(raws[w]))
    ensures !SameGroup(Entries(Flatten(lists)), Entries(Flatten(raws)), idx)
  {
    var u := FirstCollision(raws, w);
    idx := CollisionAt(raws, lists, u);
    RegroupFirst(raws, lists, u, idx);
    GetsAhead(raws, lists, u, idx);
    StaysAhead(raws, lists, u + 1, idx);
    AheadShows(raws, lists, idx);
  }

  lemma RegroupFirst(raws: seq<seq<Vulnerability>>, lists: seq<seq<Vulnerability>>, u: nat, idx: string)
    requires AreListings(raws, lists) && AllUpdatersValid(raws) && u <= |raws|
    requires forall m :: 0 <= m < u ==> Unambiguous(Entries(raws[m]))
    ensures UnderAll(lists, u, idx) == UnderAll(raws, u, idx)
  {
    forall m | 0 <= m < u ensures ListsUpdater(raws[..u], lists[..u], m) && ValidUpdater(raws[..u], m) {
      assert ListsUpdater(raws, lists, m) && ValidUpdater(raws, m);
    }
    RegroupUnambiguous(raws[..u], lists[..u], idx);
    UnderFlatten(raws, u, idx);
    UnderFlatten(lists, u, idx);
  }

  lemma SameFeatures(a: seq<Entry>, b: seq<Entry>, idx: string)
    ensures SameGroup(a, b, idx) ==> Selected(a, idx) == Selected(b, idx)
  {
    GroupKeepsFeatures(a, idx);
    GroupKeepsFeatures(b, idx);
  }

  /** Grouping every updater's output, in whatever order the map yields it, and grouping the
      concatenation again is the same as grouping all raw vulnerabilities once, for valid names
      and severities, if and only if no updater has a collision of its own. */
  lemma RegroupingIsGrouping(raws: seq<seq<Vulnerability>>, lists: seq<seq<Vulnerability>>)
    requires AreListings(raws, lists) && AllUpdatersValid(raws)
    ensures Grouped(Entries(Flatten(lists))) == Grouped(Entries(Flatten(raws))) <==>
            forall u :: 0 <= u < |raws| ==> Unambiguous(Entries(raws[u]))
  {
    SameGroups(Entries(Flatten(lists)), Entries(Flatten(raws)));
    if w :| 0 <= w < |raws| && !Unambiguous(Entries(raws[w])) {
      var idx := CollisionShows(raws, lists, w);
    } else {
      forall idx ensures SameGroup(Entries(Flatten(lists)), Entries(Flatten(raws)), idx) {
        RegroupUnambiguous(raws, lists, idx);
      }
    }
  }

  /** Indexes of vulnerability names without a colon do not collide. */
  lemma ColonFreeNamesDoNotCollide(a: string, n: string, b: string, m: string)
    requires ':' !in n && ':' !in m && Join(a, n) == Join(b, m)
    ensures a == b && n == m
  {
    var s := Join(a, n);
    assert s[|a|] == ':' && s[|b|] == ':';
    assert s[..|a|] == a && s[|a| + 1..] == n && s[..|b|] == b && s[|b| + 1..] == m;
  }

  lemma ColonFreeNamesAreUnambiguous(es: seq<Entry>)
    requires forall e :: e in es ==> ':' !in e.source.name
    ensures Unambiguous(es)
  {
    forall e, d | e in es && d in es && IndexOf(e) == IndexOf(d)
      ensures e.feature.namespace.name == d.feature.namespace.name
    {
      ColonFreeNamesDoNotCollide(e.feature.namespace.name, e.source.name, d.feature.namespace.name, d.source.name);
    }
  }

  lemma EntriesOfSingle(v: Vulnerability)
    requires |v.affected| == 1
    ensures Entries([v]) == EntriesOf(v, 1) == [Entry(v, v.affected[0])]
  {
    assert [v][..0] == [];
    assert EntriesOf(v, 0) == [];
  }

  lemma EntriesOfTwo(v: Vulnerability, w: Vulnerability)
    requires |v.affected| == 1 && |w.affected| == 1
    ensures Entries([v, w]) == [Entry(v, v.affected[0]), Entry(w, w.affected[0])]
  {
    EntriesOfSingle(v);
    EntriesOfSingle(w);
    EntriesOfConcat([v], [w]);
    assert [v] + [w] == [v, w];
  }

  lemma EntriesOfOne(v: Vulnerability)
    requires |v.affected| == 2
    ensures Entries([v]) == [Entry(v, v.affected[0]), Entry(v, v.affected[1])]
  {
    assert [v][..0] == [];
    assert EntriesOf(v, 1) == [Entry(v, v.affected[0])];
    assert EntriesOf(v, 2) == [Entry(v, v.affected[0]), Entry(v, v.affected[1])];
  }

  lemma GroupOfTwo(e: Entry, d: Entry, idx: string)
    ensures Group([e, d], idx) == Merge(Single(e, idx), Single(d, idx))
  {
    assert [e, d][..1] == [e] && [e][..0] == [];
    assert Group([e], idx) == Single(e, idx);
  }

  /** Where the indexes of two vulnerabilities collide, the second grouping tears their group
      apart: it keeps the first name, which with the second namespace is another index. */
  lemma CollisionIsTornApart(v: Vulnerability, w: Vulnerability)
    requires |v.affected| == 1 && |w.affected| == 1 && WellFormed(v.affected[0]) && WellFormed(w.affected[0])
    requires AllValid([v, w])
    requires v.affected[0].namespace.name != w.affected[0].namespace.name
    requires Join(v.affected[0].namespace.name, v.name) == Join(w.affected[0].namespace.name, w.name)
    ensures var merged := v.(namespace := v.affected[0].namespace, affected := v.affected + w.affected);
            && IsListing([merged], Accepted(Grouped(Entries([v, w]))))
            && Grouped(Entries([merged])) != Grouped(Entries([v, w]))
  {
    var f, g := v.affected[0], w.affected[0];
    var merged := v.(namespace := f.namespace, affected := v.affected + w.affected);
    var idx := Join(f.namespace.name, v.name);
    var es := Entries([v, w]);
    EntriesOfTwo(v, w);
    EntriesOfOne(merged);
    forall i ensures Group(es, i) == if i == idx then Some(merged) else None {
      GroupOfTwo(Entry(v, f), Entry(w, g), i);
      assert [f] + [g] == v.affected + w.affected;
    }
    forall i ensures i in Grouped(es) <==> i == idx
             ensures i == idx ==> Grouped(es)[i] == merged
    {
      GroupedIsGroup(es, i);
    }
    assert [v, w][0] == v;
    assert Acceptable(merged) && IndexOfGroup(merged) == idx;
    GroupOfTwo(Entry(merged, f), Entry(merged, g), idx);
    GroupedIsGroup(Entries([merged]), idx);
    var s, r := Join(g.namespace.name, v.name), idx;
    assert |f.namespace.name| != |g.namespace.name| by {
      assert r[..|f.namespace.name|] == f.namespace.name;
    }
    assert |s| != |r|;
    assert Group(Entries([merged]), idx) == Some(Opened(Entry(merged, f)));
    assert |Opened(Entry(merged, f)).affected| == 1 && |merged.affected| == 2;
  }

  /** Namespace a with name x:m collides with namespace a:x and name m. */
  lemma CollisionExample(f: AffectedFeature)
    requires WellFormed(f)
    ensures var v := Vulnerability("x:m", Namespace("a", "dpkg"), "", "", Low, "", [f.(namespace := Namespace("a", "dpkg"))]);
            var w := Vulnerability("m", Namespace("a:x", "dpkg"), "", "", Low, "", [f.(namespace := Namespace("a:x", "dpkg"))]);
            var merged := v.(affected := v.affected + w.affected);
            IsListingOf([merged], [v, w]) && Grouped(Entries([merged])) != Grouped(Entries([v, w]))
  {
    var v := Vulnerability("x:m", Namespace("a", "dpkg"), "", "", Low, "", [f.(namespace := Namespace("a", "dpkg"))]);
    var w := Vulnerability("m", Namespace("a:x", "dpkg"), "", "", Low, "", [f.(namespace := Namespace("a:x", "dpkg"))]);
    assert Join("a", "x:m") == Join("a:x", "m") == "a:x:m";
    CollisionIsTornApart(v, w);
  }

  lemma AcceptsNothing(es: seq<Entry>)
    requires forall idx :: Filtered(Group(es, idx)).None?
    ensures Accepted(Grouped(es)) == map[]
  {
    forall idx ensures idx !in Accepted(Grouped(es)) {
      LookupIs(es, idx);
    }
  }

  lemma GroupOfSingle(e: Entry, idx: string)
    ensures Group([e], idx) == Single(e, idx)
  {
    assert [e][..0] == [];
  }

  /** Why severities must be valid: an invalid first vulnerability takes a valid second one of the
      same index down with it in one grouping, but not when each updater is grouped on its own. */
  lemma InvalidSeverityHidesTheRest(v: Vulnerability, w: Vulnerability)
    requires |v.affected| == 1 && |w.affected| == 1 && WellFormed(v.affected[0]) && WellFormed(w.affected[0])
    requires v.name == w.name != "" && v.affected[0].namespace == w.affected[0].namespace
    requires v.severity.Other? && !w.severity.Other?
    ensures Accepted(Grouped(Entries([v, w]))) == map[]
    ensures Accepted(Grouped(Entries([v]))) == map[] != Accepted(Grouped(Entries([w])))
  {
    var e, d := Entry(v, v.affected[0]), Entry(w, w.affected[0]);
    EntriesOfTwo(v, w);
    EntriesOfSingle(v);
    EntriesOfSingle(w);
    forall idx ensures Filtered(Group([e, d], idx)).None? && Filtered(Group([e], idx)).None? {
      GroupOfTwo(e, d, idx);
      GroupOfSingle(e, idx);
    }
    AcceptsNothing([e, d]);
    AcceptsNothing([e]);
    GroupOfSingle(d, IndexOf(d));
    LookupIs([d], IndexOf(d));
  }
}
