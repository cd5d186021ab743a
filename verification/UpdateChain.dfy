/** updater.go: `update`, the chain from the responses of the updaters to the stored vulnerabilities.
    What each stage returns is what the next one needs. */
module UpdateChain {
  import opened VersionText
  import opened Models
  import opened Lists
  import opened Grouping
  import opened Regrouping
  import Upsert

  // ----- What grouping hands to the upsert

  /** A response has unique ids, and no vulnerability that the database would reject. */
  lemma ResponseIsUnique(list: seq<Vulnerability>, raw: seq<Vulnerability>)
    requires IsListingOf(list, raw)
    ensures NoDuplicates(Upsert.Ids(list)) && forall v :: v in list ==> Acceptable(v)
  {
    forall i, j | 0 <= i < j < |list| ensures Upsert.Ids(list)[i] != Upsert.Ids(list)[j] {
      ListingHasUniqueIds(list, Accepted(Grouped(Entries(raw))), i, j);
    }
    forall v | v in list ensures Acceptable(v) {
      var i :| 0 <= i < |list| && list[i] == v;
      ListedGroup(raw, list, i);
    }
  }

  /** Without collisions every affected feature has the namespace of its vulnerability. */
  lemma ResponseOwnsItsFeatures(list: seq<Vulnerability>, raw: seq<Vulnerability>)
    requires IsListingOf(list, raw) && Unambiguous(Entries(raw))
    ensures forall v :: v in list ==> Upsert.OwnNamespace(v)
  {
    forall v | v in list ensures Upsert.OwnNamespace(v) {
      var i :| 0 <= i < |list| && list[i] == v;
      ListedGroup(raw, list, i);
      GroupsAreGroups(Entries(raw), IndexOfGroup(v));
    }
  }

  /** An entry of a grouped response comes from a raw entry with the same feature and index. */
  lemma EntryComesFromRaw(raw: seq<Vulnerability>, list: seq<Vulnerability>, e: Entry)
    requires IsListingOf(list, raw) && Unambiguous(Entries(raw)) && e in Entries(list)
    ensures ComesFrom(e.feature, Entries(raw), IndexOf(e))
  {
    EntryOf(list, e);
    var i :| 0 <= i < |list| && list[i] == e.source;
    ListedGroup(raw, list, i);
    GroupsAreGroups(Entries(raw), IndexOfGroup(list[i]));
    GroupKeepsFeatures(Entries(raw), IndexOfGroup(list[i]));
    SelectedComesFromEntries(Entries(raw), IndexOfGroup(list[i]), e.feature);
  }

  lemma EntriesOfLast(raws: seq<seq<Vulnerability>>)
    requires raws != []
    ensures Entries(Flatten(raws)) == Entries(Flatten(raws[..|raws| - 1])) + Entries(raws[|raws| - 1])
  {
    EntriesOfConcat(Flatten(raws[..|raws| - 1]), raws[|raws| - 1]);
  }

  lemma {:induction false} FlattenedEntryComesFromRaw(raws: seq<seq<Vulnerability>>, lists: seq<seq<Vulnerability>>, e: Entry)
    requires AreListings(raws, lists) && Unambiguous(Entries(Flatten(raws))) && e in Entries(Flatten(lists))
    ensures ComesFrom(e.feature, Entries(Flatten(raws)), IndexOf(e))
    decreases |raws|
  {
    var n := |raws| - 1;
    EntriesOfLast(raws);
    EntriesOfLast(lists);
    var front, back := Entries(Flatten(raws[..n])), Entries(raws[n]);
    UnambiguousParts(front, back);
    if e in Entries(lists[n]) {
      assert ListsUpdater(raws, lists, n);
      EntryComesFromRaw(raws[n], lists[n], e);
    } else {
      FirstListings(raws, lists, n);
      FlattenedEntryComesFromRaw(raws[..n], lists[..n], e);
    }
    ComesFromPart(e.feature, front, back, IndexOf(e));
  }

  lemma FirstListings(raws: seq<seq<Vulnerability>>, lists: seq<seq<Vulnerability>>, n: nat)
    requires AreListings(raws, lists) && n <= |raws|
    ensures AreListings(raws[..n], lists[..n])
  {
    forall u | 0 <= u < n ensures ListsUpdater(raws[..n], lists[..n], u) {
      assert ListsUpdater(raws, lists, u);
    }
  }

  lemma ComesFromPart(f: AffectedFeature, a: seq<Entry>, b: seq<Entry>, idx: string)
    requires ComesFrom(f, a, idx) || ComesFrom(f, b, idx)
    ensures ComesFrom(f, a + b, idx)
  {
    if ComesFrom(f, a, idx) {
      var k :| 0 <= k < |a| && WellFormed(a[k].feature) && IndexOf(a[k]) == idx && a[k].feature == f;
      assert (a + b)[k] == a[k];
    } else {
      var k :| 0 <= k < |b| && WellFormed(b[k].feature) && IndexOf(b[k]) == idx && b[k].feature == f;
      assert (a + b)[|a| + k] == b[k];
    }
  }

  /** Grouping the updaters' responses keeps them free of collisions. */
  lemma GroupedResponsesAreUnambiguous(raws: seq<seq<Vulnerability>>, lists: seq<seq<Vulnerability>>)
    requires AreListings(raws, lists) && Unambiguous(Entries(Flatten(raws)))
    ensures Unambiguous(Entries(Flatten(lists)))
  {
    var es := Entries(Flatten(lists));
    forall e, d | e in es && d in es && IndexOf(e) == IndexOf(d)
      ensures e.feature.namespace.name == d.feature.namespace.name
    {
      FlattenedEntryComesFromRaw(raws, lists, e);
      FlattenedEntryComesFromRaw(raws, lists, d);
    }
  }

  lemma {:induction false} UpdatersAreUnambiguous(raws: seq<seq<Vulnerability>>, u: nat)
    requires Unambiguous(Entries(Flatten(raws))) && u < |raws|
    ensures Unambiguous(Entries(raws[u]))
    decreases |raws|
  {
    var n := |raws| - 1;
    EntriesOfLast(raws);
    UnambiguousParts(Entries(Flatten(raws[..n])), Entries(raws[n]));
    if u < n {
      UpdatersAreUnambiguous(raws[..n], u);
    }
  }

  // ----- A second update

  /** `list` is what `update` hands to the upsert: the responses grouped one by one, and the
      concatenation grouped again. */
  ghost predicate IsFetched(raws: seq<seq<Vulnerability>>, list: seq<Vulnerability>) {
    exists lists :: AreListings(raws, lists) && IsListingOf(list, Flatten(lists))
  }

  lemma GroupsAgain(raws: seq<seq<Vulnerability>>, lists: seq<seq<Vulnerability>>, again: seq<seq<Vulnerability>>, idx: string)
    requires AreListings(raws, lists) && AreListings(raws, again) && Unambiguous(Entries(Flatten(raws)))
    ensures Group(Entries(Flatten(lists)), idx) == Group(Entries(Flatten(again)), idx)
  {
    forall u | 0 <= u < |raws| ensures Unambiguous(Entries(raws[u])) {
      UpdatersAreUnambiguous(raws, u);
    }
    RegroupedGroups(raws, lists, idx);
    RegroupedGroups(raws, again, idx);
  }

  /** However the maps are walked, the same vulnerabilities are fetched. */
  lemma FetchedAgain(raws: seq<seq<Vulnerability>>, first: seq<Vulnerability>, second: seq<Vulnerability>, v: Vulnerability)
    requires IsFetched(raws, first) && IsFetched(raws, second) && Unambiguous(Entries(Flatten(raws)))
    requires v in first
    ensures v in second
  {
    var lists :| AreListings(raws, lists) && IsListingOf(first, Flatten(lists));
    var again :| AreListings(raws, again) && IsListingOf(second, Flatten(again));
    GroupsAgain(raws, lists, again, IndexOfGroup(v));
    ListedAgain(Flatten(lists), first, Flatten(again), second, v);
  }

  lemma ListedAgain(a: seq<Vulnerability>, first: seq<Vulnerability>, b: seq<Vulnerability>, second: seq<Vulnerability>,
                    v: Vulnerability)
    requires IsListingOf(first, a) && IsListingOf(second, b) && v in first
    requires Group(Entries(a), IndexOfGroup(v)) == Group(Entries(b), IndexOfGroup(v))
    ensures v in second
  {
    var i :| 0 <= i < |first| && first[i] == v;
    ListedGroup(a, first, i);
    GroupIsListed(b, second, IndexOfGroup(v));
  }

  lemma FetchedOwnsItsFeatures(raws: seq<seq<Vulnerability>>, list: seq<Vulnerability>)
    requires IsFetched(raws, list) && Unambiguous(Entries(Flatten(raws)))
    ensures NoDuplicates(Upsert.Ids(list)) && forall v :: v in list ==> Upsert.OwnNamespace(v)
  {
    var lists :| AreListings(raws, lists) && IsListingOf(list, Flatten(lists));
    GroupedResponsesAreUnambiguous(raws, lists);
    ResponseOwnsItsFeatures(list, Flatten(lists));
    ResponseIsUnique(list, Flatten(lists));
  }

  /** After an update, a second one with the same responses has no changes if and only if the
      affected features of every vulnerability have distinct keys. */
  lemma SecondRunIsIdle(m: Upsert.LiveRows, raws: seq<seq<Vulnerability>>, first: seq<Vulnerability>,
                        second: seq<Vulnerability>, changes: seq<Upsert.Change>)
    requires IsFetched(raws, first) && IsFetched(raws, second) && Unambiguous(Entries(Flatten(raws)))
    requires Upsert.IsPlan(Upsert.Upserted(m, first), second, changes)
    ensures changes == [] <==> forall v :: v in first ==> NoDuplicates(Upsert.Keys(v.affected))
  {
    FetchedOwnsItsFeatures(raws, first);
    forall v | v in first
      ensures v in second && (!Upsert.Outdated(Upsert.Upserted(m, first), v) <==> NoDuplicates(Upsert.Keys(v.affected)))
    {
      FetchedAgain(raws, first, second, v);
      var i :| 0 <= i < |first| && first[i] == v;
      Upsert.SecondUpdateReportsDuplicates(m, first, i);
    }
    if changes != [] {
      var v := changes[0].after.value;
      FetchedAgain(raws, second, first, v);
      assert v in first && Upsert.Outdated(Upsert.Upserted(m, first), v);
    }
  }

  // ----- The chain

  /** Groups each response as it arrives. */
  method Fetch(responses: seq<seq<Vulnerability>>)
    returns (vulnerabilities: seq<Vulnerability>, ghost lists: seq<seq<Vulnerability>>)
    ensures AreListings(responses, lists) && vulnerabilities == Flatten(lists)
  {
    vulnerabilities, lists := [], [];
    for n := 0 to |responses|
      invariant AreListings(responses[..n], lists) && vulnerabilities == Flatten(lists)
    {
      var list := DoVulnerabilitiesNamespacing(responses[n]);
      OneMoreListing(responses, lists, n, list);
      assert (lists + [list])[..n] == lists;
      vulnerabilities, lists := vulnerabilities + list, lists + [list];
    }
    assert responses[..|responses|] == responses;
  }

  lemma OneMoreListing(raws: seq<seq<Vulnerability>>, lists: seq<seq<Vulnerability>>, n: nat, list: seq<Vulnerability>)
    requires n < |raws| && AreListings(raws[..n], lists) && IsListingOf(list, raws[n])
    ensures AreListings(raws[..n + 1], lists + [list])
  {
    var more, all := raws[..n + 1], lists + [list];
    forall u | 0 <= u <= n ensures ListsUpdater(more, all, u) {
      assert u < n ==> ListsUpdater(raws[..n], lists, u);
    }
  }

  method NamespacesOf(vs: seq<Vulnerability>) returns (r: seq<Namespace>)
    ensures forall ns :: ns in r <==> exists v :: v in vs && v.namespace == ns
    ensures NoDuplicates(r)
  {
    r := [];
    for n := 0 to |vs|
      invariant forall ns :: ns in r <==> exists v :: v in vs[..n] && v.namespace == ns
      invariant NoDuplicates(r)
    {
      assert vs[..n + 1] == vs[..n] + [vs[n]];
      if vs[n].namespace !in r {
        r := r + [vs[n].namespace];
      }
    }
    assert vs[..|vs|] == vs;
  }

  /** What reaches the database. */
  method FetchAndGroup(responses: seq<seq<Vulnerability>>) returns (fetched: seq<Vulnerability>)
    ensures IsFetched(responses, fetched)
    ensures NoDuplicates(Upsert.Ids(fetched)) && forall v :: v in fetched ==> Acceptable(v)
    ensures AllUpdatersValid(responses) && (forall u :: 0 <= u < |responses| ==> Unambiguous(Entries(responses[u]))) ==>
              IsListingOf(fetched, Flatten(responses))
  {
    var all, lists := Fetch(responses);
    fetched := DoVulnerabilitiesNamespacing(all);
    ResponseIsUnique(fetched, all);
    if AllUpdatersValid(responses) {
      RegroupingIsGrouping(responses, lists);
    }
  }

  /** The fetched vulnerability takes the place of a live one. */
  ghost predicate Replaces(m: Upsert.LiveRows, v: Vulnerability) {
    IdOf(v) in m && Upsert.Outdated(m, v)
  }

  ghost predicate CanReplace(namespaces: set<Namespace>, m: Upsert.LiveRows, fetched: seq<Vulnerability>) {
    forall v :: v in fetched && Replaces(m, v) ==> Upsert.OneFormat(namespaces, v.namespace.name)
  }

  /** The update fails exactly if the cache does not take the new rows or a vulnerability is to be
      replaced in a namespace that, with the fetched namespaces, has two formats. Otherwise the live
      rows become the upsert of what was fetched, which for valid responses without collisions is
      all of it grouped once. */
  method Update(tx: Upsert.Session, responses: seq<seq<Vulnerability>>, caches: bool)
    returns (ok: bool, fetched: seq<Vulnerability>, changes: seq<Upsert.Change>)
    requires tx.Valid()
    modifies tx
    ensures IsFetched(responses, fetched)
    ensures AllUpdatersValid(responses) && (forall u :: 0 <= u < |responses| ==> Unambiguous(Entries(responses[u]))) ==>
              IsListingOf(fetched, Flatten(responses))
    ensures tx.namespaces == old(tx.namespaces) + set v | v in fetched :: v.namespace
    ensures ok <==> fetched == [] || (caches && CanReplace(tx.namespaces, old(Upsert.Live(tx.rows)), fetched))
    ensures !ok ==> tx.rows == old(tx.rows)
    ensures ok ==>
              && tx.Valid()
              && Upsert.Live(tx.rows) == Upsert.Upserted(old(Upsert.Live(tx.rows)), fetched)
              && Upsert.IsPlan(old(Upsert.Live(tx.rows)), fetched, changes)
  {
    fetched := FetchAndGroup(responses);
    ok, changes := Store(tx, fetched, caches);
  }

  method Store(tx: Upsert.Session, fetched: seq<Vulnerability>, caches: bool) returns (ok: bool, changes: seq<Upsert.Change>)
    requires tx.Valid() && NoDuplicates(Upsert.Ids(fetched)) && forall v :: v in fetched ==> Acceptable(v)
    modifies tx
    ensures tx.namespaces == old(tx.namespaces) + set v | v in fetched :: v.namespace
    ensures ok <==> fetched == [] || (caches && CanReplace(tx.namespaces, old(Upsert.Live(tx.rows)), fetched))
    ensures !ok ==> tx.rows == old(tx.rows)
    ensures ok ==>
              && tx.Valid()
              && Upsert.Live(tx.rows) == Upsert.Upserted(old(Upsert.Live(tx.rows)), fetched)
              && Upsert.IsPlan(old(Upsert.Live(tx.rows)), fetched, changes)
  {
    var namespaces := NamespacesOf(fetched);
    var persisted := tx.PersistNamespaces(namespaces);
    assert persisted;
    ok, changes := Upsert.UpdateVulnerabilities(tx, fetched, caches);
  }
}
