/** database/pgsql/notification.go: `findPagedVulnerableAncestries`, and what a client sees that
    follows its Next tokens while ancestries come and go between requests. A token is the start id
    it encodes. */
module Paging {
  import opened VersionText
  import opened Lists

  /** The ancestries affected by a vulnerability at one moment: row id to name. */
  type Affected = map<nat, string>

  datatype Ancestry = Ancestry(id: nat, name: string)

  /** `next` is the start of the next page; None stands for `End`. */
  datatype Page = Page(affected: Affected, next: Option<nat>)

  // ----- The query

  ghost predicate IsLeast(ids: set<nat>, start: nat, m: nat) {
    m in ids && m >= start && forall id :: id in ids && id >= start ==> m <= id
  }

  lemma {:induction false} LeastExists(ids: set<nat>, start: nat, id: nat)
    requires id in ids && id >= start
    ensures exists m: nat :: IsLeast(ids, start, m)
    decreases id
  {
    if other: nat :| other in ids && start <= other < id {
      LeastExists(ids, start, other);
    } else {
      assert IsLeast(ids, start, id);
    }
  }

  /** The ids from `start` on, in ascending order, at most `limit` of them. */
  ghost function RowsFrom(ids: set<nat>, start: nat, limit: nat): (rows: seq<nat>)
    ensures |rows| <= limit
    decreases limit
  {
    if limit > 0 && exists m: nat :: IsLeast(ids, start, m) then
      var m: nat :| IsLeast(ids, start, m);
      [m] + RowsFrom(ids, m + 1, limit - 1)
    else []
  }

  ghost predicate Ascending(rows: seq<nat>) {
    forall i, j :: 0 <= i < j < |rows| ==> rows[i] < rows[j]
  }

  /** What the query returns: ascending ids of the table from `start` on, and no id of the table
      is left out below the last one, or at all if there are fewer than the limit. */
  ghost predicate IsResult(ids: set<nat>, start: nat, limit: nat, rows: seq<nat>) {
    && Ascending(rows)
    && (forall i :: 0 <= i < |rows| ==> rows[i] in ids && rows[i] >= start)
    && (forall id :: id in ids && id >= start && (|rows| < limit || (rows != [] && id <= rows[|rows| - 1])) ==>
          id in rows)
  }

  lemma FirstRow(ids: set<nat>, start: nat, limit: nat, first: nat, rest: seq<nat>)
    requires limit > 0 && IsLeast(ids, start, first) && IsResult(ids, first + 1, limit - 1, rest)
    ensures IsResult(ids, start, limit, [first] + rest)
  {
  }

  lemma {:induction false} RowsAre(ids: set<nat>, start: nat, limit: nat)
    ensures IsResult(ids, start, limit, RowsFrom(ids, start, limit))
    decreases limit
  {
    if limit > 0 && exists m: nat :: IsLeast(ids, start, m) {
      var rows := RowsFrom(ids, start, limit);
      var first := rows[0];
      assert IsLeast(ids, start, first) && rows == [first] + RowsFrom(ids, first + 1, limit - 1);
      RowsAre(ids, first + 1, limit - 1);
      FirstRow(ids, start, limit, first, RowsFrom(ids, first + 1, limit - 1));
    } else if limit > 0 {
      assert forall id :: id in ids ==> id < start by {
        if id :| id in ids && id >= start {
          LeastExists(ids, start, id);
        }
      }
    }
  }

  // ----- Pages

  ghost function PageOf(table: Affected, limit: nat, start: nat): Page {
    var rows := RowsFrom(table.Keys, start, limit + 1);
    if |rows| <= limit then Page(map id | id in table && id in rows :: table[id], None)
    else Page(map id | id in table && id in rows[..limit] :: table[id], Some(rows[limit]))
  }

  method FindPagedVulnerableAncestries(ghost table: Affected, limit: nat, start: nat, rows: seq<Ancestry>)
    returns (page: Page)
    requires |rows| == |RowsFrom(table.Keys, start, limit + 1)|
    requires forall i :: 0 <= i < |rows| ==>
               && rows[i].id == RowsFrom(table.Keys, start, limit + 1)[i]
               && rows[i].id in table && rows[i].name == table[rows[i].id]
    ensures page == PageOf(table, limit, start)
  {
    var ancestries: seq<Ancestry> := [];
    for n := 0 to |rows|
      invariant ancestries == rows[..n]
    {
      ancestries := ancestries + [rows[n]];
    }
    ghost var ids := RowsFrom(table.Keys, start, limit + 1);
    var lastIndex := 0;
    var next: Option<nat> := None;
    if |ancestries| - 1 < limit {
      lastIndex := |ancestries|;
    } else {
      lastIndex := |ancestries| - 1;
      next := Some(ancestries[|ancestries| - 1].id);
    }
    var affected := AffectedOf(table, ids[..lastIndex], ancestries[..lastIndex]);
    assert lastIndex == |ids| ==> ids[..lastIndex] == ids;
    page := Page(affected, next);
  }

  /** The loop that fills the page. */
  method AffectedOf(ghost table: Affected, ghost ids: seq<nat>, ancestries: seq<Ancestry>) returns (affected: Affected)
    requires |ids| == |ancestries|
    requires forall i :: 0 <= i < |ids| ==>
               ancestries[i].id == ids[i] && ids[i] in table && ancestries[i].name == table[ids[i]]
    ensures affected == map id | id in table && id in ids :: table[id]
  {
    affected := map[];
    for n := 0 to |ancestries|
      invariant affected == map id | id in table && id in ids[..n] :: table[id]
    {
      assert ids[..n + 1] == ids[..n] + [ids[n]];
      affected := affected[ancestries[n].id := ancestries[n].name];
    }
    assert ids[..|ids|] == ids;
  }

  lemma {:induction false} AscendingSize(rows: seq<nat>)
    requires Ascending(rows)
    ensures |Elements(rows)| == |rows|
    decreases |rows|
  {
    if rows == [] {
      assert Elements(rows) == {};
    } else {
      var n := |rows| - 1;
      var init := rows[..n];
      AscendingSize(init);
      assert rows == init + [rows[n]];
      assert Elements(rows) == Elements(init) + {rows[n]};
      assert rows[n] !in Elements(init);
    }
  }

  /** The rows that make up a page. */
  ghost function PageIds(table: Affected, limit: nat, start: nat): seq<nat> {
    var rows := RowsFrom(table.Keys, start, limit + 1);
    if |rows| <= limit then rows else rows[..limit]
  }

  lemma PageKeys(table: Affected, limit: nat, start: nat)
    ensures PageOf(table, limit, start).affected.Keys == Elements(PageIds(table, limit, start))
    ensures Ascending(PageIds(table, limit, start))
  {
    RowsAre(table.Keys, start, limit + 1);
    var ids := PageIds(table, limit, start);
    forall id | id in ids ensures id in table {
      var k :| 0 <= k < |ids| && ids[k] == id;
      assert RowsFrom(table.Keys, start, limit + 1)[k] == id;
    }
  }

  /** A page is never longer than the limit, and full if another one follows. */
  lemma PageSize(table: Affected, limit: nat, start: nat)
    ensures var page := PageOf(table, limit, start);
            |page.affected| <= limit && (page.next.Some? ==> |page.affected| == limit)
  {
    PageKeys(table, limit, start);
    AscendingSize(PageIds(table, limit, start));
    KeysSize(PageOf(table, limit, start).affected);
  }

  lemma KeysSize(m: Affected)
    ensures |m| == |m.Keys|
  {
  }

  /** A page holds exactly the ids of the table between its start and the next page's start. */
  lemma PageIsWindow(table: Affected, limit: nat, start: nat, id: nat)
    ensures var page := PageOf(table, limit, start);
            && (id in page.affected <==> id in table && start <= id && (page.next.Some? ==> id < page.next.value))
            && (id in page.affected ==> page.affected[id] == table[id])
            && (page.next.Some? ==> page.next.value in table && page.next.value >= start)
  {
    RowsAre(table.Keys, start, limit + 1);
    var rows := RowsFrom(table.Keys, start, limit + 1);
    if |rows| > limit {
      assert |rows| == limit + 1;
      if id in rows {
        var i :| 0 <= i < |rows| && rows[i] == id;
        assert i < limit ==> rows[..limit][i] == id;
      }
    }
  }

  /** With a limit of at least 1 a page that is not the last shows something. */
  lemma PageMakesProgress(table: Affected, limit: nat, start: nat)
    requires limit >= 1 && PageOf(table, limit, start).next.Some?
    ensures PageOf(table, limit, start).next.value > start
    ensures exists id :: id in PageOf(table, limit, start).affected
  {
    RowsAre(table.Keys, start, limit + 1);
    var rows := RowsFrom(table.Keys, start, limit + 1);
    assert rows[..limit][0] == rows[0];
    assert rows[0] in PageOf(table, limit, start).affected;
  }

  // ----- Following the tokens

  /** Requests from the first page on, each against the table of its moment. */
  ghost predicate IsIteration(tables: seq<Affected>, limit: nat, starts: seq<nat>) {
    && |tables| == |starts| && |starts| > 0 && starts[0] == 0
    && forall i :: 0 <= i < |starts| - 1 ==> PageOf(tables[i], limit, starts[i]).next == Some(starts[i + 1])
  }

  ghost predicate Complete(tables: seq<Affected>, limit: nat, starts: seq<nat>) {
    IsIteration(tables, limit, starts) && PageOf(tables[|tables| - 1], limit, starts[|starts| - 1]).next == None
  }

  /** The page of request `i` is the one whose window holds the id. */
  ghost predicate Covers(tables: seq<Affected>, limit: nat, starts: seq<nat>, i: nat, id: nat)
    requires |tables| == |starts| && i < |starts|
  {
    var page := PageOf(tables[i], limit, starts[i]);
    starts[i] <= id && (page.next.Some? ==> id < page.next.value)
  }

  lemma {:induction false} StartsAscend(tables: seq<Affected>, limit: nat, starts: seq<nat>, i: nat, j: nat)
    requires IsIteration(tables, limit, starts) && i <= j < |starts|
    ensures starts[i] <= starts[j]
  {
    if i < j {
      StartsAscend(tables, limit, starts, i, j - 1);
      PageIsWindow(tables[j - 1], limit, starts[j - 1], 0);
    }
  }

  /** Ids strictly increase from page to page, so none is returned twice. */
  lemma PagesAscend(tables: seq<Affected>, limit: nat, starts: seq<nat>, i: nat, j: nat, id: nat, later: nat)
    requires IsIteration(tables, limit, starts) && i < j < |starts|
    requires id in PageOf(tables[i], limit, starts[i]).affected && later in PageOf(tables[j], limit, starts[j]).affected
    ensures id < later
  {
    PageIsWindow(tables[i], limit, starts[i], id);
    PageIsWindow(tables[j], limit, starts[j], later);
    StartsAscend(tables, limit, starts, i + 1, j);
  }

  lemma {:induction false} SomePageCovers(tables: seq<Affected>, limit: nat, starts: seq<nat>, n: nat, id: nat)
    requires Complete(tables, limit, starts) && n < |starts| && starts[n] <= id
    ensures exists i: nat :: i < |starts| && Covers(tables, limit, starts, i, id)
    decreases |starts| - n
  {
    var page := PageOf(tables[n], limit, starts[n]);
    if page.next.Some? && page.next.value <= id {
      SomePageCovers(tables, limit, starts, n + 1, id);
    } else {
      assert Covers(tables, limit, starts, n, id);
    }
  }

  /** In a complete iteration every id has one request that covers it, and the id is returned
      exactly if it was affected at that request, by that request and no other. */
  lemma EveryIdHasItsPage(tables: seq<Affected>, limit: nat, starts: seq<nat>, id: nat) returns (i: nat)
    requires Complete(tables, limit, starts)
    ensures i < |starts| && Covers(tables, limit, starts, i, id)
    ensures id in PageOf(tables[i], limit, starts[i]).affected <==> id in tables[i]
    ensures forall j: nat :: j < |starts| && j != i ==> id !in PageOf(tables[j], limit, starts[j]).affected
  {
    SomePageCovers(tables, limit, starts, 0, id);
    i :| i < |starts| && Covers(tables, limit, starts, i, id);
    PageIsWindow(tables[i], limit, starts[i], id);
    forall j: nat | j < |starts| && j != i ensures id !in PageOf(tables[j], limit, starts[j]).affected {
      PageIsWindow(tables[j], limit, starts[j], id);
      if j < i {
        StartsAscend(tables, limit, starts, j + 1, i);
      } else {
        StartsAscend(tables, limit, starts, i + 1, j);
      }
    }
  }

  /** An ancestry affected throughout the iteration is returned. */
  lemma LastingAncestryIsReturned(tables: seq<Affected>, limit: nat, starts: seq<nat>, id: nat)
    requires Complete(tables, limit, starts) && forall i :: 0 <= i < |tables| ==> id in tables[i]
    ensures exists i: nat :: i < |starts| && id in PageOf(tables[i], limit, starts[i]).affected
  {
    var i := EveryIdHasItsPage(tables, limit, starts, id);
  }

  // ----- A fixed table

  ghost function Remaining(table: Affected, start: nat): set<nat> {
    set id | id in table && id >= start
  }

  lemma RemainingShrinks(table: Affected, limit: nat, start: nat)
    requires limit >= 1 && PageOf(table, limit, start).next.Some?
    ensures Remaining(table, PageOf(table, limit, start).next.value) < Remaining(table, start)
  {
    PageMakesProgress(table, limit, start);
    var id :| id in PageOf(table, limit, start).affected;
    PageIsWindow(table, limit, start, id);
    assert id in Remaining(table, start) && id !in Remaining(table, PageOf(table, limit, start).next.value);
  }

  /** The ids of all pages from `start` on. The recursion ends: so does the iteration. */
  ghost function AllIds(table: Affected, limit: nat, start: nat): seq<nat>
    requires limit >= 1
    decreases Remaining(table, start)
  {
    var rows := RowsFrom(table.Keys, start, limit + 1);
    if |rows| <= limit then rows
    else
      RemainingShrinks(table, limit, start);
      rows[..limit] + AllIds(table, limit, rows[limit])
  }

  /** `list` is the sorted list of the ids of the table from `start` on. */
  ghost predicate IsSortedTable(table: Affected, start: nat, list: seq<nat>) {
    Ascending(list) && forall id :: id in list <==> id in table && id >= start
  }

  lemma JoinPages(table: Affected, start: nat, limit: nat, rows: seq<nat>, rest: seq<nat>)
    requires IsResult(table.Keys, start, limit + 1, rows) && |rows| == limit + 1
    requires IsSortedTable(table, rows[limit], rest)
    ensures IsSortedTable(table, start, rows[..limit] + rest)
  {
    var all := rows[..limit] + rest;
    assert forall i :: 0 <= i < limit ==> all[i] == rows[i] < rows[limit];
    assert forall i :: limit <= i < |all| ==> all[i] == rest[i - limit] && all[i] in rest;
    forall id | id in table && id >= start ensures id in all {
      if id < rows[limit] {
        assert id in rows;
        var i :| 0 <= i < |rows| && rows[i] == id;
        assert all[i] == id;
      } else {
        assert id in rest;
      }
    }
  }

  /** On a fixed table the pages, one after the other, are the sorted list of all affected ids. */
  lemma {:induction false} PagesAreTheSortedTable(table: Affected, limit: nat, start: nat)
    requires limit >= 1
    ensures IsSortedTable(table, start, AllIds(table, limit, start))
    decreases Remaining(table, start)
  {
    var rows := RowsFrom(table.Keys, start, limit + 1);
    RowsAre(table.Keys, start, limit + 1);
    if |rows| > limit {
      RemainingShrinks(table, limit, start);
      PagesAreTheSortedTable(table, limit, rows[limit]);
      JoinPages(table, start, limit, rows, AllIds(table, limit, rows[limit]));
    }
  }

  /** The start ids of the pages of a fixed table. */
  ghost function Starts(table: Affected, limit: nat, start: nat): (r: seq<nat>)
    requires limit >= 1
    ensures r != [] && r[0] == start
    decreases Remaining(table, start)
  {
    var page := PageOf(table, limit, start);
    if page.next.None? then [start]
    else
      RemainingShrinks(table, limit, start);
      [start] + Starts(table, limit, page.next.value)
  }

  lemma {:induction false} StartsFollowTokens(table: Affected, limit: nat, start: nat)
    requires limit >= 1
    ensures var starts := Starts(table, limit, start);
            && (forall i :: 0 <= i < |starts| - 1 ==> PageOf(table, limit, starts[i]).next == Some(starts[i + 1]))
            && PageOf(table, limit, starts[|starts| - 1]).next == None
    decreases Remaining(table, start)
  {
    var page := PageOf(table, limit, start);
    if page.next.Some? {
      RemainingShrinks(table, limit, start);
      StartsFollowTokens(table, limit, page.next.value);
      var rest := Starts(table, limit, page.next.value);
      assert Starts(table, limit, start) == [start] + rest;
      assert forall i :: 1 <= i <= |rest| ==> ([start] + rest)[i] == rest[i - 1];
    }
  }

  /** On a fixed table the iteration from the first page comes to its end. */
  lemma FixedTableIterationEnds(table: Affected, limit: nat)
    requires limit >= 1
    ensures var starts := Starts(table, limit, 0);
            Complete(seq(|starts|, i requires 0 <= i < |starts| => table), limit, starts)
  {
    StartsFollowTokens(table, limit, 0);
  }

  /** A limit of 0 never gets anywhere: the next page is the same page. */
  lemma ZeroLimitStalls(table: Affected, start: nat, id: nat)
    requires id in table && id >= start
    ensures var page := PageOf(table, 0, start);
            page.affected == map[] && page.next.Some? && PageOf(table, 0, page.next.value) == page
  {
    RowsAre(table.Keys, start, 1);
    var m := RowsFrom(table.Keys, start, 1)[0];
    RowsAre(table.Keys, m, 1);
    assert RowsFrom(table.Keys, m, 1) == [m];
  }
}
