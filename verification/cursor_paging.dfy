/** Walking the memories of a workspace page by page while rows come and go
    (reflectlog/infrastructure/memory_store.py, `get_cursor_page`). The table is the list
    of its ids in ascending order; AUTOINCREMENT appends. */
module CursorPaging {

  datatype Table = Table(ids: seq<nat>, nextId: nat)

  datatype Page = Page(records: seq<nat>, total: nat, hasMore: bool, next: int)

  ghost predicate Increasing(ids: seq<nat>) {
    forall i, j :: 0 <= i < j < |ids| ==> ids[i] < ids[j]
  }

  ghost predicate TableOk(t: Table) {
    Increasing(t.ids) && forall x :: x in t.ids ==> x < t.nextId
  }

  /** The rows past the cursor. */
  function Above(ids: seq<nat>, after: int): seq<nat> {
    if ids == [] || ids[0] > after then ids else Above(ids[1..], after)
  }

  function PageOf(ids: seq<nat>, after: int, limit: nat): Page {
    var rows := Above(ids, after);
    var records := if |rows| > limit then rows[..limit] else rows;
    Page(records, |ids|, |rows| > limit, if records == [] then after else records[|records| - 1])
  }

  lemma {:induction false} AboveIs(ids: seq<nat>, after: int)
    requires Increasing(ids)
    ensures Increasing(Above(ids, after)) && |Above(ids, after)| <= |ids|
    ensures forall x :: x in Above(ids, after) <==> x in ids && x > after
  {
    if ids != [] && ids[0] <= after {
      AboveIs(ids[1..], after);
      assert ids == [ids[0]] + ids[1..];
    } else if ids != [] {
      forall x | x in ids
        ensures x > after
      {
        var i :| 0 <= i < |ids| && ids[i] == x;
        assert ids[0] <= ids[i];
      }
    }
  }

  /** The query: scan in id order, keep at most `limit + 1` rows past the cursor. */
  method GetCursorPage(ids: seq<nat>, limit: nat, after: int) returns (page: Page)
    requires Increasing(ids)
    ensures page == PageOf(ids, after, limit)
  {
    var i := 0;
    while i < |ids| && ids[i] <= after
      invariant i <= |ids| && Above(ids, after) == Above(ids[i..], after)
    {
      i := i + 1;
    }
    assert Above(ids[i..], after) == ids[i..];
    var rows := if |ids| - i > limit + 1 then ids[i..i + limit + 1] else ids[i..];
    var records := if |rows| > limit then rows[..limit] else rows;
    assert |rows| > limit ==> records == ids[i..][..limit];
    page := Page(records, |ids|, |rows| > limit, if records == [] then after else records[|records| - 1]);
  }

  // ----- Walks ------------------------------------------------------------------------------

  datatype Event = Fetch(limit: nat) | Insert | Delete(id: nat)

  datatype Walk = Walk(table: Table, after: int, returned: seq<nat>)

  function Without(ids: seq<nat>, id: nat): seq<nat> {
    if ids == [] then []
    else Without(ids[..|ids| - 1], id) + if ids[|ids| - 1] == id then [] else [ids[|ids| - 1]]
  }

  function Next(w: Walk, e: Event): Walk {
    match e
    case Fetch(limit) =>
      var page := PageOf(w.table.ids, w.after, limit);
      Walk(w.table, page.next, w.returned + page.records)
    case Insert => w.(table := Table(w.table.ids + [w.table.nextId], w.table.nextId + 1))
    case Delete(id) => w.(table := w.table.(ids := Without(w.table.ids, id)))
  }

  function After(w: Walk, events: seq<Event>): Walk {
    if events == [] then w else Next(After(w, events[..|events| - 1]), events[|events| - 1])
  }

  /** What has been returned is increasing and behind the cursor, and no row behind the
      cursor was missed. */
  ghost predicate Inv(start: int, w: Walk) {
    && TableOk(w.table) && Increasing(w.returned)
    && (forall x :: x in w.returned ==> start < x <= w.after)
    && start <= w.after && (w.after == start || w.after < w.table.nextId)
    && (forall x :: x in w.table.ids && start < x <= w.after ==> x in w.returned)
  }

  lemma {:induction false} WithoutIs(ids: seq<nat>, id: nat)
    requires Increasing(ids)
    ensures Increasing(Without(ids, id)) && |Without(ids, id)| <= |ids|
    ensures forall x :: x in Without(ids, id) <==> x in ids && x != id
  {
    if ids != [] {
      var rest, last := ids[..|ids| - 1], ids[|ids| - 1];
      WithoutIs(rest, id);
      assert ids == rest + [last];
      forall i | 0 <= i < |Without(rest, id)|
        ensures Without(rest, id)[i] < last
      {
        var x := Without(rest, id)[i];
        assert x in Without(rest, id) && x in rest;
        var j :| 0 <= j < |rest| && rest[j] == x;
        assert ids[j] < ids[|ids| - 1];
      }
    }
  }

  lemma FetchKeeps(start: int, w: Walk, limit: nat)
    requires Inv(start, w)
    ensures Inv(start, Next(w, Fetch(limit)))
    ensures !PageOf(w.table.ids, w.after, limit).hasMore ==>
              forall x :: x in w.table.ids && x > start ==> x in Next(w, Fetch(limit)).returned
  {
    var page := PageOf(w.table.ids, w.after, limit);
    PageBounds(w.table.ids, w.after, limit);
    PageMissesNone(w.table.ids, w.after, limit);
    ReturnedKeeps(start, w, page.records, page.next);
    if page.records != [] {
      assert page.records[|page.records| - 1] in w.table.ids;
    }
  }

  /** A page is increasing, past the cursor and up to the next one. */
  lemma PageBounds(ids: seq<nat>, after: int, limit: nat)
    requires Increasing(ids)
    ensures var page := PageOf(ids, after, limit);
            && Increasing(page.records) && page.next >= after
            && forall i :: 0 <= i < |page.records| ==> after < page.records[i] <= page.next && page.records[i] in ids
  {
    AboveIs(ids, after);
    var rows := Above(ids, after);
    var page := PageOf(ids, after, limit);
    assert page.records == rows[..|page.records|];
    forall i | 0 <= i < |page.records|
      ensures after < page.records[i] <= page.next && page.records[i] in ids
    {
      assert page.records[i] == rows[i] && rows[i] in rows;
    }
  }

  /** Between the two cursors no row is skipped, and the last page reaches the end. */
  lemma PageMissesNone(ids: seq<nat>, after: int, limit: nat)
    requires Increasing(ids)
    ensures var page := PageOf(ids, after, limit);
            && (forall x :: x in ids && after < x <= page.next ==> x in page.records)
            && (!page.hasMore ==> forall x :: x in ids && after < x ==> x in page.records)
  {
    AboveIs(ids, after);
    var rows := Above(ids, after);
    var page := PageOf(ids, after, limit);
    var n := |page.records|;
    assert n > 0 ==> forall j :: n <= j < |rows| ==> rows[n - 1] < rows[j];
    forall x | x in ids && after < x <= page.next
      ensures x in page.records
    {
      var i :| 0 <= i < |rows| && rows[i] == x;
      assert page.records[i] == x;
    }
    forall x | x in ids && after < x && !page.hasMore
      ensures x in page.records
    {
      assert x in rows;
    }
  }

  /** A page has at most `limit` rows, and is full when it promises more; it promises more
      exactly if a row past the cursor is not on it; and the total counts every row, also those
      behind the cursor. */
  lemma PageExactly(ids: seq<nat>, after: int, limit: nat)
    requires Increasing(ids)
    ensures var page := PageOf(ids, after, limit);
            && page.total == |ids| && |page.records| <= limit
            && (page.hasMore <==> exists x :: x in ids && x > after && x !in page.records)
            && (page.hasMore ==> |page.records| == limit)
            && (page.records == [] ==> page.next == after)
            && (page.records != [] ==> page.next == page.records[|page.records| - 1])
  {
    AboveIs(ids, after);
    var rows := Above(ids, after);
    var page := PageOf(ids, after, limit);
    if |rows| > limit {
      assert rows[limit] in rows;
      forall i | 0 <= i < limit
        ensures page.records[i] != rows[limit]
      {
        assert page.records[i] == rows[i] < rows[limit];
      }
    }
  }

  lemma ReturnedKeeps(start: int, w: Walk, records: seq<nat>, next: int)
    requires Inv(start, w) && Increasing(records) && next >= w.after
    requires forall i :: 0 <= i < |records| ==> w.after < records[i] <= next
    ensures Increasing(w.returned + records)
    ensures forall x :: x in w.returned + records ==> start < x <= next
  {
    var all := w.returned + records;
    forall i, j | 0 <= i < j < |all|
      ensures all[i] < all[j]
    {
      assert i < |w.returned| ==> all[i] in w.returned;
    }
  }

  lemma StepKeeps(start: int, w: Walk, e: Event)
    requires Inv(start, w)
    ensures Inv(start, Next(w, e))
  {
    match e
    case Fetch(limit) => FetchKeeps(start, w, limit);
    case Insert =>
      forall i | 0 <= i < |w.table.ids|
        ensures w.table.ids[i] < w.table.nextId
      {
        assert w.table.ids[i] in w.table.ids;
      }
    case Delete(id) => WithoutIs(w.table.ids, id);
  }

  /** What the events do to the rows: a page reads, an insert adds the next id, a deletion
      takes one id away. */
  lemma EventsChange(w: Walk, e: Event)
    requires TableOk(w.table)
    ensures forall x :: x in Next(w, e).table.ids <==>
              if e.Delete? then x in w.table.ids && x != e.id else x in w.table.ids || (e.Insert? && x == w.table.nextId)
    ensures !e.Fetch? ==> Next(w, e).after == w.after && Next(w, e).returned == w.returned
  {
    if e.Delete? {
      WithoutIs(w.table.ids, e.id);
    }
  }

  /** Whatever is inserted and deleted between the pages, the ids returned are strictly
      increasing, so none comes twice, and a page that reports no more has returned every
      row past the start that the table then holds. */
  lemma {:induction false} WalkIsComplete(table: Table, start: int, events: seq<Event>, limit: nat)
    requires TableOk(table)
    ensures var w := After(Walk(table, start, []), events);
            && Inv(start, w)
            && (!PageOf(w.table.ids, w.after, limit).hasMore ==>
                 forall x :: x in w.table.ids && x > start ==> x in Next(w, Fetch(limit)).returned)
  {
    if events != [] {
      var rest, e := events[..|events| - 1], events[|events| - 1];
      WalkIsComplete(table, start, rest, limit);
      StepKeeps(start, After(Walk(table, start, []), rest), e);
    }
    FetchKeeps(start, After(Walk(table, start, []), events), limit);
  }

  // ----- Limit zero ------------------------------------------------------------------------------

  /** With `limit` zero no number of pages moves the cursor, returns a row, or stops
      promising more while a row is left. */
  lemma {:induction false} ZeroNeverAdvances(w: Walk, pages: nat)
    ensures After(w, seq(pages, _ => Fetch(0))) == w
    ensures PageOf(w.table.ids, w.after, 0).hasMore <==> Above(w.table.ids, w.after) != []
  {
    if pages > 0 {
      var events := seq(pages, _ => Fetch(0));
      assert events[..|events| - 1] == seq(pages - 1, _ => Fetch(0));
      ZeroNeverAdvances(w, pages - 1);
      assert w.returned + [] == w.returned;
    }
  }

  /** One row, a walk from the start: after any number of pages it is still only promised. */
  lemma ZeroNeverReturnsTheRow(pages: nat)
    ensures var w := After(Walk(Table([1], 2), 0, []), seq(pages, _ => Fetch(0)));
            w.returned == [] && w.after == 0 && PageOf(w.table.ids, w.after, 0).hasMore
  {
    ZeroNeverAdvances(Walk(Table([1], 2), 0, []), pages);
  }

  // ----- Termination ----------------------------------------------------------------------------

  lemma {:induction false} AboveNext(ids: seq<nat>, after: int, k: nat)
    requires Increasing(ids) && 0 < k <= |Above(ids, after)|
    ensures Above(ids, Above(ids, after)[k - 1]) == Above(ids, after)[k..]
    decreases |ids|, k
  {
    if ids[0] <= after {
      AboveIs(ids[1..], after);
      var x := Above(ids, after)[k - 1];
      assert x in Above(ids[1..], after);
      AboveNext(ids[1..], after, k);
    } else if k == 1 {
      assert ids[1..] == [] || ids[1] > ids[0];
    } else {
      assert ids[k - 1] > ids[0] && ids[1..][k - 2] == ids[k - 1];
      assert Above(ids[1..], after) == ids[1..];
      AboveNext(ids[1..], after, k - 1);
      assert ids[1..][k - 1..] == ids[k..];
    }
  }

  /** A page that promises more leaves exactly `limit` rows fewer; a deletion leaves no
      more. With `limit` zero such a page leaves as many, so the walk never ends. */
  lemma FetchShrinks(w: Walk, limit: nat)
    requires TableOk(w.table) && PageOf(w.table.ids, w.after, limit).hasMore
    ensures var w' := Next(w, Fetch(limit));
            |Above(w'.table.ids, w'.after)| == |Above(w.table.ids, w.after)| - limit
  {
    if limit > 0 {
      AboveNext(w.table.ids, w.after, limit);
    }
  }

  lemma {:induction false} DeleteShrinks(ids: seq<nat>, after: int, id: nat)
    requires Increasing(ids)
    ensures |Above(Without(ids, id), after)| <= |Above(ids, after)|
  {
    WithoutIs(ids, id);
    AboveIs(ids, after);
    AboveIs(Without(ids, id), after);
    SubsetShorter(Above(Without(ids, id), after), Above(ids, after));
  }

  lemma {:induction false} SubsetShorter(a: seq<nat>, b: seq<nat>)
    requires Increasing(a) && Increasing(b) && forall x :: x in a ==> x in b
    ensures |a| <= |b|
  {
    if a != [] {
      var last := a[|a| - 1];
      assert last in b;
      var k :| 0 <= k < |b| && b[k] == last;
      var rest := a[..|a| - 1];
      forall x | x in rest
        ensures x in b[..k]
      {
        var i :| 0 <= i < |rest| && rest[i] == x;
        assert a[i] < last && a[i] in b;
        var j :| 0 <= j < |b| && b[j] == x;
        assert j < k;
      }
      SubsetShorter(rest, b[..k]);
    }
  }

  /** How many of the pages promised more. */
  function Promises(w: Walk, events: seq<Event>): nat {
    if events == [] then 0
    else
      var rest, e := events[..|events| - 1], events[|events| - 1];
      var before := After(w, rest);
      Promises(w, rest) +
      if e.Fetch? && PageOf(before.table.ids, before.after, e.limit).hasMore then 1 else 0
  }

  /** Without inserts and with a positive limit at most one page per remaining row promises
      more: the walk ends. */
  lemma {:induction false} WalkEnds(table: Table, start: int, events: seq<Event>)
    requires TableOk(table)
    requires forall e :: e in events ==> e != Insert && (e.Fetch? ==> e.limit >= 1)
    ensures var w0 := Walk(table, start, []);
            Promises(w0, events) + |Above(After(w0, events).table.ids, After(w0, events).after)| <= |Above(table.ids, start)|
  {
    var w0 := Walk(table, start, []);
    if events != [] {
      var rest, e := events[..|events| - 1], events[|events| - 1];
      assert events == rest + [e];
      assert forall x :: x in rest ==> x in events;
      assert e in events;
      WalkEnds(table, start, rest);
      WalkIsComplete(table, start, rest, 0);
      var before := After(w0, rest);
      match e {
        case Fetch(limit) =>
          if PageOf(before.table.ids, before.after, limit).hasMore {
            FetchShrinks(before, limit);
          } else {
            LastPage(before, limit);
          }
        case Delete(id) => DeleteShrinks(before.table.ids, before.after, id);
        case Insert =>
      }
    }
  }

  lemma LastPage(w: Walk, limit: nat)
    requires TableOk(w.table) && !PageOf(w.table.ids, w.after, limit).hasMore
    ensures var w' := Next(w, Fetch(limit)); Above(w'.table.ids, w'.after) == []
  {
    var n := |Above(w.table.ids, w.after)|;
    if n > 0 {
      AboveNext(w.table.ids, w.after, n);
    }
  }
}
