/**
 * The listing query of `Storer.ReadTickets` (gcfirestore/ticket.go):
 * tickets ordered by `dateCreated` descending, a page that starts strictly
 * after the `After` cursor, ends strictly before the `Before` cursor and
 * holds at most `Limit` tickets, and the page metadata.
 *
 * Tickets created at the same instant are ordered by ID, descending: the
 * document store breaks ties on the document name in the direction of the
 * last `OrderBy`, and a ticket's document name is its ID. The store never
 * creates two tickets at the same instant (`DistinctCreated`), so there the
 * order is by creation time alone (`ListedByCreation`).
 */
module Paging {
  import opened Wrappers
  import opened TicketIds
  import opened Tixer
  import opened Documents

  /** The ticket documents of the collection, by ID. */
  type Collection = map<TicketID, Doc>

  /** No two tickets were created at the same instant. */
  predicate DistinctCreated(m: Collection)
  {
    forall a, b | a in m && b in m && a != b :: m[a].dateCreated != m[b].dateCreated
  }

  /** Ticket `a` comes before ticket `b` in the listing order. */
  predicate Later(m: Collection, a: TicketID, b: TicketID)
  {
    a in m && b in m &&
    (m[a].dateCreated > m[b].dateCreated || (m[a].dateCreated == m[b].dateCreated && a > b))
  }

  /** `ids` lists tickets of `m`, strictly in the listing order. */
  predicate Listed(m: Collection, ids: seq<TicketID>)
  {
    (forall i | 0 <= i < |ids| :: ids[i] in m) &&
    forall i, j | 0 <= i < j < |ids| :: Later(m, ids[i], ids[j])
  }

  predicate IsNewest(m: Collection, id: TicketID)
  {
    id in m && forall o | o in m && o != id :: Later(m, id, o)
  }

  /** Removing a ticket does not change how the others are ordered. */
  lemma LaterWithout(m: Collection, k: TicketID, a: TicketID, b: TicketID)
    requires a != k && b != k
    ensures Later(m - {k}, a, b) <==> Later(m, a, b)
  {
    if a in m && b in m {
      assert (m - {k})[a] == m[a] && (m - {k})[b] == m[b];
    }
  }

  /** Adding ticket `k` to a collection keeps its newest ticket, or `k` is newer still. */
  lemma NewestWith(m: Collection, k: TicketID, n: TicketID)
    requires k in m && IsNewest(m - {k}, n)
    ensures IsNewest(m, if Later(m, k, n) then k else n)
  {
    var w := if Later(m, k, n) then k else n;
    forall o | o in m && o != w ensures Later(m, w, o) {
      if o != k && o != n {
        LaterWithout(m, k, n, o);
      }
    }
  }

  lemma {:induction false} NewestExists(m: Collection)
    requires m != map[]
    ensures exists id :: IsNewest(m, id)
    decreases m.Keys
  {
    var k :| k in m;
    var rest := m - {k};
    if rest == map[] {
      forall o | o in m ensures o == k {
        assert o !in rest;
      }
      assert IsNewest(m, k);
    } else {
      NewestExists(rest);
      var n :| IsNewest(rest, n);
      NewestWith(m, k, n);
    }
  }

  lemma NewestUnique(m: Collection)
    ensures forall a, b | IsNewest(m, a) && IsNewest(m, b) :: a == b
  {
  }

  /** The IDs of `ids` are exactly the keys of `m`. */
  ghost predicate SameIds(m: Collection, ids: seq<TicketID>)
  {
    forall id :: id in ids <==> id in m
  }

  lemma PrependNewest(m: Collection, id: TicketID, tail: seq<TicketID>)
    requires IsNewest(m, id) && Listed(m - {id}, tail)
    ensures Listed(m, [id] + tail)
  {
    var rest := m - {id};
    var ids := [id] + tail;
    forall j | 0 <= j < |tail| ensures tail[j] in m && Later(m, id, tail[j]) {
      assert tail[j] in rest;
    }
    forall i, j | 0 <= i < j < |ids| ensures Later(m, ids[i], ids[j]) {
      if i > 0 {
        assert Later(rest, tail[i - 1], tail[j - 1]);
        assert rest[tail[i - 1]] == m[tail[i - 1]] && rest[tail[j - 1]] == m[tail[j - 1]];
      }
    }
  }

  /** The ticket that comes first in the listing order. */
  function Newest(m: Collection): (id: TicketID)
    requires m != map[]
    ensures id in m
  {
    NewestExists(m);
    NewestUnique(m);
    var id :| IsNewest(m, id);
    id
  }

  lemma NewestIsFirst(m: Collection)
    requires m != map[]
    ensures IsNewest(m, Newest(m))
  {
    NewestExists(m);
    NewestUnique(m);
  }

  /** Sorts the collection into the listing order, newest first. */
  function Ordered(m: Collection): (ids: seq<TicketID>)
    ensures forall i | 0 <= i < |ids| :: ids[i] in m
    ensures ids == [] <==> m == map[]
    decreases m.Keys
  {
    if m == map[] then []
    else
      var id := Newest(m);
      [id] + Ordered(m - {id})
  }

  /** The listing is in order. */
  lemma {:induction false} OrderedIsListed(m: Collection)
    ensures Listed(m, Ordered(m))
    decreases m.Keys
  {
    if m != map[] {
      var id := Newest(m);
      OrderedIsListed(m - {id});
      NewestIsFirst(m);
      PrependNewest(m, id, Ordered(m - {id}));
    }
  }

  /** The listing holds every stored ticket, and nothing else. */
  lemma {:induction false} OrderedListsEveryTicket(m: Collection)
    ensures SameIds(m, Ordered(m))
    decreases m.Keys
  {
    if m != map[] {
      var id := Newest(m);
      var rest := m - {id};
      OrderedListsEveryTicket(rest);
      assert Ordered(m) == [id] + Ordered(rest);
    }
  }

  /** `ids` lists every stored ticket once, in the listing order. */
  ghost predicate IsListing(m: Collection, ids: seq<TicketID>)
  {
    Listed(m, ids) && SameIds(m, ids)
  }

  /** A listing of the collection has its newest ticket first and the rest after it. */
  lemma ListingHead(m: Collection, ids: seq<TicketID>)
    requires IsListing(m, ids) && m != map[]
    ensures ids != [] && ids[0] == Newest(m) && IsListing(m - {ids[0]}, ids[1..])
  {
    var n := Newest(m);
    NewestIsFirst(m);
    assert n in ids;
    var k :| 0 <= k < |ids| && ids[k] == n;
    assert n == ids[0] || Later(m, n, ids[0]);
    var rest, tail := m - {n}, ids[1..];
    forall i | 0 <= i < |tail| ensures tail[i] in rest {
      assert Later(m, ids[0], ids[i + 1]);
    }
    forall i, j | 0 <= i < j < |tail| ensures Later(rest, tail[i], tail[j]) {
      assert Later(m, ids[i + 1], ids[j + 1]);
    }
    forall id ensures id in tail <==> id in rest {
      if id in rest {
        assert id in ids && id != ids[0];
      }
    }
  }

  lemma ListingStartsInside(m: Collection, ids: seq<TicketID>)
    requires IsListing(m, ids)
    ensures ids == [] || ids[0] in m
  {
  }

  /** There is exactly one listing of a collection. */
  lemma {:induction false} ListingUnique(m: Collection, a: seq<TicketID>, b: seq<TicketID>)
    requires IsListing(m, a) && IsListing(m, b)
    ensures a == b
    decreases |a|
  {
    if m == map[] {
      ListingStartsInside(m, a);
      ListingStartsInside(m, b);
    } else {
      ListingHead(m, a);
      ListingHead(m, b);
      ListingUnique(m - {a[0]}, a[1..], b[1..]);
      assert a == [a[0]] + a[1..] && b == [b[0]] + b[1..];
    }
  }

  /**
   * The listing the query reads: the tickets in the order of
   * `OrderBy("dateCreated", firestore.Desc)`, ties broken by document name.
   */
  ghost function Listing(m: Collection): (ids: seq<TicketID>)
  {
    OrderedIsListed(m);
    OrderedListsEveryTicket(m);
    assert IsListing(m, Ordered(m));
    var ids :| IsListing(m, ids);
    ids
  }

  /** `Ordered` computes the listing. */
  lemma OrderedIsListing(m: Collection)
    ensures Ordered(m) == Listing(m)
  {
    OrderedIsListed(m);
    OrderedListsEveryTicket(m);
    ListingUnique(m, Ordered(m), Listing(m));
  }

  /**
   * A ticket created after every stored one heads the listing, and the
   * tickets already stored follow it in their old order.
   */
  lemma CreatedHeadsListing(m: Collection, id: TicketID, d: Doc)
    requires id !in m
    requires forall k | k in m :: m[k].dateCreated < d.dateCreated
    ensures Listing(m[id := d]) == [id] + Listing(m)
  {
    var m', listed := m[id := d], Listing(m);
    assert IsListing(m, listed);
    assert m' - {id} == m;
    forall o | o in m' && o != id ensures Later(m', id, o) {
      assert m'[o] == m[o];
    }
    PrependNewest(m', id, listed);
    ListingUnique(m', [id] + listed, Listing(m'));
  }

  /** Rewriting a ticket's document without touching `dateCreated` does not move any ticket. */
  lemma RewriteKeepsListing(m: Collection, id: TicketID, d: Doc)
    requires id in m && d.dateCreated == m[id].dateCreated
    ensures Listing(m[id := d]) == Listing(m)
  {
    var m', ids := m[id := d], Listing(m);
    assert IsListing(m, ids);
    forall a, b ensures Later(m', a, b) <==> Later(m, a, b) {
    }
    assert IsListing(m', ids);
    ListingUnique(m', ids, Listing(m'));
  }

  /** With distinct creation times, the listing is strictly newest first. */
  lemma ListedByCreation(m: Collection, ids: seq<TicketID>)
    requires DistinctCreated(m) && Listed(m, ids)
    ensures forall i, j | 0 <= i < j < |ids| :: m[ids[i]].dateCreated > m[ids[j]].dateCreated
  {
    forall i, j | 0 <= i < j < |ids|
      ensures m[ids[i]].dateCreated > m[ids[j]].dateCreated
    {
      assert Later(m, ids[i], ids[j]);
    }
  }

  /** In a listing, position order and listing order agree. */
  lemma PositionOrder(m: Collection, ids: seq<TicketID>, i: nat, j: nat)
    requires Listed(m, ids) && i < |ids| && j < |ids|
    ensures i < j <==> Later(m, ids[i], ids[j])
  {
    if j < i {
      assert Later(m, ids[j], ids[i]);
    }
  }

  /** Where `id` first occurs in `ids`. */
  function IndexOf(ids: seq<TicketID>, id: TicketID): (k: nat)
    requires id in ids
    ensures k < |ids| && ids[k] == id
  {
    if ids[0] == id then 0 else 1 + IndexOf(ids[1..], id)
  }

  lemma IndexOfAt(m: Collection, ids: seq<TicketID>, k: nat)
    requires Listed(m, ids) && k < |ids|
    ensures IndexOf(ids, ids[k]) == k
  {
    PositionOrder(m, ids, k, IndexOf(ids, ids[k]));
    PositionOrder(m, ids, IndexOf(ids, ids[k]), k);
  }

  function Min(a: int, b: int): int
  {
    if a <= b then a else b
  }

  /** The first position of a page: just past the `After` cursor, or 0 without one. */
  function StartAfter(ord: seq<TicketID>, after: TicketID): (s: nat)
    ensures s <= |ord|
    ensures 0 < s <==> after != NilId && after in ord
    ensures 0 < s ==> ord[s - 1] == after
  {
    if after != NilId && after in ord then IndexOf(ord, after) + 1 else 0
  }

  /** The end of a page: the position of the `Before` cursor, or the end without one. */
  function EndBefore(ord: seq<TicketID>, before: TicketID): (e: nat)
    ensures e <= |ord|
    ensures e < |ord| <==> before != NilId && before in ord
    ensures e < |ord| ==> ord[e] == before
  {
    if before != NilId && before in ord then IndexOf(ord, before) else |ord|
  }

  /** The query's result between two positions, cut to `limit` entries. */
  function Window(ord: seq<TicketID>, start: nat, stop: nat, limit: nat): (w: seq<TicketID>)
    requires start <= |ord| && stop <= |ord|
    ensures |w| <= limit && start + |w| <= |ord| && w == ord[start..start + |w|]
    ensures stop <= start ==> w == []
    ensures start < stop ==> |w| == Min(stop - start, limit)
  {
    if stop <= start then [] else ord[start..Min(stop, start + limit)]
  }

  predicate CursorsIn(ord: seq<TicketID>, f: Filter)
  {
    (f.after == NilId || f.after in ord) && (f.before == NilId || f.before in ord)
  }

  /** `StartAfter(afterDoc)`, `EndBefore(beforeDoc)` and `Limit` applied to a listing. */
  function CursorWindow(ord: seq<TicketID>, f: Filter): (w: seq<TicketID>)
    requires 0 <= f.limit
    ensures |w| <= f.limit
    ensures w != [] ==> StartAfter(ord, f.after) + |w| <= EndBefore(ord, f.before)
  {
    Window(ord, StartAfter(ord, f.after), EndBefore(ord, f.before), f.limit)
  }

  lemma CursorWindowSlice(ord: seq<TicketID>, f: Filter)
    requires 0 <= f.limit
    ensures var w, s := CursorWindow(ord, f), StartAfter(ord, f.after);
            && |w| <= f.limit && s + |w| <= |ord| && w == ord[s..s + |w|]
            && (f.after != NilId && f.after in ord ==> s > 0 && ord[s - 1] == f.after)
  {
  }

  lemma WindowEntryWithinCursors(m: Collection, ord: seq<TicketID>, f: Filter, i: nat)
    requires Listed(m, ord) && CursorsIn(ord, f) && 0 <= f.limit
    requires i < |CursorWindow(ord, f)|
    ensures var id := CursorWindow(ord, f)[i];
            && id in m
            && (f.after != NilId ==> Later(m, f.after, id))
            && (f.before != NilId ==> Later(m, id, f.before))
  {
    var s, e := StartAfter(ord, f.after), EndBefore(ord, f.before);
    assert CursorWindow(ord, f)[i] == ord[s + i] && s + i < e;
    if f.after != NilId {
      PositionOrder(m, ord, IndexOf(ord, f.after), s + i);
    }
    if f.before != NilId {
      PositionOrder(m, ord, s + i, IndexOf(ord, f.before));
    }
  }

  lemma WindowWithinCursors(m: Collection, ord: seq<TicketID>, f: Filter)
    requires Listed(m, ord) && CursorsIn(ord, f) && 0 <= f.limit
    ensures forall id | id in CursorWindow(ord, f) ::
              && id in m
              && (f.after != NilId ==> Later(m, f.after, id))
              && (f.before != NilId ==> Later(m, id, f.before))
  {
    var w := CursorWindow(ord, f);
    forall id | id in w
      ensures id in m
      ensures f.after != NilId ==> Later(m, f.after, id)
      ensures f.before != NilId ==> Later(m, id, f.before)
    {
      var i :| 0 <= i < |w| && w[i] == id;
      WindowEntryWithinCursors(m, ord, f, i);
    }
  }

  /** Every entry of a listing before position `k` comes before the entry at `k`. */
  lemma EntriesBefore(m: Collection, ord: seq<TicketID>, lo: nat, hi: nat, k: nat)
    requires Listed(m, ord) && lo <= hi <= k < |ord|
    ensures forall q | q in ord[lo..hi] :: Later(m, q, ord[k])
  {
    forall q | q in ord[lo..hi] ensures Later(m, q, ord[k]) {
      var i :| lo <= i < hi && ord[i] == q;
    }
  }

  /** A ticket between the cursors sits between their positions. */
  lemma BetweenCursors(m: Collection, ord: seq<TicketID>, f: Filter, k: nat)
    requires Listed(m, ord) && CursorsIn(ord, f) && k < |ord|
    requires f.after != NilId ==> Later(m, f.after, ord[k])
    requires f.before != NilId ==> Later(m, ord[k], f.before)
    ensures StartAfter(ord, f.after) <= k < EndBefore(ord, f.before)
  {
    if f.after != NilId {
      PositionOrder(m, ord, IndexOf(ord, f.after), k);
    }
    if f.before != NilId {
      PositionOrder(m, ord, k, IndexOf(ord, f.before));
    }
  }

  /** A window between the cursors holds position `k`, unless it filled up first. */
  lemma WindowReaches(ord: seq<TicketID>, f: Filter, k: nat)
    requires 0 <= f.limit && StartAfter(ord, f.after) <= k < EndBefore(ord, f.before)
    ensures var w, s := CursorWindow(ord, f), StartAfter(ord, f.after);
            if k < s + |w| then w[k - s] == ord[k] else |w| == f.limit && w == ord[s..s + |w|]
  {
  }

  lemma WindowComplete(m: Collection, ord: seq<TicketID>, f: Filter, id: TicketID)
    requires Listed(m, ord) && CursorsIn(ord, f) && 0 <= f.limit && id in ord
    requires f.after != NilId ==> Later(m, f.after, id)
    requires f.before != NilId ==> Later(m, id, f.before)
    ensures var w := CursorWindow(ord, f);
            id in w || (|w| == f.limit && forall q | q in w :: Later(m, q, id))
  {
    var w := CursorWindow(ord, f);
    var s := StartAfter(ord, f.after);
    var k := IndexOf(ord, id);
    BetweenCursors(m, ord, f, k);
    WindowReaches(ord, f, k);
    if s + |w| <= k {
      EntriesBefore(m, ord, s, s + |w|, k);
    }
  }

  /** A cursor that is set but names no stored ticket. */
  predicate CursorMissing(m: Collection, cursor: TicketID)
  {
    cursor != NilId && cursor !in m
  }

  /**
   * The IDs of one page: ErrTicketNotFound for a set cursor naming no
   * ticket (After is resolved first), otherwise the window of the listing.
   */
  ghost function PageIds(m: Collection, f: Filter): (r: Result<seq<TicketID>, Error>)
    requires 0 <= f.limit
    ensures r.Failure? <==> CursorMissing(m, f.after) || CursorMissing(m, f.before)
    ensures r.Failure? ==> r.error == TicketNotFound
  {
    if CursorMissing(m, f.after) then Failure(TicketNotFound)
    else if CursorMissing(m, f.before) then Failure(TicketNotFound)
    else Success(CursorWindow(Listing(m), f))
  }

  /**
   * A page is the run of the listing that starts right after the `After`
   * cursor, and holds at most `Limit` tickets.
   */
  lemma PageIsSlice(m: Collection, f: Filter)
    requires 0 <= f.limit && !CursorMissing(m, f.after) && !CursorMissing(m, f.before)
    ensures var p, ord := PageIds(m, f).value, Listing(m);
            var s := StartAfter(ord, f.after);
            && |p| <= f.limit && s + |p| <= |ord| && p == ord[s..s + |p|]
            && (f.after != NilId ==> s > 0 && ord[s - 1] == f.after)
  {
    var ord := Listing(m);
    assert PageIds(m, f).value == CursorWindow(ord, f);
    CursorWindowSlice(ord, f);
  }

  /** Every ticket of a page comes after the After cursor and before the Before cursor. */
  lemma PageWithinCursors(m: Collection, f: Filter)
    requires 0 <= f.limit && !CursorMissing(m, f.after) && !CursorMissing(m, f.before)
    ensures forall id | id in PageIds(m, f).value ::
              && id in m
              && (f.after != NilId ==> Later(m, f.after, id))
              && (f.before != NilId ==> Later(m, id, f.before))
  {
    var ord := Listing(m);
    assert PageIds(m, f).value == CursorWindow(ord, f);
    WindowWithinCursors(m, ord, f);
  }

  /**
   * A page leaves out no ticket between its cursors, except ones that come
   * after everything on it, and then only because the page is full.
   */
  lemma PageComplete(m: Collection, f: Filter, id: TicketID)
    requires 0 <= f.limit && !CursorMissing(m, f.after) && !CursorMissing(m, f.before)
    requires id in m
    requires f.after != NilId ==> Later(m, f.after, id)
    requires f.before != NilId ==> Later(m, id, f.before)
    ensures var p := PageIds(m, f).value;
            id in p || (|p| == f.limit && forall q | q in p :: Later(m, q, id))
  {
    var ord := Listing(m);
    assert PageIds(m, f).value == CursorWindow(ord, f);
    WindowComplete(m, ord, f, id);
  }

  /**
   * `Metadata` of a page (gcfirestore/ticket.go): Before is the first ticket's
   * ID, After the last one's, both the nil ID for an empty page.
   */
  function PageMetadata(page: seq<Ticket>, total: int): (md: Metadata)
    ensures md.total == total
    ensures page == [] ==> md.before == NilId && md.after == NilId
    ensures page != [] ==> md.before == page[0].id && md.after == page[|page| - 1].id
  {
    if |page| > 0 then Metadata(page[0].id, page[|page| - 1].id, total)
    else Metadata(NilId, NilId, total)
  }

  /** No ID occurs twice, as in a listing. */
  predicate Distinct(ids: seq<TicketID>)
  {
    forall i, j | 0 <= i < j < |ids| :: ids[i] != ids[j]
  }

  lemma ListedIsDistinct(m: Collection, ids: seq<TicketID>)
    requires Listed(m, ids)
    ensures Distinct(ids)
  {
    forall i, j | 0 <= i < j < |ids| ensures ids[i] != ids[j] {
      assert Later(m, ids[i], ids[j]);
    }
  }

  /**
   * Paging on from `cursor`: the window after it is empty exactly at the end
   * of the listing; otherwise the window is the start of the rest, and its
   * last ID, as the next cursor, starts the next window right after it.
   */
  lemma NextCursor(ord: seq<TicketID>, cursor: TicketID, limit: int)
    requires Distinct(ord) && NilId !in ord && 0 < limit
    ensures var w, s := CursorWindow(ord, Filter(NilId, cursor, limit)), StartAfter(ord, cursor);
            && (w == [] <==> s == |ord|)
            && (w != [] ==>
                  && w[|w| - 1] in ord && w[|w| - 1] != NilId
                  && StartAfter(ord, w[|w| - 1]) == s + |w|
                  && ord[s..] == w + ord[s + |w|..])
  {
    var w := CursorWindow(ord, Filter(NilId, cursor, limit));
    var s := StartAfter(ord, cursor);
    WindowFromCursor(ord, cursor, limit);
    if w != [] {
      StartAfterEntry(ord, s + |w| - 1);
    }
  }

  lemma WindowFromCursor(ord: seq<TicketID>, cursor: TicketID, limit: int)
    requires 0 < limit
    ensures var w, s := CursorWindow(ord, Filter(NilId, cursor, limit)), StartAfter(ord, cursor);
            && (w == [] <==> s == |ord|)
            && (w != [] ==> w[|w| - 1] == ord[s + |w| - 1] && ord[s..] == w + ord[s + |w|..])
  {
    var s := StartAfter(ord, cursor);
    assert EndBefore(ord, NilId) == |ord|;
    var w := CursorWindow(ord, Filter(NilId, cursor, limit));
    if s < |ord| {
      assert w == ord[s..Min(|ord|, s + limit)];
      assert ord[s..] == w + ord[s + |w|..];
    }
  }

  /** Resuming after an entry of a listing starts at the next position. */
  lemma StartAfterEntry(ord: seq<TicketID>, j: nat)
    requires Distinct(ord) && j < |ord| && ord[j] != NilId
    ensures StartAfter(ord, ord[j]) == j + 1
  {
    var k := IndexOf(ord, ord[j]);
    assert ord[k] == ord[j];
  }

  /**
   * The IDs a client collects by following `Metadata.After` from `cursor`,
   * page after page, until a page comes back empty. Each page is the
   * window `PageIds` returns for a filter with only that `After` cursor
   * (`ord` is the listing): the traversal yields exactly the rest of the
   * listing after the cursor.
   */
  ghost function PagesFrom(ord: seq<TicketID>, cursor: TicketID, limit: int): (all: seq<TicketID>)
    requires 0 < limit && Distinct(ord) && NilId !in ord
    requires cursor == NilId || cursor in ord
    ensures all == ord[StartAfter(ord, cursor)..]
    decreases |ord| - StartAfter(ord, cursor)
  {
    var p := CursorWindow(ord, Filter(NilId, cursor, limit));
    NextCursor(ord, cursor, limit);
    if p == [] then []
    else p + PagesFrom(ord, p[|p| - 1], limit)
  }

  /**
   * Starting without a cursor and following `After` cursors visits every
   * stored ticket exactly once, in listing order.
   */
  lemma TraversalVisitsEachTicketOnce(m: Collection, limit: int)
    requires 0 < limit && NilId !in m
    ensures var all := PagesFrom(Listing(m), NilId, limit);
            && PageIds(m, Filter(NilId, NilId, limit)) == Success(all[..Min(|all|, limit)])
            && (forall id :: id in all <==> id in m)
            && (forall i, j | 0 <= i < j < |all| :: all[i] != all[j])
            && Listed(m, all)
  {
    var ord := Listing(m);
    ListedIsDistinct(m, ord);
    var all := PagesFrom(ord, NilId, limit);
    assert all == ord;
    WindowFromCursor(ord, NilId, limit);
  }

  /** The empty collection lists nothing. */
  lemma EmptyListing()
    ensures Listing(map[]) == []
  {
    ListingUnique(map[], [], Listing(map[]));
  }

  /** Three tickets created one after another are listed newest first. */
  lemma ThreeTicketListing(a: TicketID, b: TicketID, c: TicketID, da: Doc, db: Doc, dc: Doc)
    requires a != b && b != c && a != c
    requires da.dateCreated < db.dateCreated < dc.dateCreated
    ensures Listing(map[a := da, b := db, c := dc]) == [c, b, a]
  {
    var m1 := map[a := da];
    var m2 := m1[b := db];
    EmptyListing();
    assert map[][a := da] == m1;
    CreatedHeadsListing(map[], a, da);
    CreatedHeadsListing(m1, b, db);
    CreatedHeadsListing(m2, c, dc);
    assert m2[c := dc] == map[a := da, b := db, c := dc];
  }

  /**
   * ... and paged two at a time: the first page holds the two newest, the
   * page after its last entry the oldest.
   */
  lemma ThreeTicketPages(a: TicketID, b: TicketID, c: TicketID, da: Doc, db: Doc, dc: Doc)
    requires a != b && b != c && a != c && b != NilId
    requires da.dateCreated < db.dateCreated < dc.dateCreated
    ensures var m := map[a := da, b := db, c := dc];
            && PageIds(m, Filter(NilId, NilId, 2)) == Success([c, b])
            && PageIds(m, Filter(NilId, b, 2)) == Success([a])
  {
    var m := map[a := da, b := db, c := dc];
    ThreeTicketListing(a, b, c, da, db, dc);
    var ord := Listing(m);
    assert StartAfter(ord, NilId) == 0 && EndBefore(ord, NilId) == 3;
    assert CursorWindow(ord, Filter(NilId, NilId, 2)) == ord[0..2] == [c, b];
    assert StartAfter(ord, b) == 2 by {
      assert ord[1] == b;
      IndexOfAt(m, ord, 1);
    }
    assert CursorWindow(ord, Filter(NilId, b, 2)) == ord[2..3] == [a];
  }

  /**
   * Why the traversal needs the nil UUID to name no ticket: a page that ends
   * with a ticket stored under it hands out the nil UUID as its `After`
   * cursor, which reads as "no cursor", so the next page is the first one
   * again and paging never ends.
   */
  lemma NilTicketRestartsPaging(x: TicketID, dn: Doc, dx: Doc)
    requires x != NilId && dn.dateCreated < dx.dateCreated
    ensures var m := map[NilId := dn, x := dx];
            && PageIds(m, Filter(NilId, NilId, 1)) == Success([x])
            && PageIds(m, Filter(NilId, x, 1)) == Success([NilId])
  {
    var m1 := map[NilId := dn];
    var m := map[NilId := dn, x := dx];
    EmptyListing();
    assert map[][NilId := dn] == m1;
    CreatedHeadsListing(map[], NilId, dn);
    CreatedHeadsListing(m1, x, dx);
    assert m1[x := dx] == m;
    var ord := Listing(m);
    assert ord == [x, NilId];
    assert CursorWindow(ord, Filter(NilId, NilId, 1)) == ord[0..1] == [x];
    assert StartAfter(ord, x) == 1;
    assert CursorWindow(ord, Filter(NilId, x, 1)) == ord[1..2] == [NilId];
  }
}
