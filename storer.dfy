/**
 * `gcfirestore.Storer` (gcfirestore/ticket.go): the tickets collection as a
 * map from ID to stored document, the `totalTickets` field of the counter
 * document, and the server clock that stamps each committed write.
 *
 * Each `RunTransaction` is one atomic step: it either commits all its
 * writes, stamped with the current clock reading, or fails and leaves the
 * store as it was.
 */
module Gcfirestore {
  import opened Wrappers
  import opened TicketIds
  import opened Tixer
  import opened Documents
  import opened Paging

  /**
   * The counter document's name: "--counter--" by default (the
   * `firestore-stats-doc-ID` flag, cmd/ticketsd/main.go); `NewStorer` takes it
   * as a parameter.
   */
  const CounterDocId: string := "--counter--"

  /**
   * The counter document shares the collection, yet no cursor lookup can
   * reach it: a ticket document's name is the 36-character text of a UUID.
   */
  lemma CounterIsNoTicket(id: TicketID)
    ensures IdString(id) != CounterDocId
  {
  }

  /** What `ReadTickets` returns besides an error. */
  datatype Page = Page(tickets: seq<Ticket>, metadata: Metadata)

  /**
   * The timestamps of a document written by this store before `now`: a
   * creation stamp, and either no update stamp (Go's zero time) or a later one.
   */
  predicate Stamped(d: Doc, now: Time)
  {
    ZeroTime < d.dateCreated < now &&
    (d.dateUpdated == ZeroTime || d.dateCreated < d.dateUpdated < now)
  }

  /** The ordered query with its cursors and limit yields the page's documents, all stored. */
  lemma QueryIsPage(m: Collection, f: Filter)
    requires 0 <= f.limit && !CursorMissing(m, f.after) && !CursorMissing(m, f.before)
    ensures var docs := CursorWindow(Ordered(m), f);
            && docs == PageIds(m, f).value
            && forall k | 0 <= k < |docs| :: docs[k] in m
  {
    OrderedIsListing(m);
    PageWithinCursors(m, f);
  }

  /** Every document of `m` was written, and created at a distinct instant, before `now`. */
  predicate StampedBefore(m: Collection, now: Time)
  {
    (forall id | id in m :: Stamped(m[id], now)) && DistinctCreated(m)
  }

  /** A rewrite stamped at `now` that keeps `dateCreated` keeps the stamps valid for `now + 1`. */
  lemma RewriteStamped(m: Collection, id: TicketID, d: Doc, now: Time)
    requires id in m && StampedBefore(m, now)
    requires d.dateCreated == m[id].dateCreated && d.dateUpdated == now
    ensures StampedBefore(m[id := d], now + 1)
  {
    var m' := m[id := d];
    forall a, b | a in m' && b in m' && a != b ensures m'[a].dateCreated != m'[b].dateCreated {
      assert m'[a].dateCreated == m[a].dateCreated && m'[b].dateCreated == m[b].dateCreated;
    }
  }

  /** A document created at `now` keeps the stamps valid for `now + 1`, and is the newest one. */
  lemma InsertStamped(m: Collection, id: TicketID, d: Doc, now: Time)
    requires id !in m && d.dateCreated == now && d.dateUpdated == ZeroTime && ZeroTime < now
    requires StampedBefore(m, now)
    ensures StampedBefore(m[id := d], now + 1)
    ensures forall k | k in m :: m[k].dateCreated < d.dateCreated
  {
  }

  /** Deleting a document shrinks the collection by one exactly when it was there. */
  lemma RemoveCount(m: Collection, id: TicketID)
    ensures |m - {id}| == if id in m then |m| - 1 else |m|
  {
    var r := m - {id};
    if id in m {
      assert r.Keys + {id} == m.Keys;
    } else {
      assert r == m;
    }
  }

  /** Removing a document keeps the stamps valid. */
  lemma RemoveStamped(m: Collection, id: TicketID, now: Time)
    requires StampedBefore(m, now)
    ensures StampedBefore(m - {id}, now)
  {
    var m' := m - {id};
    forall a, b | a in m' && b in m' && a != b ensures m'[a].dateCreated != m'[b].dateCreated {
      assert m'[a] == m[a] && m'[b] == m[b];
    }
  }

  /**
   * The loop of `ReadTickets` over the query's documents: each becomes a
   * Ticket through `docToPersistedTicket` and `toDomainTicket`, in order.
   */
  method DecodeAll(m: Collection, docs: seq<TicketID>) returns (tt: seq<Ticket>)
    requires forall k | 0 <= k < |docs| :: docs[k] in m
    ensures |tt| == |docs|
    ensures forall k | 0 <= k < |docs| :: tt[k] == ReadBack(docs[k], m[docs[k]])
  {
    tt := [];
    var i := 0;
    while i < |docs|
      invariant 0 <= i <= |docs| && |tt| == i
      invariant forall k | 0 <= k < i :: tt[k] == ReadBack(docs[k], m[docs[k]])
    {
      var id := docs[i];
      IdStringRoundTrip(id);
      tt := tt + [ToDomainTicket(DocToPersistedTicket(IdString(id), m[id]))];
      i := i + 1;
    }
  }

  class Storer {
    /** The ticket documents, by ID. */
    var tickets: Collection
    /** `totalTickets` of the counter document; None while that document is missing. */
    var counter: Option<int>
    /** The server timestamp the next commit receives. */
    var clock: Time

    ghost predicate Valid()
      reads this
    {
      ZeroTime < clock && StampedBefore(tickets, clock)
    }

    /** The invariant the two-write transactions exist to keep. */
    predicate Consistent()
      reads this
    {
      counter == Some(|tickets|)
    }

    /** An empty collection, with or without its counter document. */
    constructor (counter: Option<int>)
      ensures Valid()
      ensures tickets == map[] && this.counter == counter
      ensures counter == Some(0) ==> Consistent()
    {
      tickets := map[];
      this.counter := counter;
      clock := 1;
    }

    /**
     * `CreateTicket` (gcfirestore/ticket.go): `tx.Create` of the document,
     * stamped with `dateCreated` and no `dateUpdated`, and `Increment(1)`
     * of the counter, in one transaction.
     */
    method CreateTicket(ticket: Ticket) returns (err: Option<Error>)
      requires Valid()
      modifies this
      ensures Valid()
      ensures err == if ticket.id in old(tickets) then Some(StatusAlreadyExists)
                     else if old(counter).None? then Some(StatusNotFound)
                     else None
      ensures err.Some? ==> unchanged(this)
      ensures err.None? ==>
                && tickets == old(tickets)[ticket.id := Doc(ticket.title, ticket.price, old(clock), ZeroTime)]
                && counter == Some(old(counter).value + 1)
                && clock == old(clock) + 1
      ensures err.None? ==> Listing(tickets) == [ticket.id] + Listing(old(tickets))
      ensures old(Consistent()) ==> Consistent()
    {
      if ticket.id in tickets {
        return Some(StatusAlreadyExists);
      }
      if counter.None? {
        return Some(StatusNotFound);
      }
      var d := Doc(ticket.title, ticket.price, clock, ZeroTime);
      InsertStamped(tickets, ticket.id, d, clock);
      CreatedHeadsListing(tickets, ticket.id, d);
      tickets := tickets[ticket.id := d];
      counter := Some(counter.value + 1);
      clock := clock + 1;
      err := None;
    }

    /** `ReadTicket` and `readTicket`: the decoded document, or ErrTicketNotFound. */
    method ReadTicket(id: TicketID) returns (r: Result<Ticket, Error>)
      ensures r.Success? <==> id in tickets
      ensures r.Failure? ==> r.error == TicketNotFound
      ensures r.Success? ==>
                var d := tickets[id];
                r.value == Ticket(id, d.title, d.price, d.dateCreated, d.dateUpdated)
    {
      if id !in tickets {
        return Failure(TicketNotFound);
      }
      IdStringRoundTrip(id);
      var p := DocToPersistedTicket(IdString(id), tickets[id]);
      return Success(ToDomainTicket(p));
    }

    /**
     * `UpdateTicket`: inside a transaction, read the document (NotFound
     * becomes ErrTicketNotFound), then write `dateUpdated`, plus the title
     * when it is not "" and the price when it is not 0; afterwards read the
     * ticket back.
     */
    method UpdateTicket(ticket: Ticket) returns (r: Result<Ticket, Error>)
      requires Valid()
      modifies this
      ensures Valid()
      ensures r.Failure? <==> ticket.id !in old(tickets)
      ensures r.Failure? ==> r.error == TicketNotFound && unchanged(this)
      ensures counter == old(counter)
      ensures r.Success? ==>
                && tickets == old(tickets)[ticket.id := Written(old(tickets)[ticket.id], ticket, old(clock))]
                && clock == old(clock) + 1
                && r.value == ReadBack(ticket.id, tickets[ticket.id])
      ensures r.Success? ==> Listing(tickets) == Listing(old(tickets))
    {
      if ticket.id !in tickets {
        return Failure(TicketNotFound);
      }
      var d := tickets[ticket.id];
      var updates := [SetDateUpdated(clock)];
      ghost var expected := d.(dateUpdated := clock);
      assert ApplyUpdates(d, updates) == expected;
      if ticket.title != [] {
        ApplyUpdatesSnoc(d, updates, SetTitle(ticket.title));
        updates := updates + [SetTitle(ticket.title)];
        expected := expected.(title := ticket.title);
      }
      if ticket.price != 0.0 {
        ApplyUpdatesSnoc(d, updates, SetPrice(ticket.price));
        updates := updates + [SetPrice(ticket.price)];
        expected := expected.(price := ticket.price);
      }
      assert expected == Written(d, ticket, clock);
      var d' := ApplyUpdates(d, updates);
      RewriteKeepsListing(tickets, ticket.id, d');
      RewriteStamped(tickets, ticket.id, d', clock);
      tickets := tickets[ticket.id := d'];
      clock := clock + 1;
      r := ReadTicket(ticket.id);
    }

    /**
     * `DeleteTicket`: `tx.Delete` of the document and `Increment(-1)` of the
     * counter, in one transaction. Nothing checks that the ticket exists;
     * whether deleting a missing document fails is up to the document store,
     * and `rejectMissing` is that outcome.
     */
    method DeleteTicket(id: TicketID, rejectMissing: bool) returns (err: Option<Error>)
      requires Valid()
      modifies this
      ensures Valid()
      ensures err.Some? <==> (id !in old(tickets) && rejectMissing) || old(counter).None?
      ensures err.Some? ==> err.value == StatusNotFound && unchanged(this)
      ensures err.None? ==>
                && tickets == old(tickets) - {id}
                && counter == Some(old(counter).value - 1)
                && clock == old(clock)
      ensures err.None? && old(Consistent()) ==>
                counter == Some(if id in old(tickets) then |tickets| else |tickets| - 1)
    {
      if id !in tickets && rejectMissing {
        return Some(StatusNotFound);
      }
      if counter.None? {
        return Some(StatusNotFound);
      }
      RemoveStamped(tickets, id, clock);
      RemoveCount(tickets, id);
      tickets := tickets - {id};
      counter := Some(counter.value - 1);
      err := None;
    }

    /**
     * `ReadTickets`: resolve the set cursors (a missing one is
     * ErrTicketNotFound), run the ordered query, decode its documents in
     * order, read the counter (missing: ErrCounterNotFound) and derive the
     * page metadata.
     */
    method ReadTickets(filter: Filter) returns (r: Result<Page, Error>)
      ensures CursorMissing(tickets, filter.after) || CursorMissing(tickets, filter.before) ==>
                r == Failure(TicketNotFound)
      ensures !CursorMissing(tickets, filter.after) && !CursorMissing(tickets, filter.before) ==>
                if filter.limit < 0 then r == Failure(StatusInvalidArgument)
                else if counter.None? then r == Failure(CounterNotFound)
                else
                  var ids := PageIds(tickets, filter).value;
                  && r.Success?
                  && |r.value.tickets| == |ids|
                  && (forall i | 0 <= i < |ids| ::
                        ids[i] in tickets && r.value.tickets[i] == ReadBack(ids[i], tickets[ids[i]]))
                  && r.value.metadata == PageMetadata(r.value.tickets, counter.value)
    {
      IdStringInjective(filter.after, NilId);
      IdStringInjective(filter.before, NilId);
      if IdString(filter.after) != IdString(NilId) && filter.after !in tickets {
        return Failure(TicketNotFound);
      }
      if IdString(filter.before) != IdString(NilId) && filter.before !in tickets {
        return Failure(TicketNotFound);
      }
      if filter.limit < 0 {
        return Failure(StatusInvalidArgument);
      }
      var docs := CursorWindow(Ordered(tickets), filter);
      QueryIsPage(tickets, filter);
      var tt := DecodeAll(tickets, docs);
      if counter.None? {
        return Failure(CounterNotFound);
      }
      return Success(Page(tt, PageMetadata(tt, counter.value)));
    }
  }
}
