/**
 * The decision logic of the tickets HTTP handlers (http/ticket.go): which
 * request reaches the store, how an update request becomes a Ticket, how
 * store results and errors become responses, and the response mappers.
 * Decoding of JSON bodies, path and query parameters is outside the model:
 * the handlers take the decoded values, with `None` for an absent field.
 */
module TicketsHttp {
  import opened Wrappers
  import opened TicketIds
  import opened Tixer
  import opened Documents
  import opened Paging
  import opened Gcfirestore

  /** `ticketResponse`: what a client sees of a ticket. */
  datatype TicketResponse = TicketResponse(id: string, title: seq<Byte>, price: real)

  /** `metadataResponse`: the page cursors as text, and the total. */
  datatype MetadataResponse = MetadataResponse(after: string, before: string, total: int)

  /** What a handler writes: the status and the envelope's contents. */
  datatype Response =
    | Created(ticket: TicketResponse)                                    // 201 {"ticket": ...}
    | TicketOk(ticket: TicketResponse)                                   // 200 {"ticket": ...}
    | ListOk(tickets: seq<TicketResponse>, pagination: MetadataResponse) // 200 {"tickets": ..., "pagination": ...}
    | MessageOk(message: string)                                         // 200 {"message": ...}
    | NotFound                                                           // web.NotFoundResponse
    | ServerError(cause: Error)                                          // web.ServerErrorResponse
    | FailedValidation(errors: seq<FieldError>)                          // web.FailedValidationResponse

  /** The defaults of an absent `limit` query parameter, and its largest accepted value. */
  const DefaultLimit := 10
  const MaxLimit := 50

  const DeletedMessage := "ticket succesfully deleted"

  /** `validateReadTickets`: accepts exactly the limits 1 to 50, whatever its message says. */
  function ValidateReadTickets(limit: int): (errs: seq<FieldError>)
    ensures errs == [] <==> 0 < limit <= MaxLimit
    ensures forall i | 0 <= i < |errs| :: errs[i] == FieldError("limit", "must be in the interval [0, 50]")
  {
    Check(limit > 0 && limit <= MaxLimit, "limit", "must be in the interval [0, 50]")
  }

  /** The filter of a list request: absent cursors are the nil UUID, an absent limit is 10. */
  function QueryFilter(after: Option<TicketID>, before: Option<TicketID>, limit: Option<int>): (f: Filter)
    ensures after.None? ==> f.after == NilId
    ensures before.None? ==> f.before == NilId
    ensures limit.None? ==> f.limit == DefaultLimit
    ensures after.Some? ==> f.after == after.value
    ensures before.Some? ==> f.before == before.value
    ensures limit.Some? ==> f.limit == limit.value
  {
    Filter(before.GetOr(NilId), after.GetOr(NilId), limit.GetOr(DefaultLimit))
  }

  /**
   * A list request without parameters passes validation and asks for the
   * first ten tickets of the listing: the nil cursors bound nothing.
   */
  lemma DefaultQueryReadsFirstPage(m: Collection)
    ensures var f := QueryFilter(None, None, None);
            && ValidateReadTickets(f.limit) == []
            && PageIds(m, f) == Success(Listing(m)[..Min(|Listing(m)|, DefaultLimit)])
  {
    var f, ord := QueryFilter(None, None, None), Listing(m);
    assert StartAfter(ord, f.after) == 0 && EndBefore(ord, f.before) == |ord|;
    if ord == [] {
      assert CursorWindow(ord, f) == [];
    } else {
      assert CursorWindow(ord, f) == ord[0..Min(|ord|, DefaultLimit)];
    }
  }

  /** `mapTicketToResponse`: the ID as its text form, the title and the price. */
  function MapTicketToResponse(t: Ticket): (r: TicketResponse)
    ensures ParseId(r.id) == Some(t.id)
    ensures r.title == t.title && r.price == t.price
  {
    IdStringRoundTrip(t.id);
    TicketResponse(IdString(t.id), t.title, t.price)
  }

  /** `mapTicketListToResponse`: maps each ticket in order. */
  method MapTicketListToResponse(tickets: seq<Ticket>) returns (slice: seq<TicketResponse>)
    ensures |slice| == |tickets|
    ensures forall i | 0 <= i < |tickets| :: slice[i] == MapTicketToResponse(tickets[i])
  {
    slice := [];
    for i := 0 to |tickets|
      invariant |slice| == i
      invariant forall k | 0 <= k < i :: slice[k] == MapTicketToResponse(tickets[k])
    {
      slice := slice + [MapTicketToResponse(tickets[i])];
    }
  }

  /** `mapMetadataToResponse`: both cursors as their text form, the total unchanged. */
  function MapMetadataToResponse(md: Metadata): (r: MetadataResponse)
    ensures ParseId(r.after) == Some(md.after) && ParseId(r.before) == Some(md.before)
    ensures r.total == md.total
  {
    IdStringRoundTrip(md.after);
    IdStringRoundTrip(md.before);
    MetadataResponse(IdString(md.after), IdString(md.before), md.total)
  }

  /** The read, update and delete handlers: ErrTicketNotFound is a 404, any other error a 500. */
  function ErrorResponse(e: Error): (r: Response)
    ensures r.NotFound? <==> e == TicketNotFound
    ensures !r.NotFound? ==> r == ServerError(e)
  {
    if e == TicketNotFound then NotFound else ServerError(e)
  }

  /**
   * The Ticket `handleUpdateTicket` hands to the store: the path ID, each
   * supplied field set and checked with its own validator, an absent field
   * left at its zero value.
   */
  method BuildUpdate(id: TicketID, title: Option<seq<Byte>>, price: Option<real>)
    returns (tck: Ticket, errs: seq<FieldError>)
    ensures tck == Ticket(id, title.GetOr([]), price.GetOr(0.0), ZeroTime, ZeroTime)
    ensures errs == [] <==> SuppliedValid(title, price)
    ensures forall i | 0 <= i < |errs| ::
              (errs[i].key == "title" && title.Some?) || (errs[i].key == "price" && price.Some?)
    ensures Flags(errs, "title") <==> title.Some? && !(0 < |title.value| <= MaxTitleLength)
    ensures Flags(errs, "price") <==> price.Some? && !(0.0 < price.value <= MaxPrice)
  {
    tck := Ticket(id, [], 0.0, ZeroTime, ZeroTime);
    errs := [];
    if title.Some? {
      tck := tck.(title := title.value);
      var te := ValidateTitle(tck);
      FlagsOf(te, "title", "title");
      FlagsOf(te, "title", "price");
      FlagsAppend(errs, te, "title");
      FlagsAppend(errs, te, "price");
      errs := errs + te;
    }
    if price.Some? {
      tck := tck.(price := price.value);
      var pe := ValidatPrice(tck);
      FlagsOf(pe, "price", "title");
      FlagsOf(pe, "price", "price");
      FlagsAppend(errs, pe, "title");
      FlagsAppend(errs, pe, "price");
      errs := errs + pe;
    }
  }

  /** Every field the client supplied passes its validator. */
  predicate SuppliedValid(title: Option<seq<Byte>>, price: Option<real>)
  {
    (title.Some? ==> 0 < |title.value| <= MaxTitleLength) &&
    (price.Some? ==> 0.0 < price.value <= MaxPrice)
  }

  /**
   * A validated update request never carries a sentinel in a field the
   * client supplied, so the store writes exactly the supplied fields and
   * keeps the others.
   */
  lemma ValidatedUpdateWritesSupplied(d: Doc, id: TicketID, title: Option<seq<Byte>>, price: Option<real>, now: Time)
    requires SuppliedValid(title, price)
    ensures Written(d, Ticket(id, title.GetOr([]), price.GetOr(0.0), ZeroTime, ZeroTime), now)
            == Doc(title.GetOr(d.title), price.GetOr(d.price), d.dateCreated, now)
  {
    var t := Ticket(id, title.GetOr([]), price.GetOr(0.0), ZeroTime, ZeroTime);
    if title.Some? {
      ValidFieldsAreNotSentinels(t);
    }
  }

  /**
   * Without that validation a supplied empty title or zero price would be
   * dropped: the store reads them as "absent".
   */
  lemma SentinelsAreDropped(d: Doc, t: Ticket, now: Time)
    requires t.title == [] && t.price == 0.0
    ensures Written(d, t, now) == d.(dateUpdated := now)
  {
  }

  /**
   * `handleCreateTicket`: a fresh ID, the request's title and price;
   * validation first, and the store is called only for a valid ticket.
   * `newId` is the UUID `NewTicketID` generated with `uuid.New`: a version-4
   * UUID that names no stored ticket. Hence the handlers never store a
   * ticket under the nil UUID, which the paging relies on.
   */
  method HandleCreateTicket(store: Storer, newId: TicketID, title: seq<Byte>, price: real) returns (resp: Response)
    requires store.Valid() && newId !in store.tickets && IsVersion4(newId)
    modifies store
    ensures store.Valid()
    ensures var tck := Ticket(newId, title, price, ZeroTime, ZeroTime);
            if Validate(tck) != [] then resp == FailedValidation(Validate(tck)) && unchanged(store)
            else if old(store.counter).None? then resp == ServerError(StatusNotFound) && unchanged(store)
            else
              && resp == Created(MapTicketToResponse(tck))
              && store.tickets == old(store.tickets)[newId := Doc(title, price, old(store.clock), ZeroTime)]
              && store.counter == Some(old(store.counter).value + 1)
              && store.clock == old(store.clock) + 1
    ensures resp.Created? ==> 0 < |title| <= MaxTitleLength && 0.0 < price <= MaxPrice
    ensures old(store.Consistent()) ==> store.Consistent()
    ensures NilId !in old(store.tickets) ==> NilId !in store.tickets
  {
    Version4IsNotNil(newId);
    var tck := Ticket(newId, title, price, ZeroTime, ZeroTime);
    var errs := Validate(tck);
    if errs != [] {
      return FailedValidation(errs);
    }
    var err := store.CreateTicket(tck);
    if err.Some? {
      return ServerError(err.value);
    }
    return Created(MapTicketToResponse(tck));
  }

  /** `handleReadTicket`. */
  method HandleReadTicket(store: Storer, id: TicketID) returns (resp: Response)
    ensures id !in store.tickets ==> resp == NotFound
    ensures id in store.tickets ==>
              var d := store.tickets[id];
              && resp.TicketOk?
              && ParseId(resp.ticket.id) == Some(id)
              && resp.ticket.title == d.title && resp.ticket.price == d.price
  {
    var r := store.ReadTicket(id);
    if r.Failure? {
      return ErrorResponse(r.error);
    }
    return TicketOk(MapTicketToResponse(r.value));
  }

  /**
   * `handleUpdateTicket`: build and validate the Ticket, then update; the
   * response shows the ticket as stored after the write.
   */
  method HandleUpdateTicket(store: Storer, id: TicketID, title: Option<seq<Byte>>, price: Option<real>)
    returns (resp: Response)
    requires store.Valid()
    modifies store
    ensures store.Valid()
    ensures !SuppliedValid(title, price) ==>
              && resp.FailedValidation? && resp.errors != [] && unchanged(store)
              && (forall i | 0 <= i < |resp.errors| ::
                    (resp.errors[i].key == "title" && title.Some?) || (resp.errors[i].key == "price" && price.Some?))
              && (Flags(resp.errors, "title") <==> title.Some? && !(0 < |title.value| <= MaxTitleLength))
              && (Flags(resp.errors, "price") <==> price.Some? && !(0.0 < price.value <= MaxPrice))
    ensures SuppliedValid(title, price) && id !in old(store.tickets) ==> resp == NotFound && unchanged(store)
    ensures SuppliedValid(title, price) && id in old(store.tickets) ==>
              var d := old(store.tickets)[id];
              var d' := Doc(title.GetOr(d.title), price.GetOr(d.price), d.dateCreated, old(store.clock));
              && store.tickets == old(store.tickets)[id := d']
              && resp == TicketOk(MapTicketToResponse(ReadBack(id, d')))
              && store.clock == old(store.clock) + 1
    ensures store.counter == old(store.counter)
  {
    var tck, errs := BuildUpdate(id, title, price);
    if errs != [] {
      return FailedValidation(errs);
    }
    if id in store.tickets {
      ValidatedUpdateWritesSupplied(store.tickets[id], id, title, price, store.clock);
    }
    var r := store.UpdateTicket(tck);
    if r.Failure? {
      return ErrorResponse(r.error);
    }
    return TicketOk(MapTicketToResponse(r.value));
  }

  /**
   * `handleDeleteTicket`. The store never reports ErrTicketNotFound for a
   * delete, so this handler never answers 404.
   */
  method HandleDeleteTicket(store: Storer, id: TicketID, rejectMissing: bool) returns (resp: Response)
    requires store.Valid()
    modifies store
    ensures store.Valid()
    ensures resp == MessageOk(DeletedMessage) || resp == ServerError(StatusNotFound)
    ensures resp.MessageOk? <==> old(store.counter).Some? && (id in old(store.tickets) || !rejectMissing)
    ensures resp.MessageOk? ==> store.tickets == old(store.tickets) - {id}
    ensures resp.MessageOk? ==> store.counter == Some(old(store.counter).value - 1)
    ensures store.clock == old(store.clock)
    ensures resp.MessageOk? && id in old(store.tickets) && old(store.Consistent()) ==> store.Consistent()
    ensures resp.ServerError? ==> unchanged(store)
  {
    var err := store.DeleteTicket(id, rejectMissing);
    if err.Some? {
      return ErrorResponse(err.value);
    }
    return MessageOk(DeletedMessage);
  }

  /**
   * `handleReadTickets`: validate the limit, read the page, and map any
   * store error (a missing cursor included) to a server error.
   */
  method HandleReadTickets(store: Storer, after: Option<TicketID>, before: Option<TicketID>, limit: Option<int>)
    returns (resp: Response)
    ensures ValidateReadTickets(QueryFilter(after, before, limit).limit) != [] ==>
              resp == FailedValidation(ValidateReadTickets(QueryFilter(after, before, limit).limit))
    ensures var f := QueryFilter(after, before, limit);
            ValidateReadTickets(f.limit) == [] && (CursorMissing(store.tickets, f.after) || CursorMissing(store.tickets, f.before)) ==>
              resp == ServerError(TicketNotFound)
    ensures var f := QueryFilter(after, before, limit);
            ValidateReadTickets(f.limit) == [] && !CursorMissing(store.tickets, f.after) && !CursorMissing(store.tickets, f.before) && store.counter.None? ==>
              resp == ServerError(CounterNotFound)
    ensures var f := QueryFilter(after, before, limit);
            ValidateReadTickets(f.limit) == [] && !CursorMissing(store.tickets, f.after) && !CursorMissing(store.tickets, f.before) && store.counter.Some? ==>
              ShowsPage(resp, store.tickets, PageIds(store.tickets, f).value, store.counter.value)
  {
    var f := QueryFilter(after, before, limit);
    var errs := ValidateReadTickets(f.limit);
    if errs != [] {
      return FailedValidation(errs);
    }
    var r := store.ReadTickets(f);
    if r.Failure? {
      return ServerError(r.error);
    }
    var tickets := MapTicketListToResponse(r.value.tickets);
    resp := ListOk(tickets, MapMetadataToResponse(r.value.metadata));
    ShowsPageOf(store.tickets, PageIds(store.tickets, f).value, r.value.tickets, store.counter.value, resp);
  }

  /**
   * A 200 list response for the page `ids` of `m`: each ticket as stored, in
   * order, the total, and the first and last IDs as the cursors.
   */
  ghost predicate ShowsPage(resp: Response, m: Collection, ids: seq<TicketID>, total: int)
  {
    && resp.ListOk?
    && |resp.tickets| == |ids|
    && (forall i | 0 <= i < |ids| ::
          ids[i] in m && resp.tickets[i] == MapTicketToResponse(ReadBack(ids[i], m[ids[i]])))
    && resp.pagination.total == total
    && resp.pagination.before == IdString(if ids == [] then NilId else ids[0])
    && resp.pagination.after == IdString(if ids == [] then NilId else ids[|ids| - 1])
  }

  /** Mapping the tickets the store read for `ids`, and their metadata, shows that page. */
  lemma ShowsPageOf(m: Collection, ids: seq<TicketID>, tt: seq<Ticket>, total: int, resp: Response)
    requires |tt| == |ids|
    requires forall i | 0 <= i < |ids| :: ids[i] in m && tt[i] == ReadBack(ids[i], m[ids[i]])
    requires resp.ListOk? && |resp.tickets| == |tt|
    requires forall i | 0 <= i < |tt| :: resp.tickets[i] == MapTicketToResponse(tt[i])
    requires resp.pagination == MapMetadataToResponse(PageMetadata(tt, total))
    ensures ShowsPage(resp, m, ids, total)
  {
    if ids != [] {
      assert tt[0].id == ids[0] && tt[|tt| - 1].id == ids[|ids| - 1];
    }
  }
}
