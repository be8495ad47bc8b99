# tixer-tickets in Dafny

A model of the tickets service of `tixer-tickets`. The service keeps tickets
(ID, title, price, creation and update timestamps) in one Firestore
collection. The same collection holds a counter document whose
`totalTickets` field is meant to equal the number of stored tickets. The
model covers:

- the domain validators (`ticket.go`);
- the Firestore store `Storer` (`gcfirestore/ticket.go`). Its transactions
  pair each ticket write with a counter write. Its paged query lists tickets
  newest first, with start-after and end-before cursors and a limit;
- the decisions of the HTTP handlers (`http/ticket.go`). These decide which
  requests reach the store, how an optional-field update becomes a Ticket,
  and how results and errors become responses.

Files and modules:

- `wrappers.dfy` (`Wrappers`): `Option` and `Result`.
- `ticket_id.dfy` (`TicketIds`): a UUID is a number below 2^128. It covers:
  - its canonical 36-character text form (`TicketID.String`);
  - the parse `uuid.MustParse` applies to a document name;
  - the nil UUID, which the service uses as "no cursor".
- `tixer.dfy` (`Tixer`): `Ticket`, `Filter`, `Metadata`, the errors, and
  `Validate`, `ValidateTitle` and `ValidatPrice`. A title is a byte
  sequence, because Go's `len` counts bytes.
- `documents.dfy` (`Documents`): the stored document, `persistedTicket`,
  `docToPersistedTicket` and `toDomainTicket`. It also has the field updates
  of `UpdateTicket` and their effect.
- `paging.dfy` (`Paging`): the order of the listing query, the page a filter
  selects, the page metadata, and traversal by `After` cursors.
- `storer.dfy` (`Gcfirestore`): the class `Storer`. Its fields are the
  ticket map, the optional counter and a server clock. It has the five store
  operations.
- `http_ticket.dfy` (`TicketsHttp`): the handlers' decision logic and the
  response mappers.

Modelling decisions:

- **Store state.** `Storer.tickets` maps each ID to the stored fields of its
  document. The map is keyed by ID, so a document does not repeat the ID.
- **Counter.** `Storer.counter` is `totalTickets`. It is `None` while the
  counter document is missing.
- **Clock.** `Storer.clock` is the server timestamp the next commit
  receives. Every commit that writes a server timestamp (create and
  update) advances it by one. A delete writes no timestamp and leaves it
  alone.
- **Transactions.** A transaction is one atomic step. It commits all its
  writes or fails with the store unchanged. `Storer.Consistent()` is the
  counter invariant `counter == Some(|tickets|)`.
- **Listing order.** The query orders by `dateCreated`, newest first. Ties
  are broken by document name, descending. The document store breaks ties
  on the name in the direction of the last `OrderBy`, and a ticket's
  document name is the text form of its ID. Numeric order of IDs is the
  byte-wise order of those names (`TicketIds.IdOrderIsNameOrder`). The
  store's clock never stamps two creations alike (`Storer.Valid`), so the
  tie-break never decides anything for tickets this store created
  (`Paging.ListedByCreation`).
- **The counter document is not in the listing.** It has no `dateCreated`
  field, and an `OrderBy("dateCreated")` query skips documents without
  that field. Its name is `--counter--` by default (the
  `firestore-stats-doc-ID` flag); `NewStorer` takes it as a parameter. That
  default is never the text of a ticket ID
  (`Gcfirestore.CounterIsNoTicket`), so no cursor lookup reaches it.
- **Deleting a missing ID.** `DeleteTicket` does not check that the ticket
  exists. Whether `tx.Delete` of a missing document fails is up to the
  document store, so the model takes that outcome as the parameter
  `rejectMissing`. If the delete is rejected, the call fails with the
  store's NotFound status, not with `ErrTicketNotFound`, and changes
  nothing. If it is accepted, the counter is still decremented and falls
  one below the number of tickets. Both cases are in the contract of
  `Storer.DeleteTicket`.
- **The nil UUID.** It means "no cursor", so a ticket stored under it
  would break paging (`Paging.NilTicketRestartsPaging`). The handlers never
  store one: `uuid.New` makes version-4 UUIDs, which are never nil
  (`TicketIds.Version4IsNotNil`, `TicketsHttp.HandleCreateTicket`).
- **Validation messages.** The range in the messages of `ValidatPrice` and
  `validateReadTickets` is wrong at one end. A price of 0 and a limit of 0
  are rejected, though the messages say "[0, 100 000]" and "[0, 50]"
  (`Tixer.PriceBounds`, `TicketsHttp.ValidateReadTickets`).

## Model

| member | source | states |
|---|---|---|
| TicketIds.IdString | ticket.go:70-72 | The text form of an ID is canonical: 36 characters, lower-case hex digits with dashes at positions 8, 13, 18 and 23. |
| TicketIds.IdStringShape | ticket.go:70-72 | The text form of an ID is canonical: 36 characters, lower-case hex digits with dashes at positions 8, 13, 18 and 23. Its digits are the 32 hex digits of the ID. |
| TicketIds.ParseId | gcfirestore/ticket.go:241 | The parse succeeds exactly on canonical UUID text. |
| TicketIds.IdStringRoundTrip | ticket.go:70-72 | Parsing the text form of an ID gives the ID back. |
| TicketIds.ParseIdInverse | gcfirestore/ticket.go:241 | Every text that parses is the text form of the ID it parses to. |
| TicketIds.IdStringInjective | gcfirestore/ticket.go:130 | Two IDs have equal text forms exactly when they are equal. So the store's `String() != uuid.Nil.String()` test is the test "cursor is not nil". |
| TicketIds.NilIdString | gcfirestore/ticket.go:142 | The nil UUID prints as 32 zero digits with the four dashes. |
| TicketIds.Version4IsNotNil | ticket.go:66-68 | An ID `uuid.New` generates, with version digit 4, is never the nil UUID. |
| TicketIds.HexDigitsOrder | gcfirestore/ticket.go:128 | For numbers of n hex digits, numeric order is the byte-wise order of their digit strings. |
| TicketIds.IdOrderIsNameOrder | gcfirestore/ticket.go:128 | One ID is smaller than another exactly when its text form, the document name, comes first in byte-wise order. |
| TicketIds.HexValueOfDigits | ticket.go:70-72 | Reading back the n hex digits of a number below 16^n gives the number. |
| TicketIds.DigitsOfHexValue | gcfirestore/ticket.go:241 | Writing out the value of a hex digit string gives the string. |
| Tixer.Check | ticket.go:44-49 | `vld.Check` records no error when the condition holds, and otherwise exactly one error under the given key and message. |
| Tixer.ValidateTitle | ticket.go:57-60 | "title" fails exactly when the title is empty or longer than 50 bytes. At most one title error is reported, so no title fails both checks. Every error has the key "title". |
| Tixer.ValidatPrice | ticket.go:62-64 | "price" passes exactly when 0 < price <= 100000. Every error has the key "price". |
| Tixer.Validate | ticket.go:52-55 | Runs both validators. It passes exactly when both pass, and it flags "title" and "price" each exactly when that field is invalid. |
| Tixer.PriceBounds | ticket.go:63 | A price of 0 is rejected and 100000 is accepted, despite the "[0, 100 000]" message. |
| Tixer.ValidateReadsTitleAndPrice | ticket.go:52-64 | Tickets that agree on title and price get the same validation result. ID and timestamps do not matter. |
| Tixer.ValidFieldsAreNotSentinels | ticket.go:57-64 | A title that passes is not "", and a price that passes is not 0. These are the store's "absent" markers. |
| Documents.DocToPersistedTicket | gcfirestore/ticket.go:249-257 | The persisted ticket carries the document's name as its ID and the decoded fields unchanged. |
| Documents.ToDomainTicket | gcfirestore/ticket.go:239-247 | The domain ticket carries the document's fields. Its ID is the one whose text is the document name. |
| Documents.ReadBack | gcfirestore/ticket.go:208-213 | Decoding document `id` yields the ticket with that ID and exactly the stored fields. |
| Documents.ApplyUpdates | gcfirestore/ticket.go:98 | A list of field updates never changes `dateCreated`. |
| Documents.ApplyUpdatesSnoc | gcfirestore/ticket.go:82-98 | Appending an update to the list applies it after the others. |
| Documents.Written | gcfirestore/ticket.go:82-98 | The document after an update keeps `dateCreated` and has `dateUpdated` now. A non-empty title and a non-zero price replace the stored ones. An empty title or a zero price keeps them. |
| Paging.LaterWithout | gcfirestore/ticket.go:128 | Removing a ticket does not change how the other tickets are ordered. |
| Paging.NewestWith | gcfirestore/ticket.go:128 | Adding a ticket to a collection keeps the newest ticket, unless the added one is newer. |
| Paging.NewestExists | gcfirestore/ticket.go:128 | Every non-empty collection has a ticket that comes before all others. |
| Paging.PrependNewest | gcfirestore/ticket.go:128 | The newest ticket, followed by a listing of the rest, is in order. |
| Paging.NewestIsFirst | gcfirestore/ticket.go:128 | `Newest` picks the ticket that comes before all others. |
| Paging.Ordered | gcfirestore/ticket.go:128 | The computed order lists only stored tickets, and is empty exactly for an empty collection. |
| Paging.OrderedIsListed | gcfirestore/ticket.go:128 | The computed listing is strictly in query order: dateCreated descending, ties by ID descending. |
| Paging.OrderedListsEveryTicket | gcfirestore/ticket.go:128 | The computed listing holds exactly the stored tickets. |
| Paging.ListingHead | gcfirestore/ticket.go:128 | Any listing starts with the newest ticket and continues with a listing of the rest. |
| Paging.ListingUnique | gcfirestore/ticket.go:128 | There is only one listing of a collection. |
| Paging.OrderedIsListing | gcfirestore/ticket.go:128 | The computed order is that listing. |
| Paging.CreatedHeadsListing | gcfirestore/ticket.go:42-45 | A ticket created after all stored ones heads the listing. The older tickets follow it in their old order. |
| Paging.RewriteKeepsListing | gcfirestore/ticket.go:82-98 | Rewriting a document without touching `dateCreated` moves no ticket in the listing. |
| Paging.ListedByCreation | gcfirestore/ticket.go:128 | With distinct creation times, the listing is strictly newest first by `dateCreated` alone. |
| Paging.PositionOrder | gcfirestore/ticket.go:128 | In a listing, an earlier position means coming first in the order, and the converse holds. |
| Paging.IndexOfAt | gcfirestore/ticket.go:140 | The position of a listed ticket is where it stands. |
| Paging.StartAfter | gcfirestore/ticket.go:130-140 | A page starts at 0 unless the `After` cursor is set and listed. Then it starts just past that cursor's position. |
| Paging.EndBefore | gcfirestore/ticket.go:142-152 | A page ends at the end of the listing unless the `Before` cursor is set and listed. Then it ends at that cursor's position. |
| Paging.Window | gcfirestore/ticket.go:128 | A window is a contiguous run of the listing starting at `start`. It holds at most `limit` entries. It is empty when `stop <= start`, and otherwise holds min(stop - start, limit). |
| Paging.CursorWindow | gcfirestore/ticket.go:128-155 | The query's result holds at most `Limit` IDs, and lies between the start after `After` and the end at `Before`. |
| Paging.CursorWindowSlice | gcfirestore/ticket.go:128-153 | A cursor window is the run just after the `After` entry, of at most `Limit` entries. |
| Paging.WindowWithinCursors | gcfirestore/ticket.go:128-153 | Every entry of a window is stored, after the `After` cursor and before the `Before` cursor. |
| Paging.BetweenCursors | gcfirestore/ticket.go:140-152 | A ticket between the two cursors in the order lies between their positions. |
| Paging.WindowComplete | gcfirestore/ticket.go:128-153 | A window leaves out a ticket between the cursors only when it is full and every entry comes before that ticket. |
| Paging.PageIds | gcfirestore/ticket.go:130-153 | The page fails exactly when a set cursor names no stored ticket, and then with ErrTicketNotFound. |
| Paging.PageIsSlice | gcfirestore/ticket.go:128-153 | A page is the contiguous run of the listing that starts right after the `After` ticket. It holds at most `Limit` tickets. |
| Paging.PageWithinCursors | gcfirestore/ticket.go:140-152 | Every ticket of a page is stored, comes after the `After` ticket and comes before the `Before` ticket. |
| Paging.PageComplete | gcfirestore/ticket.go:128-153 | A stored ticket between the cursors is on the page, unless the page is full of tickets that come before it. |
| Paging.PageMetadata | gcfirestore/ticket.go:184-194 | `Before` is the first ticket's ID and `After` the last one's. Both are the nil ID for an empty page. `Total` is the counter. |
| Paging.ListedIsDistinct | gcfirestore/ticket.go:128 | No ticket appears twice in a listing. |
| Paging.NextCursor | gcfirestore/ticket.go:184-194 | The page after a cursor is empty exactly at the end of the listing. Otherwise its last ID, used as the next `After`, starts the next page right after it. |
| Paging.WindowFromCursor | gcfirestore/ticket.go:140 | A window with only an `After` cursor is the start of the rest of the listing. |
| Paging.StartAfterEntry | gcfirestore/ticket.go:140 | Starting after a listed ticket starts at the next position. |
| Paging.PagesFrom | gcfirestore/ticket.go:184-194 | Following `After` cursors page by page from a cursor yields exactly the rest of the listing after it. |
| Paging.TraversalVisitsEachTicketOnce | gcfirestore/ticket.go:127-195 | With no ticket under the nil UUID, a traversal that starts without a cursor begins with the first page and yields every stored ticket exactly once, in order. |
| Paging.EmptyListing | gcfirestore/ticket.go:128 | An empty collection lists nothing. |
| Paging.ThreeTicketListing | gcfirestore/ticket.go:128 | Tickets A, B and C created in that order are listed C, B, A. |
| Paging.ThreeTicketPages | gcfirestore/ticket.go:128-153 | Paged two at a time, the first page is [C, B] and the page after B is [A]. |
| Paging.NilTicketRestartsPaging | gcfirestore/ticket.go:130 | With a newer ticket X and an older one under the nil UUID, paged one at a time, the first page is [X] and the page after X is [nil]. That page's `After` is nil, which reads as "no cursor", so the next request gets the first page again. |
| Gcfirestore.CounterIsNoTicket | cmd/ticketsd/main.go:113 | The counter document's name is never the text of a ticket ID. |
| Gcfirestore.QueryIsPage | gcfirestore/ticket.go:128-155 | The ordered query with its cursors and limit returns the page's IDs, all of them stored. |
| Gcfirestore.RewriteStamped | gcfirestore/ticket.go:82-84 | A rewrite stamped with the current time that keeps `dateCreated` keeps every document's timestamps valid. |
| Gcfirestore.InsertStamped | gcfirestore/ticket.go:231-236 | A document created with the current time keeps the timestamps valid, and it is newer than every stored ticket. |
| Gcfirestore.RemoveCount | gcfirestore/ticket.go:112 | Deleting a document shrinks the collection by one exactly when the document was there. |
| Gcfirestore.RemoveStamped | gcfirestore/ticket.go:112 | Deleting a document keeps the timestamps valid. |
| Gcfirestore.DecodeAll | gcfirestore/ticket.go:160-168 | The loop decodes each document of the query, in order, into the ticket `ReadBack` describes. |
| Gcfirestore.Storer.constructor | gcfirestore/ticket.go:25-31 | An empty collection, with the given counter. With a counter of 0 it is consistent. |
| Gcfirestore.Storer.CreateTicket | gcfirestore/ticket.go:37-58 | An existing ID fails with AlreadyExists. A missing counter fails with NotFound. A failure changes nothing. On success, the store holds the title and price with `dateCreated` now and no `dateUpdated`. The counter grows by exactly 1, and the new ticket heads the listing. Consistency is preserved. |
| Gcfirestore.Storer.ReadTicket | gcfirestore/ticket.go:197-214 | Succeeds exactly when the ID is stored, with the ID and the stored fields. Otherwise it fails with ErrTicketNotFound. |
| Gcfirestore.Storer.UpdateTicket | gcfirestore/ticket.go:69-105 | A missing ID gives ErrTicketNotFound and changes nothing. Otherwise the call sets `dateUpdated` to now. It replaces the title only by a non-empty title and the price only by a non-zero price. `dateCreated`, the other tickets, the counter and the listing order are unchanged. It returns the ticket as stored. |
| Gcfirestore.Storer.DeleteTicket | gcfirestore/ticket.go:107-125 | Fails, changing nothing, when the counter is missing or the store rejects deleting a missing document. Otherwise it removes the ticket and decrements the counter. Consistency is kept for a stored ID and lost by one for a missing one. |
| Gcfirestore.Storer.ReadTickets | gcfirestore/ticket.go:127-195 | A missing set cursor gives ErrTicketNotFound. A negative limit makes the query fail. A missing counter gives ErrCounterNotFound. Otherwise the result is the decoded tickets of `PageIds`, in order, with `PageMetadata` over the counter. |
| TicketsHttp.ValidateReadTickets | http/ticket.go:245-247 | The limit passes exactly when 0 < limit <= 50, under the key "limit" and with the source's message. |
| TicketsHttp.QueryFilter | http/ticket.go:170-183 | An absent cursor is the nil UUID and an absent limit is 10. Supplied values are passed on. |
| TicketsHttp.DefaultQueryReadsFirstPage | http/ticket.go:170-183 | A list request without parameters passes validation and reads the first ten tickets of the listing: the nil cursors bound nothing. |
| TicketsHttp.MapTicketToResponse | http/ticket.go:249-255 | The response's ID text parses back to the ticket's ID. Title and price are copied. |
| TicketsHttp.MapTicketListToResponse | http/ticket.go:257-264 | Keeps length and order. Element i is the mapping of ticket i. |
| TicketsHttp.MapMetadataToResponse | http/ticket.go:266-272 | Both cursor texts parse back to the cursors. The total is copied. |
| TicketsHttp.ErrorResponse | http/ticket.go:71-76 | ErrTicketNotFound gives a not-found response, and every other error a server error. |
| TicketsHttp.BuildUpdate | http/ticket.go:102-120 | An absent field stays "" or 0, and a supplied one is set. The request fails validation exactly when a supplied field is invalid. Every error concerns a supplied field, and a field is flagged exactly when it was supplied and fails its check. |
| TicketsHttp.ValidatedUpdateWritesSupplied | http/ticket.go:107-120 | For a validated request, the store writes exactly the supplied fields and keeps the others. |
| TicketsHttp.SentinelsAreDropped | gcfirestore/ticket.go:85-96 | An empty title or zero price reaching the store is read as "absent" and dropped. |
| TicketsHttp.HandleCreateTicket | http/ticket.go:27-60 | An invalid ticket gets the validation errors and the store is not touched. A missing counter gives a server error. Otherwise the fresh ticket is stored, stamped with the clock, which advances by one; the counter grows by 1 and the response is 201 with the ticket. Consistency is preserved, and no ticket is ever stored under the nil UUID. |
| TicketsHttp.HandleReadTicket | http/ticket.go:62-86 | A missing ID gives not-found. Otherwise the response is the stored ticket's ID, title and price. |
| TicketsHttp.HandleUpdateTicket | http/ticket.go:88-138 | An invalid request fails validation without touching the store, flagging exactly the supplied fields that fail their checks. A missing ID gives not-found. Otherwise the stored ticket gets exactly the supplied fields and `dateUpdated`, the clock advances by one, and the response shows the ticket as stored. The counter never changes. |
| TicketsHttp.HandleDeleteTicket | http/ticket.go:140-163 | Either "ticket succesfully deleted" or a server error with the store unchanged. Never not-found, since the store never reports ErrTicketNotFound for a delete. On success the ticket is gone and the counter is one less. The clock never changes. Consistency is kept when the ID was stored. |
| TicketsHttp.HandleReadTickets | http/ticket.go:165-199 | A bad limit fails validation. Every store error, a missing cursor included, gives a server error. Otherwise the response maps the page's tickets in order. Pagination holds the first and last page IDs as text (nil when empty) and the counter. |

## Left out

- JSON and HTTP plumbing is not modelled: request decoding, path and query parameter parsing, the router, headers, the `Location` value and response writing. The handlers take the decoded values, with `None` for an absent field. A failed `WriteJSON` after a successful store call is not modelled.
- Malformed path or query parameters are not modelled. `web.ReadIDParam`, `web.ReadUUID` and `web.ReadInt` report them, and their package is not part of this model.
- cmd/ticketsd/main.go, http/server.go and http/healthcheck.go are process wiring and server lifecycle. Only the counter document's name is taken from main.go.
- Concurrency is not modelled: `RunTransaction` retries on contention and cancellation through `ctx`. Each transaction is one atomic step.
- Staleness under concurrent writers is not modelled: the read after an update's commit, and the counter read after the page query. Calls are sequential here.
- Transport errors and errors of the document store other than NotFound, AlreadyExists and InvalidArgument are not modelled.
- Decoding failures of `doc.DataTo` (`docToPersistedTicket`, `docToPersistedCounter`) are not modelled. Stored documents always decode.
- Documents.ToDomainTicket: requires a canonical UUID name. `uuid.MustParse` panics on a name that is not a UUID. Every document this store writes has such a name.
- TicketIds.ParseId: accepts only the canonical lower-case form that `String()` writes. The other spellings `uuid.Parse` accepts (upper case, braces, `urn:uuid:` prefix) never occur as document names.
- Prices are exact reals, not float64. Only exact comparisons are made on them.
- Timestamps are an abstract integer clock. Go's zero `time.Time` is 0. Every commit that writes a server timestamp (create and update) is stamped with the clock, which then advances by one.
- The counter and the limit are unbounded integers, not 64-bit `int`.
- TicketsHttp.HandleCreateTicket: `NewTicketID` is the parameter `newId`. Its randomness is the precondition that it names no stored ticket. `uuid.New` is the precondition that it is a version-4 UUID; the variant bits are not modelled.
- Paging.TraversalVisitsEachTicketOnce: requires that no ticket is stored under the nil UUID. `Storer` itself would store one; only the handlers rule it out. With such a ticket, traversal never ends (`Paging.NilTicketRestartsPaging`).
- Paging.PagesFrom: models the pages of the listing directly. Each page is the window `PageIds` returns for that `After` cursor.
- Gcfirestore.Storer.DeleteTicket: deleting a missing document is a parameter (`rejectMissing`), because that outcome belongs to the document store.
- Gcfirestore.Storer.CreateTicket: reports AlreadyExists when the ID exists and the counter is also missing. The store's choice between the two errors is not visible in the code.
- Gcfirestore.Storer.ReadTickets: a negative `Limit` fails the query. The model reports it as InvalidArgument and places it after the cursor lookups. The only caller passes 1 to 50.
- Gcfirestore.CounterDocId: fixed at the default `--counter--`. A counter name configured in the text form of a UUID is not modelled; a cursor lookup could then reach the counter document.
- TicketsHttp.BuildUpdate and TicketsHttp.HandleUpdateTicket: state that there is at least one validation error, that each concerns a supplied field, and that a field is flagged exactly when it was supplied and fails its check. They do not state the messages, which come from `ValidateTitle` and `ValidatPrice`.
