/**
 * What a ticket document holds in the collection, how it is decoded into a
 * domain Ticket (gcfirestore/ticket.go: persistedTicket, docToPersistedTicket,
 * toDomainTicket), and the field updates `UpdateTicket` writes.
 */
module Documents {
  import opened TicketIds
  import opened Tixer

  /** The stored fields of a ticket document; its name is the ID's text form. */
  datatype Doc = Doc(title: seq<Byte>, price: real, dateCreated: Time, dateUpdated: Time)

  /** `persistedTicket`: the document's fields plus its name. */
  datatype PersistedTicket = PersistedTicket(id: string, title: seq<Byte>, price: real, dateCreated: Time, dateUpdated: Time)

  /** `docToPersistedTicket`: the decoded fields, with `ID` set to the document name. */
  function DocToPersistedTicket(name: string, d: Doc): (p: PersistedTicket)
    ensures p.id == name
    ensures p.title == d.title && p.price == d.price
    ensures p.dateCreated == d.dateCreated && p.dateUpdated == d.dateUpdated
  {
    PersistedTicket(name, d.title, d.price, d.dateCreated, d.dateUpdated)
  }

  /** `toDomainTicket`. `uuid.MustParse` panics on a name that is not a UUID. */
  function ToDomainTicket(p: PersistedTicket): (t: Ticket)
    requires ParseId(p.id).Some?
    ensures IdString(t.id) == p.id
    ensures t.title == p.title && t.price == p.price
    ensures t.dateCreated == p.dateCreated && t.dateUpdated == p.dateUpdated
  {
    ParseIdInverse(p.id);
    Ticket(ParseId(p.id).value, p.title, p.price, p.dateCreated, p.dateUpdated)
  }

  /** The ticket a read of document `id` yields: decode, then convert. */
  function ReadBack(id: TicketID, d: Doc): (t: Ticket)
    ensures t == Ticket(id, d.title, d.price, d.dateCreated, d.dateUpdated)
  {
    IdStringRoundTrip(id);
    ToDomainTicket(DocToPersistedTicket(IdString(id), d))
  }

  /** One `firestore.Update` of a ticket document. */
  datatype FieldUpdate =
    | SetDateUpdated(at: Time)   // Path "dateUpdated", Value firestore.ServerTimestamp
    | SetTitle(title: seq<Byte>) // Path "title"
    | SetPrice(price: real)      // Path "price"

  /** One update applied to a document. */
  function ApplyUpdate(d: Doc, u: FieldUpdate): Doc
  {
    match u
    case SetDateUpdated(at) => d.(dateUpdated := at)
    case SetTitle(title) => d.(title := title)
    case SetPrice(price) => d.(price := price)
  }

  /** `tx.Update(ref, updates)`: applies the updates in order. */
  function ApplyUpdates(d: Doc, updates: seq<FieldUpdate>): (r: Doc)
    ensures r.dateCreated == d.dateCreated
    decreases |updates|
  {
    if updates == [] then d else ApplyUpdates(ApplyUpdate(d, updates[0]), updates[1..])
  }

  /** Appending an update to the list applies it after the others. */
  lemma {:induction false} ApplyUpdatesSnoc(d: Doc, updates: seq<FieldUpdate>, u: FieldUpdate)
    ensures ApplyUpdates(d, updates + [u]) == ApplyUpdate(ApplyUpdates(d, updates), u)
    decreases |updates|
  {
    if updates == [] {
      assert ([] + [u])[1..] == [];
    } else {
      assert (updates + [u])[1..] == updates[1..] + [u];
      ApplyUpdatesSnoc(ApplyUpdate(d, updates[0]), updates[1..], u);
    }
  }

  /**
   * The document `UpdateTicket` leaves behind: `dateUpdated` stamped, and the
   * title and the price replaced only by a non-empty title and a non-zero price.
   */
  function Written(d: Doc, t: Ticket, now: Time): (r: Doc)
    ensures r.dateCreated == d.dateCreated && r.dateUpdated == now
    ensures t.title != [] ==> r.title == t.title
    ensures t.title == [] ==> r.title == d.title
    ensures t.price != 0.0 ==> r.price == t.price
    ensures t.price == 0.0 ==> r.price == d.price
  {
    Doc(if t.title != [] then t.title else d.title,
        if t.price != 0.0 then t.price else d.price,
        d.dateCreated, now)
  }
}
