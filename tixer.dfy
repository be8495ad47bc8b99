/**
 * The domain model of the tickets service (ticket.go): the Ticket entity,
 * the Filter and Metadata values of a paged listing, the errors the store
 * and the domain report, and the field validators.
 */
module Tixer {
  import opened TicketIds

  /** Titles are Go strings; `len` counts their bytes. */
  type Byte = b: int | 0 <= b < 256

  /** A server timestamp, as an abstract clock reading. */
  type Time = int

  /** Go's zero `time.Time`: what `DateUpdated` holds until the first update. */
  const ZeroTime: Time := 0

  datatype Ticket = Ticket(id: TicketID, title: seq<Byte>, price: real, dateCreated: Time, dateUpdated: Time)

  /** Query input of a paged listing; the nil ID means "no cursor". */
  datatype Filter = Filter(before: TicketID, after: TicketID, limit: int)

  /** Boundary cursors of the page just returned, and the counter's total. */
  datatype Metadata = Metadata(before: TicketID, after: TicketID, total: int)

  /** What the store reports. TicketNotFound and CounterNotFound are the
      service's own error values; the others are the Firestore status codes
      it passes through unchanged. */
  datatype Error =
    | TicketNotFound    // tixer.ErrTicketNotFound
    | CounterNotFound   // gcfirestore.ErrCounterNotFound
    | StatusAlreadyExists
    | StatusNotFound
    | StatusInvalidArgument

  /** One failed `vld.Check`: the field key and its message. */
  datatype FieldError = FieldError(key: string, message: string)

  const MaxTitleLength := 50
  const MaxPrice: real := 100000.0

  /** `vld.Check`: a failed condition yields one error under `key`, a passed one none. */
  function Check(ok: bool, key: string, message: string): (errs: seq<FieldError>)
    ensures errs == [] <==> ok
    ensures |errs| <= 1 && forall e | e in errs :: e == FieldError(key, message)
  {
    if ok then [] else [FieldError(key, message)]
  }

  /** Some failed check is reported under `key`. */
  predicate Flags(errs: seq<FieldError>, key: string)
  {
    exists i | 0 <= i < |errs| :: errs[i].key == key
  }

  /** Errors of two checks run one after the other flag what either flags. */
  lemma FlagsAppend(a: seq<FieldError>, b: seq<FieldError>, key: string)
    ensures Flags(a + b, key) <==> Flags(a, key) || Flags(b, key)
  {
    if Flags(a, key) {
      var i :| 0 <= i < |a| && a[i].key == key;
      assert (a + b)[i] == a[i];
    }
    if Flags(b, key) {
      var i :| 0 <= i < |b| && b[i].key == key;
      assert (a + b)[|a| + i] == b[i];
    }
  }

  /** Errors all under key `k` flag `k` exactly when there is one, and no other key. */
  lemma FlagsOf(errs: seq<FieldError>, k: string, key: string)
    requires forall i | 0 <= i < |errs| :: errs[i].key == k
    ensures Flags(errs, key) <==> errs != [] && key == k
  {
    if errs != [] && key == k {
      assert errs[0].key == key;
    }
  }

  /** `Ticket.ValidateTitle`: the failed checks among "present" and "at most 50 bytes". */
  function ValidateTitle(t: Ticket): (errs: seq<FieldError>)
    ensures errs == [] <==> 0 < |t.title| <= MaxTitleLength
    ensures |errs| <= 1
    ensures forall i | 0 <= i < |errs| :: errs[i].key == "title"
  {
    Check(t.title != [], "title", "must be provided") +
    Check(|t.title| <= MaxTitleLength, "title", "must not be longer than 50 characters")
  }

  /** `Ticket.ValidatPrice` (the source's spelling): the open-closed range (0, 100000]. */
  function ValidatPrice(t: Ticket): (errs: seq<FieldError>)
    ensures errs == [] <==> 0.0 < t.price <= MaxPrice
    ensures forall i | 0 <= i < |errs| :: errs[i].key == "price"
  {
    Check(t.price > 0.0 && t.price <= MaxPrice, "price", "must be in the range [0, 100 000]")
  }

  /** `Ticket.Validate`: runs both validators and reports every failed field. */
  function Validate(t: Ticket): (errs: seq<FieldError>)
    ensures errs == [] <==> 0 < |t.title| <= MaxTitleLength && 0.0 < t.price <= MaxPrice
    ensures Flags(errs, "title") <==> !(0 < |t.title| <= MaxTitleLength)
    ensures Flags(errs, "price") <==> !(0.0 < t.price <= MaxPrice)
  {
    var title, price := ValidateTitle(t), ValidatPrice(t);
    assert Flags(title + price, "title") <==> title != [] by {
      if title != [] {
        assert (title + price)[0] == title[0];
      }
    }
    assert Flags(title + price, "price") <==> price != [] by {
      if price != [] {
        assert (title + price)[|title|] == price[0];
      }
    }
    title + price
  }

  /** The range message says "[0, 100 000]", but 0 is rejected and 100 000 accepted. */
  lemma PriceBounds(t: Ticket)
    ensures t.price == 0.0 ==> ValidatPrice(t) != []
    ensures t.price == MaxPrice ==> ValidatPrice(t) == []
  {
  }

  /** Validation looks only at the title and the price. */
  lemma ValidateReadsTitleAndPrice(t: Ticket, u: Ticket)
    requires t.title == u.title && t.price == u.price
    ensures Validate(t) == Validate(u)
  {
  }

  /** A ticket that passes validation carries neither update sentinel ("" and 0). */
  lemma ValidFieldsAreNotSentinels(t: Ticket)
    ensures ValidateTitle(t) == [] ==> t.title != []
    ensures ValidatPrice(t) == [] ==> t.price != 0.0
  {
  }
}
