/**
 * Ticket identifiers: 128-bit UUIDs, their canonical text form
 * (`TicketID.String`, ticket.go) and the parse that `toDomainTicket`
 * applies to a document name (gcfirestore/ticket.go).
 */
module TicketIds {
  import opened Wrappers

  function Pow16(n: nat): (r: nat)
    ensures r > 0
  {
    if n == 0 then 1 else 16 * Pow16(n - 1)
  }

  /** A UUID as a number below 16^32 = 2^128. */
  type TicketID = x: nat | x < Pow16(32)

  /** The nil UUID, which the service uses as "no cursor". */
  const NilId: TicketID := 0

  predicate IsLowerHex(c: char)
  {
    '0' <= c <= '9' || 'a' <= c <= 'f'
  }

  predicate AllLowerHex(s: string)
  {
    forall i | 0 <= i < |s| :: IsLowerHex(s[i])
  }

  function HexChar(d: nat): (c: char)
    requires d < 16
    ensures IsLowerHex(c)
  {
    if d < 10 then ('0' as int + d) as char else ('a' as int + d - 10) as char
  }

  function HexDigitValue(c: char): (d: nat)
    requires IsLowerHex(c)
    ensures d < 16 && HexChar(d) == c
  {
    if c <= '9' then c as int - '0' as int else c as int - 'a' as int + 10
  }

  /** The n lowest hexadecimal digits of x, most significant first. */
  function HexDigits(x: nat, n: nat): (s: string)
    ensures |s| == n && AllLowerHex(s)
  {
    if n == 0 then [] else HexDigits(x / 16, n - 1) + [HexChar(x % 16)]
  }

  /** The number a string of hexadecimal digits denotes. */
  function HexValue(s: string): (v: nat)
    requires AllLowerHex(s)
    ensures v < Pow16(|s|)
  {
    if s == [] then 0 else HexValue(s[..|s| - 1]) * 16 + HexDigitValue(s[|s| - 1])
  }

  lemma {:induction false} HexValueOfDigits(x: nat, n: nat)
    requires x < Pow16(n)
    ensures HexValue(HexDigits(x, n)) == x
  {
    if n > 0 {
      var s := HexDigits(x, n);
      assert s[..n - 1] == HexDigits(x / 16, n - 1);
      HexValueOfDigits(x / 16, n - 1);
      assert HexDigitValue(s[n - 1]) == x % 16 by {
        assert HexChar(HexDigitValue(s[n - 1])) == HexChar(x % 16);
        HexCharInjective(HexDigitValue(s[n - 1]), x % 16);
      }
    }
  }

  lemma HexCharInjective(d: nat, e: nat)
    requires d < 16 && e < 16 && HexChar(d) == HexChar(e)
    ensures d == e
  {
  }

  lemma {:induction false} DigitsOfHexValue(s: string)
    requires AllLowerHex(s)
    ensures HexDigits(HexValue(s), |s|) == s
  {
    if s != [] {
      var n := |s|;
      var init := s[..n - 1];
      var v := HexValue(s);
      assert v / 16 == HexValue(init) && v % 16 == HexDigitValue(s[n - 1]);
      DigitsOfHexValue(init);
      assert s == init + [s[n - 1]];
    }
  }

  /** The positions of the four dashes in the 8-4-4-4-12 layout. */
  predicate IsDashPosition(i: int)
  {
    i == 8 || i == 13 || i == 18 || i == 23
  }

  /** The canonical text form: 36 characters, lower-case hex digits and four dashes. */
  predicate IsCanonicalUuid(s: string)
  {
    |s| == 36 &&
    forall i | 0 <= i < 36 :: if IsDashPosition(i) then s[i] == '-' else IsLowerHex(s[i])
  }

  /** Where digit k of the 32 hex digits sits in the 36-character text. */
  function TextPosition(k: nat): (i: nat)
    requires k < 32
    ensures i < 36 && !IsDashPosition(i)
  {
    if k < 8 then k else if k < 12 then k + 1 else if k < 16 then k + 2 else if k < 20 then k + 3 else k + 4
  }

  /** Which of the 32 hex digits sits at a non-dash position of the text. */
  function DigitPosition(i: nat): (k: nat)
    requires i < 36 && !IsDashPosition(i)
    ensures k < 32 && TextPosition(k) == i
  {
    if i < 8 then i else if i < 13 then i - 1 else if i < 18 then i - 2 else if i < 23 then i - 3 else i - 4
  }

  lemma DigitOfText(k: nat)
    requires k < 32
    ensures DigitPosition(TextPosition(k)) == k
  {
  }

  /** The 32 hexadecimal digits of a canonical UUID text, dashes removed. */
  function HexPart(s: string): (h: string)
    requires |s| == 36
    ensures |h| == 32 && forall k | 0 <= k < 32 :: h[k] == s[TextPosition(k)]
  {
    seq(32, k requires 0 <= k < 32 => s[TextPosition(k)])
  }

  /**
   * `uuid.UUID.String`: the 32 lower-case hex digits of the ID written at
   * their positions of the 8-4-4-4-12 layout, dashes in between.
   */
  function IdString(id: TicketID): (s: string)
    ensures IsCanonicalUuid(s)
  {
    var h := HexDigits(id, 32);
    seq(36, i requires 0 <= i < 36 => if IsDashPosition(i) then '-' else h[DigitPosition(i)])
  }

  /** The parse of a document name back to an ID, for the canonical form only. */
  function ParseId(s: string): (r: Option<TicketID>)
    ensures r.Some? <==> IsCanonicalUuid(s)
  {
    if IsCanonicalUuid(s) then Some(HexValue(HexPart(s))) else None
  }

  lemma IdStringShape(id: TicketID)
    ensures IsCanonicalUuid(IdString(id)) && HexPart(IdString(id)) == HexDigits(id, 32)
  {
    var h, s := HexDigits(id, 32), IdString(id);
    forall k | 0 <= k < 32 ensures HexPart(s)[k] == h[k] {
      DigitOfText(k);
    }
  }

  /** String and parse are inverse: every ID survives the round trip through its text form. */
  lemma IdStringRoundTrip(id: TicketID)
    ensures ParseId(IdString(id)) == Some(id)
  {
    IdStringShape(id);
    HexValueOfDigits(id, 32);
  }

  /** ... and every text that parses is the text form of what it parses to. */
  lemma ParseIdInverse(s: string)
    requires ParseId(s).Some?
    ensures IdString(ParseId(s).value) == s
  {
    var h := HexPart(s);
    DigitsOfHexValue(h);
    var t := IdString(ParseId(s).value);
    forall i | 0 <= i < 36 ensures t[i] == s[i] {
      if !IsDashPosition(i) {
        assert t[i] == h[DigitPosition(i)];
      }
    }
  }

  lemma IdStringInjective(a: TicketID, b: TicketID)
    ensures IdString(a) == IdString(b) <==> a == b
  {
    IdStringRoundTrip(a);
    IdStringRoundTrip(b);
  }

  lemma {:induction false} ZeroDigits(n: nat)
    ensures forall i | 0 <= i < n :: HexDigits(0, n)[i] == '0'
  {
    if n > 0 {
      ZeroDigits(n - 1);
    }
  }

  /** The nil UUID prints as 32 zero digits: "00000000-0000-0000-0000-000000000000". */
  lemma NilIdString()
    ensures forall i | 0 <= i < 36 :: IdString(NilId)[i] == if IsDashPosition(i) then '-' else '0'
  {
    ZeroDigits(32);
  }

  /**
   * `uuid.New` draws a random version-4 UUID: the version digit, the first
   * of the third group, is '4' in the text form.
   */
  predicate IsVersion4(id: TicketID)
  {
    IdString(id)[14] == '4'
  }

  /** A generated ID is never the nil UUID, so it never reads as "no cursor". */
  lemma Version4IsNotNil(id: TicketID)
    requires IsVersion4(id)
    ensures id != NilId
  {
    NilIdString();
  }

  /**
   * Byte-wise comparison of two texts of the same length: `s` comes first
   * when at the first position where they differ its character is smaller.
   */
  predicate TextBefore(s: string, t: string)
    requires |s| == |t|
  {
    exists k | 0 <= k < |s| :: s[..k] == t[..k] && s[k] < t[k]
  }

  lemma TextBeforeSnoc(s: string, t: string, c: char, d: char)
    requires |s| == |t|
    ensures TextBefore(s + [c], t + [d]) <==> TextBefore(s, t) || (s == t && c < d)
  {
    var s', t' := s + [c], t + [d];
    if TextBefore(s', t') {
      var k :| 0 <= k < |s'| && s'[..k] == t'[..k] && s'[k] < t'[k];
      if k < |s| {
        assert s[..k] == s'[..k] && t[..k] == t'[..k];
        assert TextBefore(s, t);
      } else {
        assert s == s'[..k] && t == t'[..k];
      }
    }
    if TextBefore(s, t) {
      var k :| 0 <= k < |s| && s[..k] == t[..k] && s[k] < t[k];
      assert s'[..k] == s[..k] && t'[..k] == t[..k];
      assert s'[k] < t'[k];
    }
    if s == t && c < d {
      assert s'[..|s|] == s && t'[..|t|] == t;
    }
  }

  lemma HexCharOrder(d: nat, e: nat)
    requires d < 16 && e < 16
    ensures d < e <==> HexChar(d) < HexChar(e)
  {
  }

  lemma DigitSplit(x: nat, n: nat)
    requires 0 < n && x < Pow16(n)
    ensures x / 16 < Pow16(n - 1)
  {
  }

  lemma DigitSplitOrder(x: nat, y: nat)
    ensures x < y <==> x / 16 < y / 16 || (x / 16 == y / 16 && x % 16 < y % 16)
  {
  }

  lemma HexDigitsInjective(x: nat, y: nat, n: nat)
    requires x < Pow16(n) && y < Pow16(n)
    ensures HexDigits(x, n) == HexDigits(y, n) <==> x == y
  {
    HexValueOfDigits(x, n);
    HexValueOfDigits(y, n);
  }

  /** On n-digit numbers, numeric order and the order of their digit strings agree. */
  lemma {:induction false} HexDigitsOrder(x: nat, y: nat, n: nat)
    requires x < Pow16(n) && y < Pow16(n)
    ensures x < y <==> TextBefore(HexDigits(x, n), HexDigits(y, n))
  {
    if n == 0 {
      assert x == 0 && y == 0;
    } else {
      var qx, rx, qy, ry := x / 16, x % 16, y / 16, y % 16;
      DigitSplit(x, n);
      DigitSplit(y, n);
      var hx, hy := HexDigits(qx, n - 1), HexDigits(qy, n - 1);
      assert HexDigits(x, n) == hx + [HexChar(rx)] && HexDigits(y, n) == hy + [HexChar(ry)];
      HexDigitsOrder(qx, qy, n - 1);
      HexDigitsInjective(qx, qy, n - 1);
      TextBeforeSnoc(hx, hy, HexChar(rx), HexChar(ry));
      HexCharOrder(rx, ry);
      DigitSplitOrder(x, y);
    }
  }

  /** Where the digit strings first differ, the texts first differ too. */
  lemma DigitsBeforeTextBefore(a: TicketID, b: TicketID)
    requires TextBefore(HexDigits(a, 32), HexDigits(b, 32))
    ensures TextBefore(IdString(a), IdString(b))
  {
    var ha, hb := HexDigits(a, 32), HexDigits(b, 32);
    var sa, sb := IdString(a), IdString(b);
    var k :| 0 <= k < 32 && ha[..k] == hb[..k] && ha[k] < hb[k];
    var i := TextPosition(k);
    DigitOfText(k);
    assert sa[i] == ha[k] && sb[i] == hb[k];
    forall j | 0 <= j < i ensures sa[j] == sb[j] {
      if !IsDashPosition(j) {
        assert ha[DigitPosition(j)] == ha[..k][DigitPosition(j)];
      }
    }
    assert sa[..i] == sb[..i];
  }

  /** ... and where the texts first differ, the digit strings first differ. */
  lemma TextBeforeDigitsBefore(a: TicketID, b: TicketID)
    requires TextBefore(IdString(a), IdString(b))
    ensures TextBefore(HexDigits(a, 32), HexDigits(b, 32))
  {
    var ha, hb := HexDigits(a, 32), HexDigits(b, 32);
    var sa, sb := IdString(a), IdString(b);
    var i :| 0 <= i < 36 && sa[..i] == sb[..i] && sa[i] < sb[i];
    assert !IsDashPosition(i);
    var k := DigitPosition(i);
    forall j | 0 <= j < k ensures ha[j] == hb[j] {
      DigitOfText(j);
      assert sa[TextPosition(j)] == sa[..i][TextPosition(j)];
    }
    assert ha[..k] == hb[..k];
    assert ha[k] < hb[k];
  }

  /**
   * Document names compare as their IDs do: the text forms of two IDs, in
   * byte-wise order, come in the order of the IDs as numbers.
   */
  lemma IdOrderIsNameOrder(a: TicketID, b: TicketID)
    ensures a < b <==> TextBefore(IdString(a), IdString(b))
  {
    HexDigitsOrder(a, b, 32);
    if TextBefore(HexDigits(a, 32), HexDigits(b, 32)) {
      DigitsBeforeTextBefore(a, b);
    }
    if TextBefore(IdString(a), IdString(b)) {
      TextBeforeDigitsBefore(a, b);
    }
  }
}
