/** The fixed header of net/RawMessage.hpp: four characters holding the body length in decimal. */
module RawMessages {

  newtype byte = b: int | 0 <= b < 256

  const HEADER_LENGTH: nat := 4
  const MAX_BODY_LENGTH: nat := 512

  const NUL: byte := 0
  const SPACE: byte := 32
  const PLUS: byte := 43
  const MINUS: byte := 45
  const ZERO: byte := 48

  // ---- The C library functions involved ----

  /** What isspace accepts in the C locale. */
  predicate IsSpace(b: byte) {
    b == SPACE || 9 <= b <= 13
  }

  predicate IsDigit(b: byte) {
    ZERO <= b <= 57
  }

  /** A C string: the characters before the first NUL. */
  function CString(s: seq<byte>): (t: seq<byte>)
    ensures NUL !in t && |t| <= |s|
  {
    if s == [] || s[0] == NUL then [] else [s[0]] + CString(s[1..])
  }

  /** The value of the leading digits, continuing from `n`. */
  function DigitsValue(s: seq<byte>, n: nat): (v: nat)
    ensures n <= v
  {
    if s == [] || !IsDigit(s[0]) then n else DigitsValue(s[1..], 10 * n + (s[0] - ZERO) as int)
  }

  /** atoi: optional white space, an optional sign, then digits. */
  function Atoi(s: seq<byte>): int {
    if s == [] then 0
    else if IsSpace(s[0]) then Atoi(s[1..])
    else if s[0] == MINUS then -(DigitsValue(s[1..], 0) as int)
    else if s[0] == PLUS then DigitsValue(s[1..], 0)
    else DigitsValue(s, 0)
  }

  /** The decimal representation. */
  function Decimal(n: nat): (s: seq<byte>)
    ensures 1 <= |s|
  {
    var digit := ZERO + (n % 10) as byte;
    if n < 10 then [digit] else Decimal(n / 10) + [digit]
  }

  /** Padding on the left, as the width of a printf conversion asks. */
  function PadLeft(s: seq<byte>, width: nat): (t: seq<byte>)
    ensures |t| == if |s| < width then width else |s|
    decreases width - |s|
  {
    if width <= |s| then s else PadLeft([SPACE] + s, width)
  }

  // ---- The header ----

  /** sprintf("%4ld") */
  function EncodeHeader(bodyLength: nat): seq<byte> {
    PadLeft(Decimal(bodyLength), HEADER_LENGTH)
  }

  /** What decode_header makes of four bytes: the new length, and whether it is accepted. A negative
      number becomes a huge size_t, and is rejected as too large. */
  function DecodeHeader(header: seq<byte>): (r: (nat, bool))
    ensures r.0 <= 512
  {
    var n := Atoi(CString(header));
    if 0 <= n <= MAX_BODY_LENGTH then (n, true) else (0, false)
  }

  lemma {:induction false} DecimalDigits(n: nat)
    ensures forall i :: 0 <= i < |Decimal(n)| ==> IsDigit(Decimal(n)[i])
  {
    if n >= 10 {
      DecimalDigits(n / 10);
    }
  }

  /** Reading the digits of `n` and then more is reading on from `n`. */
  lemma {:induction false} DecimalFrom(n: nat, rest: seq<byte>)
    ensures DigitsValue(Decimal(n) + rest, 0) == DigitsValue(rest, n)
  {
    var digit := ZERO + (n % 10) as byte;
    if n < 10 {
      assert ([digit] + rest)[1..] == rest;
    } else {
      assert Decimal(n) + rest == Decimal(n / 10) + ([digit] + rest);
      DecimalFrom(n / 10, [digit] + rest);
      assert ([digit] + rest)[1..] == rest;
    }
  }

  lemma {:induction false} PaddingIsSkipped(s: seq<byte>, width: nat)
    ensures Atoi(PadLeft(s, width)) == Atoi(s)
    ensures NUL !in s ==> NUL !in PadLeft(s, width)
    decreases width - |s|
  {
    if |s| < width {
      PaddingIsSkipped([SPACE] + s, width);
      assert ([SPACE] + s)[1..] == s;
    }
  }

  lemma {:induction false} CStringWithoutNul(s: seq<byte>)
    requires NUL !in s
    ensures CString(s) == s
  {
    if s != [] {
      CStringWithoutNul(s[1..]);
    }
  }

  lemma DecimalIsShort(n: nat)
    requires n <= 9999
    ensures |Decimal(n)| <= 4
  {
    assert n < 10 || |Decimal(n)| == |Decimal(n / 10)| + 1;
    assert n < 100 || |Decimal(n / 10)| == |Decimal(n / 10 / 10)| + 1;
    assert n < 1000 || |Decimal(n / 10 / 10)| == |Decimal(n / 10 / 10 / 10)| + 1;
  }

  /** Every length that the class allows survives encoding and decoding, in four bytes. */
  lemma HeaderRoundTrip(n: nat)
    requires n <= 512
    ensures |EncodeHeader(n)| == 4
    ensures DecodeHeader(EncodeHeader(n)) == (n, true)
  {
    var d := Decimal(n);
    DecimalIsShort(n);
    DecimalDigits(n);
    DecimalFrom(n, []);
    assert d + [] == d;
    assert IsDigit(d[0]);
    PaddingIsSkipped(d, HEADER_LENGTH);
    CStringWithoutNul(EncodeHeader(n));
  }

  /** Decoding accepts exactly the bytes that spell a length up to 512; the length it leaves is never
      larger than that. */
  lemma DecodeAccepts(header: seq<byte>)
    ensures DecodeHeader(header).1 <==> 0 <= Atoi(CString(header)) <= MAX_BODY_LENGTH
    ensures DecodeHeader(header).1 ==> DecodeHeader(EncodeHeader(DecodeHeader(header).0)) == DecodeHeader(header)
    ensures !DecodeHeader(header).1 ==> DecodeHeader(header).0 == 0
  {
    HeaderRoundTrip(DecodeHeader(header).0);
  }

  predicate AllSpaces(s: seq<byte>) {
    forall i :: 0 <= i < |s| ==> s[i] == SPACE
  }

  /** Digits that spell `n`, without leading zeros. */
  predicate Spells(s: seq<byte>, n: nat) {
    && s != [] && (forall i :: 0 <= i < |s| ==> IsDigit(s[i]))
    && DigitsValue(s, 0) == n && (s[0] == ZERO ==> n == 0)
  }

  lemma {:induction false} DecimalSpells(n: nat)
    ensures Spells(Decimal(n), n)
  {
    DecimalDigits(n);
    DecimalFrom(n, []);
    assert Decimal(n) + [] == Decimal(n);
    LeadingDigit(n);
  }

  lemma {:induction false} LeadingDigit(n: nat)
    ensures Decimal(n)[0] == ZERO ==> n == 0
  {
    if n >= 10 {
      LeadingDigit(n / 10);
    }
  }

  lemma {:induction false} PaddingIsSpaces(s: seq<byte>, width: nat) returns (k: nat)
    ensures k <= |PadLeft(s, width)| && AllSpaces(PadLeft(s, width)[..k]) && PadLeft(s, width)[k..] == s
    decreases width - |s|
  {
    if width <= |s| {
      k := 0;
    } else {
      var j := PaddingIsSpaces([SPACE] + s, width);
      var padded := PadLeft(s, width);
      k := j + 1;
      assert padded[j..] == [SPACE] + s;
      assert padded[j] == SPACE;
      assert padded[k..] == padded[j..][1..];
    }
  }

  /** The header is right-aligned: spaces, then the length in digits up to the end. */
  lemma HeaderIsRightAligned(n: nat) returns (k: nat)
    requires n <= MAX_BODY_LENGTH
    ensures k <= |EncodeHeader(n)| == HEADER_LENGTH
    ensures AllSpaces(EncodeHeader(n)[..k]) && Spells(EncodeHeader(n)[k..], n)
  {
    HeaderRoundTrip(n);
    DecimalSpells(n);
    k := PaddingIsSpaces(Decimal(n), HEADER_LENGTH);
  }

  lemma {:induction false} SpaceIsSkipped(space: seq<byte>, s: seq<byte>)
    requires forall i :: 0 <= i < |space| ==> IsSpace(space[i])
    ensures Atoi(space + s) == Atoi(s)
  {
    if space == [] {
      assert space + s == s;
    } else {
      assert (space + s)[1..] == space[1..] + s;
      SpaceIsSkipped(space[1..], s);
    }
  }

  /** What atoi reads: white space, perhaps a sign, a number, and anything that does not go on with a
      digit; and nothing but zero where there is no digit. */
  lemma AtoiReads(space: seq<byte>, n: nat, rest: seq<byte>)
    requires forall i :: 0 <= i < |space| ==> IsSpace(space[i])
    requires rest == [] || !IsDigit(rest[0])
    ensures var digits := Decimal(n) + rest;
            && Atoi(space + digits) == n && Atoi(space + ([PLUS] + digits)) == n
            && Atoi(space + ([MINUS] + digits)) == -(n as int)
    ensures rest == [] || (!IsSpace(rest[0]) && rest[0] != PLUS && rest[0] != MINUS) ==> Atoi(space + rest) == 0
  {
    var digits := Decimal(n) + rest;
    NumberIsRead(n, rest);
    SpaceIsSkipped(space, digits);
    SpaceIsSkipped(space, [PLUS] + digits);
    SpaceIsSkipped(space, [MINUS] + digits);
    SpaceIsSkipped(space, rest);
  }

  lemma NumberIsRead(n: nat, rest: seq<byte>)
    requires rest == [] || !IsDigit(rest[0])
    ensures var digits := Decimal(n) + rest;
            Atoi(digits) == n && Atoi([PLUS] + digits) == n && Atoi([MINUS] + digits) == -(n as int)
  {
    var digits := Decimal(n) + rest;
    DecimalFrom(n, rest);
    DecimalDigits(n);
    assert digits[0] == Decimal(n)[0];
    assert ([PLUS] + digits)[1..] == digits && ([MINUS] + digits)[1..] == digits;
  }

  // ---- The object ----

  /** The message buffer. It has one byte more than the longest message, for the terminator that a
      reader puts behind a body of maximal length. */
  class RawMessage {
    const data: array<byte>
    var bodyLength: nat

    predicate Valid()
      reads this
    {
      data.Length == HEADER_LENGTH + MAX_BODY_LENGTH + 1 && bodyLength <= MAX_BODY_LENGTH
    }

    constructor ()
      ensures Valid() && fresh(data) && bodyLength == 0
    {
      data := new byte[HEADER_LENGTH + MAX_BODY_LENGTH + 1];
      bodyLength := 0;
    }

    function Body(): seq<byte>
      requires Valid()
      reads this, data
    {
      data[HEADER_LENGTH..HEADER_LENGTH + bodyLength]
    }

    /** data() up to length() */
    function Bytes(): seq<byte>
      requires Valid()
      reads this, data
    {
      data[..HEADER_LENGTH + bodyLength]
    }

    method SetBodyLength(newLength: nat)
      requires Valid()
      modifies this
      ensures Valid() && bodyLength == if newLength > MAX_BODY_LENGTH then MAX_BODY_LENGTH else newLength
    {
      bodyLength := newLength;
      if bodyLength > MAX_BODY_LENGTH {
        bodyLength := MAX_BODY_LENGTH;
      }
    }

    method EncodeHeaderInPlace()
      requires Valid()
      modifies data
      ensures Valid() && data[..HEADER_LENGTH] == EncodeHeader(bodyLength)
      ensures data[HEADER_LENGTH..] == old(data[HEADER_LENGTH..])
    {
      HeaderRoundTrip(bodyLength);
      var header := EncodeHeader(bodyLength);
      for i := 0 to HEADER_LENGTH
        invariant data[..i] == header[..i]
        invariant data[HEADER_LENGTH..] == old(data[HEADER_LENGTH..])
      {
        data[i] := header[i];
      }
    }

    method DecodeHeaderInPlace() returns (ok: bool)
      requires Valid()
      modifies this
      ensures Valid() && (bodyLength, ok) == DecodeHeader(data[..HEADER_LENGTH])
    {
      var n := Atoi(CString(data[..HEADER_LENGTH]));
      if n < 0 || n > MAX_BODY_LENGTH {
        bodyLength := 0;
        return false;
      }
      bodyLength := n;
      return true;
    }

    /** memcpy or async_read into the buffer, starting at `at`. */
    method Fill(at: nat, bytes: seq<byte>)
      requires Valid() && at + |bytes| <= data.Length
      modifies data
      ensures data[at..at + |bytes|] == bytes
      ensures data[..at] == old(data[..at]) && data[at + |bytes|..] == old(data[at + |bytes|..])
    {
      for i := 0 to |bytes|
        invariant data[at..at + i] == bytes[..i]
        invariant data[..at] == old(data[..at]) && data[at + |bytes|..] == old(data[at + |bytes|..])
      {
        data[at + i] := bytes[i];
      }
    }

    /** What a sender does with a line of text: set the length, copy the body, encode the header. */
    method Compose(body: seq<byte>)
      requires Valid() && |body| <= MAX_BODY_LENGTH
      modifies this, data
      ensures Valid() && bodyLength == |body|
      ensures Bytes() == EncodeHeader(|body|) + body
    {
      SetBodyLength(|body|);
      Fill(HEADER_LENGTH, body);
      EncodeHeaderInPlace();
      assert data[HEADER_LENGTH..HEADER_LENGTH + |body|] == data[HEADER_LENGTH..][..|body|] == body;
      assert Bytes() == data[..HEADER_LENGTH] + data[HEADER_LENGTH..HEADER_LENGTH + |body|];
    }
  }
}
