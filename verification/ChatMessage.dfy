/**
  * chat_message.hpp: a message is a header of four characters, which holds the length of the body in
  * decimal, and the body. Octets are numbers below 256; characters are named by their ASCII values.
  */
module ChatMessage {

  type Byte = b: int | 0 <= b < 256

  datatype Option<T> = None | Some(value: T)

  const HEADER_LENGTH := 4
  const MAX_BODY_LENGTH := 512
  const SIZE_SPAN := 0x1_0000_0000

  // ------ the C library functions that the header goes through --------------------------------

  /** What strncat takes from a buffer: everything before the first NUL. */
  function CString(s: seq<Byte>): seq<Byte> {
    if s == [] || s[0] == 0 then [] else [s[0]] + CString(s[1..])
  }

  predicate IsSpace(c: Byte) {
    c == 32 || 9 <= c <= 13
  }

  predicate IsDigit(c: Byte) {
    48 <= c <= 57
  }

  function SkipSpaces(s: seq<Byte>): seq<Byte> {
    if s != [] && IsSpace(s[0]) then SkipSpaces(s[1..]) else s
  }

  /** The digits at the head of s, read after a number whose digits are done. */
  function Digits(s: seq<Byte>, number: nat): nat {
    if s != [] && IsDigit(s[0]) then Digits(s[1..], 10 * number + s[0] - 48) else number
  }

  function Atoi(s: seq<Byte>): int {
    var t := SkipSpaces(s);
    if t != [] && t[0] == 45 then 0 - Digits(t[1..], 0)
    else if t != [] && t[0] == 43 then Digits(t[1..], 0)
    else Digits(t, 0)
  }

  /** An int assigned to a size_t. */
  function AsSize(n: int): nat {
    n % SIZE_SPAN
  }

  /** How %d prints a number. */
  function Decimal(n: nat): (s: seq<Byte>)
    ensures |s| > 0 && forall i :: 0 <= i < |s| ==> IsDigit(s[i])
  {
    (if n < 10 then [] else Decimal(n / 10)) + [48 + n % 10]
  }

  function Spaces(n: nat): seq<Byte> {
    if n == 0 then [] else [32] + Spaces(n - 1)
  }

  /** How %4d prints a number. */
  function Padded(n: nat): seq<Byte> {
    (if |Decimal(n)| < HEADER_LENGTH then Spaces(HEADER_LENGTH - |Decimal(n)|) else []) + Decimal(n)
  }

  // ------ frames ------------------------------------------------------------------------------

  /** The body length that a received header announces, if it is accepted. */
  function Announced(header: seq<Byte>): (n: Option<nat>)
    ensures n.Some? ==> n.value <= MAX_BODY_LENGTH
  {
    var n := Atoi(CString(header));
    if 0 <= n <= MAX_BODY_LENGTH then Some(n) else None
  }

  /** A message as it is sent. */
  function Frame(body: seq<Byte>): seq<Byte> {
    Padded(|body|) + body
  }

  /** A complete frame: an accepted header and a body of the length it announces. */
  predicate IsFrame(f: seq<Byte>) {
    |f| >= HEADER_LENGTH && Announced(f[..HEADER_LENGTH]) == Some(|f| - HEADER_LENGTH)
  }

  function Body(f: seq<Byte>): seq<Byte>
    requires |f| >= HEADER_LENGTH
  {
    f[HEADER_LENGTH..]
  }

  function Concat(frames: seq<seq<Byte>>): seq<Byte> {
    if frames == [] then [] else frames[0] + Concat(frames[1..])
  }

  /** The frames that a reader of a stream has met: header, body, header, body, up to a bad or cut one. */
  function Frames(stream: seq<Byte>): (frames: seq<seq<Byte>>)
    ensures forall i :: 0 <= i < |frames| ==> IsFrame(frames[i])
    decreases |stream|
  {
    if |stream| < HEADER_LENGTH then []
    else
      match Announced(stream[..HEADER_LENGTH])
      case None => []
      case Some(n) =>
        if |stream| < HEADER_LENGTH + n then []
        else
          assert stream[..HEADER_LENGTH + n][..HEADER_LENGTH] == stream[..HEADER_LENGTH];
          [stream[..HEADER_LENGTH + n]] + Frames(stream[HEADER_LENGTH + n..])
  }

  // ------ the class ---------------------------------------------------------------------------

  class Message {
    const data: array<Byte>
    var bodyLength: nat

    ghost predicate Valid()
      reads this
    {
      data.Length == HEADER_LENGTH + MAX_BODY_LENGTH && bodyLength <= MAX_BODY_LENGTH
    }

    /** The characters of the message. */
    ghost function Content(): seq<Byte>
      reads this, data
      requires Valid()
    {
      data[..HEADER_LENGTH + bodyLength]
    }

    constructor ()
      ensures Valid() && fresh(data) && bodyLength == 0
    {
      data := new Byte[HEADER_LENGTH + MAX_BODY_LENGTH];
      bodyLength := 0;
    }

    method Length() returns (n: nat)
      requires Valid()
      ensures n == |Content()| <= HEADER_LENGTH + MAX_BODY_LENGTH
    {
      n := HEADER_LENGTH + bodyLength;
    }

    /** Sets the length; more than the buffer holds is cut off. */
    method SetBodyLength(newLength: nat)
      requires data.Length == HEADER_LENGTH + MAX_BODY_LENGTH
      modifies this`bodyLength
      ensures Valid() && bodyLength == if newLength <= 512 then newLength else 512
    {
      bodyLength := newLength;
      if bodyLength > MAX_BODY_LENGTH {
        bodyLength := MAX_BODY_LENGTH;
      }
    }

    /** Reads the length out of the header; a length that does not fit becomes 0 and is refused. */
    method DecodeHeader() returns (ok: bool)
      requires data.Length == HEADER_LENGTH + MAX_BODY_LENGTH
      modifies this`bodyLength
      ensures Valid() && bodyLength <= 512 && ok == Announced(data[..HEADER_LENGTH]).Some?
      ensures bodyLength == if ok then Announced(data[..HEADER_LENGTH]).value else 0
    {
      var header := CString(data[..HEADER_LENGTH]);
      AtoiIsSmall(data[..HEADER_LENGTH]);
      bodyLength := AsSize(Atoi(header));
      if bodyLength > MAX_BODY_LENGTH {
        bodyLength := 0;
        return false;
      }
      ok := true;
    }

    /** Writes the length into the header. */
    method EncodeHeader()
      requires Valid()
      modifies data
      ensures Valid() && data[..HEADER_LENGTH] == Padded(bodyLength)
      ensures PrintedAs(data[..4], bodyLength) && data[4..] == old(data[4..])
    {
      PaddedFits(bodyLength);
      PaddedPrints(bodyLength);
      var header := Padded(bodyLength);
      forall i | 0 <= i < HEADER_LENGTH {
        data[i] := header[i];
      }
    }

    /** What encode_header writes, decode_header reads. */
    method EncodeThenDecode() returns (ok: bool)
      requires Valid()
      modifies this`bodyLength, data
      ensures Valid() && ok && bodyLength == old(bodyLength)
      ensures Content() == Frame(old(data[HEADER_LENGTH..HEADER_LENGTH + bodyLength]))
    {
      ghost var was := data[..];
      EncodeHeader();
      HeaderRoundTrip(bodyLength);
      ok := DecodeHeader();
      HeaderAndBody(was, data[..], bodyLength);
      assert data[..][..HEADER_LENGTH + bodyLength] == data[..HEADER_LENGTH + bodyLength];
    }
  }

  lemma HeaderAndBody(was: seq<Byte>, data: seq<Byte>, n: nat)
    requires |was| == |data| && HEADER_LENGTH + n <= |data|
    requires data[..HEADER_LENGTH] == Padded(n) && data[HEADER_LENGTH..] == was[HEADER_LENGTH..]
    ensures data[..HEADER_LENGTH + n] == Padded(n) + was[HEADER_LENGTH..HEADER_LENGTH + n]
  {
    assert data[HEADER_LENGTH..HEADER_LENGTH + n] == data[HEADER_LENGTH..][..n];
    assert was[HEADER_LENGTH..HEADER_LENGTH + n] == was[HEADER_LENGTH..][..n];
  }

  // ------ the header --------------------------------------------------------------------------

  lemma {:induction false} DigitsBound(s: seq<Byte>, number: nat, bound: nat)
    requires number < bound
    ensures |s| == 0 ==> Digits(s, number) < bound
    ensures |s| == 1 ==> Digits(s, number) < 10 * bound
    ensures |s| == 2 ==> Digits(s, number) < 100 * bound
    ensures |s| == 3 ==> Digits(s, number) < 1000 * bound
    ensures |s| == 4 ==> Digits(s, number) < 10000 * bound
  {
    if s != [] && IsDigit(s[0]) {
      DigitsBound(s[1..], 10 * number + s[0] - 48, 10 * bound);
    }
  }

  lemma {:induction false} SkippedIsShorter(s: seq<Byte>)
    ensures |SkipSpaces(s)| <= |s|
  {
    if s != [] && IsSpace(s[0]) {
      SkippedIsShorter(s[1..]);
    }
  }

  lemma {:induction false} CStringIsShorter(s: seq<Byte>)
    ensures |CString(s)| <= |s|
  {
    if s != [] && s[0] != 0 {
      CStringIsShorter(s[1..]);
    }
  }

  /** A header is too short for its number to leave the range of int, so only a sign can make it large. */
  lemma AtoiIsSmall(header: seq<Byte>)
    requires |header| == HEADER_LENGTH
    ensures -10000 < Atoi(CString(header)) < 10000
  {
    CStringIsShorter(header);
    var t := SkipSpaces(CString(header));
    SkippedIsShorter(CString(header));
    DigitsBound(t, 0, 1);
    if t != [] {
      DigitsBound(t[1..], 0, 1);
    }
  }

  lemma {:induction false} DigitsOfMore(s: seq<Byte>, d: Byte, number: nat)
    requires (forall i :: 0 <= i < |s| ==> IsDigit(s[i])) && IsDigit(d)
    ensures Digits(s + [d], number) == 10 * Digits(s, number) + d - 48
  {
    if s == [] {
      assert s + [d] == [d] && [d][1..] == [];
    } else {
      assert (s + [d])[1..] == s[1..] + [d];
      DigitsOfMore(s[1..], d, 10 * number + s[0] - 48);
    }
  }

  lemma {:induction false} DigitsOfDecimal(n: nat)
    ensures Digits(Decimal(n), 0) == n
  {
    if n < 10 {
      assert Decimal(n) == [48 + n] && Decimal(n)[1..] == [];
    } else {
      DigitsOfDecimal(n / 10);
      DigitsOfMore(Decimal(n / 10), 48 + n % 10, 0);
    }
  }

  lemma {:induction false} SpacesAreSkipped(n: nat, s: seq<Byte>)
    requires s != [] && !IsSpace(s[0])
    ensures SkipSpaces(Spaces(n) + s) == s
  {
    if n == 0 {
      assert Spaces(n) + s == s;
    } else {
      assert (Spaces(n) + s)[1..] == Spaces(n - 1) + s;
      SpacesAreSkipped(n - 1, s);
    }
  }

  lemma {:induction false} NoNul(s: seq<Byte>)
    requires forall i :: 0 <= i < |s| ==> s[i] != 0
    ensures CString(s) == s
  {
    if s != [] {
      NoNul(s[1..]);
    }
  }

  lemma {:induction false} SpacesAre(n: nat)
    ensures |Spaces(n)| == n && forall i :: 0 <= i < n ==> Spaces(n)[i] == 32
  {
    if n > 0 {
      SpacesAre(n - 1);
    }
  }

  /** atoi reads back what %4d prints, for every number. */
  lemma PrintThenRead(n: nat)
    ensures Atoi(CString(Padded(n))) == n
  {
    var d := Decimal(n);
    var k := if |d| < HEADER_LENGTH then HEADER_LENGTH - |d| else 0;
    SpacesAre(k);
    assert Padded(n) == Spaces(k) + d;
    NoNul(Padded(n));
    SpacesAreSkipped(k, d);
    DigitsOfDecimal(n);
  }

  lemma {:induction false} DecimalLength(n: nat, limit: nat, k: nat)
    requires n < limit && k > 0 && limit == Power10(k)
    ensures |Decimal(n)| <= k
    decreases k
  {
    if n >= 10 {
      DecimalLength(n / 10, Power10(k - 1), k - 1);
    }
  }

  function Power10(k: nat): nat {
    if k == 0 then 1 else 10 * Power10(k - 1)
  }

  /** The header of every length that a message can have is four characters long. */
  lemma PaddedFits(n: nat)
    requires n < 10000
    ensures |Padded(n)| == HEADER_LENGTH
  {
    assert Power10(4) == 10000;
    DecimalLength(n, 10000, 4);
    SpacesAre(HEADER_LENGTH - |Decimal(n)|);
  }

  /** Of all numbers that fit the header, exactly the body lengths up to 512 come back. */
  lemma HeaderRoundTrip(n: nat)
    requires n < 10000
    ensures |Padded(n)| == 4
    ensures Announced(Padded(n)) == if n <= 512 then Some(n) else None
  {
    PaddedFits(n);
    PrintThenRead(n);
  }

  /** The number that a run of digits stands for. */
  function Number(digits: seq<Byte>): nat
    requires forall i :: 0 <= i < |digits| ==> IsDigit(digits[i])
  {
    if digits == [] then 0
    else
      var k := |digits| - 1;
      assert IsDigit(digits[k]);
      10 * Number(digits[..k]) + digits[k] - 48
  }

  /**
    * How a header reads: blanks, an optional sign, the digits that follow, and whatever comes after
    * them (a NUL is such a character). Every header reads in this way (ShapeOf).
    */
  datatype Shape = Shape(blanks: seq<Byte>, sign: seq<Byte>, digits: seq<Byte>, rest: seq<Byte>) {
    predicate Valid() {
      && (forall i :: 0 <= i < |blanks| ==> IsSpace(blanks[i]))
      && (sign == [] || sign == [43] || sign == [45])
      && (forall i :: 0 <= i < |digits| ==> IsDigit(digits[i]))
      && (rest != [] ==> !IsDigit(rest[0]))
      && (rest != [] && sign == [] && digits == [] ==> !IsSpace(rest[0]) && rest[0] != 43 && rest[0] != 45)
    }

    function Text(): seq<Byte> {
      blanks + (sign + (digits + rest))
    }

    /** The length announced: none if the number is too large, or negative. */
    function Length(): Option<nat>
      requires Valid()
    {
      var n: nat := Number(digits);
      if n > MAX_BODY_LENGTH || (sign == [45] && n > 0) then None else Some(n)
    }
  }

  lemma {:induction false} SplitBlanks(h: seq<Byte>) returns (blanks: seq<Byte>, rest: seq<Byte>)
    ensures h == blanks + rest && (forall i :: 0 <= i < |blanks| ==> IsSpace(blanks[i]))
    ensures rest != [] ==> !IsSpace(rest[0])
  {
    if h != [] && IsSpace(h[0]) {
      blanks, rest := SplitBlanks(h[1..]);
      blanks := [h[0]] + blanks;
    } else {
      blanks, rest := [], h;
    }
  }

  lemma {:induction false} SplitDigits(h: seq<Byte>) returns (digits: seq<Byte>, rest: seq<Byte>)
    ensures h == digits + rest && (forall i :: 0 <= i < |digits| ==> IsDigit(digits[i]))
    ensures rest != [] ==> !IsDigit(rest[0])
  {
    if h != [] && IsDigit(h[0]) {
      digits, rest := SplitDigits(h[1..]);
      digits := [h[0]] + digits;
    } else {
      digits, rest := [], h;
    }
  }

  lemma ShapeOf(h: seq<Byte>) returns (shape: Shape)
    ensures shape.Valid() && shape.Text() == h
  {
    var blanks, tail := SplitBlanks(h);
    var k := if tail != [] && (tail[0] == 43 || tail[0] == 45) then 1 else 0;
    var digits, rest := SplitDigits(tail[k..]);
    shape := Shape(blanks, tail[..k], digits, rest);
    assert tail == tail[..k] + tail[k..];
  }

  lemma {:induction false} CStringSkips(a: seq<Byte>, b: seq<Byte>)
    requires forall i :: 0 <= i < |a| ==> a[i] != 0
    ensures CString(a + b) == a + CString(b)
  {
    if a == [] {
      assert a + b == b;
    } else {
      assert (a + b)[1..] == a[1..] + b;
      CStringSkips(a[1..], b);
    }
  }

  lemma {:induction false} SkipBlanks(blanks: seq<Byte>, tail: seq<Byte>)
    requires (forall i :: 0 <= i < |blanks| ==> IsSpace(blanks[i])) && (tail != [] ==> !IsSpace(tail[0]))
    ensures SkipSpaces(blanks + tail) == tail
  {
    if blanks == [] {
      assert blanks + tail == tail;
    } else {
      assert (blanks + tail)[1..] == blanks[1..] + tail;
      SkipBlanks(blanks[1..], tail);
    }
  }

  lemma {:induction false} ReadDigits(digits: seq<Byte>, rest: seq<Byte>)
    requires (forall i :: 0 <= i < |digits| ==> IsDigit(digits[i])) && (rest != [] ==> !IsDigit(rest[0]))
    ensures Digits(digits + rest, 0) == Number(digits)
  {
    DigitsStop(digits, rest, 0);
    DigitsAreNumber(digits);
  }

  lemma {:induction false} DigitsStop(digits: seq<Byte>, rest: seq<Byte>, number: nat)
    requires (forall i :: 0 <= i < |digits| ==> IsDigit(digits[i])) && (rest != [] ==> !IsDigit(rest[0]))
    ensures Digits(digits + rest, number) == Digits(digits, number)
  {
    if digits == [] {
      assert digits + rest == rest;
    } else {
      assert (digits + rest)[1..] == digits[1..] + rest;
      DigitsStop(digits[1..], rest, 10 * number + digits[0] - 48);
    }
  }

  lemma {:induction false} DigitsAreNumber(digits: seq<Byte>)
    requires forall i :: 0 <= i < |digits| ==> IsDigit(digits[i])
    ensures Digits(digits, 0) == Number(digits)
  {
    if digits != [] {
      var k := |digits| - 1;
      DigitsAreNumber(digits[..k]);
      DigitsOfMore(digits[..k], digits[k], 0);
      assert digits == digits[..k] + [digits[k]];
    }
  }

  /** atoi, after the blanks. */
  lemma AtoiOfShape(shape: Shape, rest: seq<Byte>)
    requires shape.Valid() && rest == CString(shape.rest)
    ensures Atoi(shape.blanks + (shape.sign + (shape.digits + rest))) ==
      if shape.sign == [45] then 0 - Number(shape.digits) else Number(shape.digits)
  {
    var tail := shape.sign + (shape.digits + rest);
    assert rest != [] ==> rest[0] == shape.rest[0];
    SkipBlanks(shape.blanks, tail);
    ReadDigits(shape.digits, rest);
    if shape.sign == [] {
      assert tail == shape.digits + rest;
    } else {
      assert tail[1..] == shape.digits + rest;
    }
  }

  lemma ShapeReads(shape: Shape)
    requires shape.Valid()
    ensures Announced(shape.Text()) == shape.Length()
  {
    CStringSkips(shape.digits, shape.rest);
    CStringSkips(shape.sign, shape.digits + shape.rest);
    CStringSkips(shape.blanks, shape.sign + (shape.digits + shape.rest));
    AtoiOfShape(shape, CString(shape.rest));
  }

  /** Exactly the headers that announce n. */
  lemma AnnouncedExactly(h: seq<Byte>, n: Option<nat>)
    ensures Announced(h) == n <==> exists shape: Shape :: shape.Valid() && shape.Text() == h && shape.Length() == n
  {
    var shape := ShapeOf(h);
    ShapeReads(shape);
    if other: Shape :| other.Valid() && other.Text() == h && other.Length() == n {
      ShapeReads(other);
    }
  }

  /** In particular, a header is accepted with an empty body exactly if its digits, perhaps none, are all 0. */
  lemma NoNumberIsAnEmptyBody(h: seq<Byte>)
    ensures Announced(h) == Some(0) <==>
      exists shape: Shape :: shape.Valid() && shape.Text() == h && AllZero(shape.digits)
  {
    var shape := ShapeOf(h);
    ShapeReads(shape);
    ZeroDigits(shape.digits);
    if other: Shape :| other.Valid() && other.Text() == h && AllZero(other.digits) {
      ShapeReads(other);
      ZeroDigits(other.digits);
    }
  }

  predicate AllZero(digits: seq<Byte>) {
    forall i :: 0 <= i < |digits| ==> digits[i] == 48
  }

  lemma {:induction false} ZeroDigits(digits: seq<Byte>)
    requires forall i :: 0 <= i < |digits| ==> IsDigit(digits[i])
    ensures Number(digits) == 0 <==> AllZero(digits)
  {
    if digits != [] {
      var k := |digits| - 1;
      ZeroDigits(digits[..k]);
      assert digits == digits[..k] + [digits[k]];
    }
  }

  /** What %4d writes: blanks, then the digits of the number up to the end, without a leading zero. */
  predicate PrintedAs(header: seq<Byte>, n: nat) {
    exists k :: 0 <= k < |header| && BlanksThenNumber(header, n, k)
  }

  predicate BlanksThenNumber(header: seq<Byte>, n: nat, k: nat)
    requires k < |header|
  {
    && (forall i :: 0 <= i < k ==> header[i] == 32)
    && (forall i :: k <= i < |header| ==> 48 <= header[i] <= 57)
    && Number(header[k..]) == n
    && (header[k] != 48 || k == |header| - 1)
  }

  lemma {:induction false} DecimalHead(n: nat)
    ensures Decimal(n)[0] != 48 || (n == 0 && |Decimal(n)| == 1)
  {
    if n >= 10 {
      DecimalHead(n / 10);
    }
  }

  /** The header of any number that fits, octet by octet. */
  lemma PaddedPrints(n: nat)
    requires n < 10000
    ensures |Padded(n)| == 4 && PrintedAs(Padded(n), n)
  {
    PaddedFits(n);
    var d := Decimal(n);
    DecimalReads(n, d);
    if |d| < HEADER_LENGTH {
      SpacesAre(HEADER_LENGTH - |d|);
      Printed(Spaces(HEADER_LENGTH - |d|), d, n, Padded(n));
    } else {
      Printed([], d, n, Padded(n));
    }
  }

  lemma DecimalReads(n: nat, d: seq<Byte>)
    requires d == Decimal(n)
    ensures Number(d) == n && (d[0] != 48 || |d| == 1)
  {
    DecimalHead(n);
    DigitsOfDecimal(n);
    DigitsAreNumber(d);
  }

  lemma Printed(blanks: seq<Byte>, digits: seq<Byte>, n: nat, header: seq<Byte>)
    requires header == blanks + digits && digits != [] && forall i :: 0 <= i < |blanks| ==> blanks[i] == 32
    requires (forall i :: 0 <= i < |digits| ==> IsDigit(digits[i])) && Number(digits) == n
    requires digits[0] != 48 || |digits| == 1
    ensures PrintedAs(header, n)
  {
    assert header[|blanks|..] == digits;
    assert BlanksThenNumber(header, n, |blanks|);
  }

  lemma NumberOf(digits: seq<Byte>, d: Byte)
    requires (forall i :: 0 <= i < |digits| ==> IsDigit(digits[i])) && IsDigit(d)
    ensures Number(digits + [d]) == 10 * Number(digits) + d - 48
  {
    assert (digits + [d])[..|digits|] == digits;
  }

  /** A header read by its parts. */
  lemma Example(blanks: seq<Byte>, sign: seq<Byte>, digits: seq<Byte>, rest: seq<Byte>, header: seq<Byte>, n: nat)
    requires Shape(blanks, sign, digits, rest).Valid() && header == blanks + (sign + (digits + rest))
    requires Number(digits) == n
    ensures Announced(header) == if n > 512 || (sign == [45] && n > 0) then None else Some(n)
  {
    ShapeReads(Shape(blanks, sign, digits, rest));
  }

  lemma OneDigit(digits: seq<Byte>, a: Byte)
    requires IsDigit(a) && digits == [a]
    ensures Number(digits) == a - 48
  {
  }

  lemma TwoDigits(digits: seq<Byte>, first: seq<Byte>, a: Byte, b: Byte)
    requires IsDigit(a) && IsDigit(b) && first == [a] && digits == first + [b]
    ensures Number(digits) == 10 * (a - 48) + (b - 48)
  {
    OneDigit(first, a);
    NumberOf(first, b);
  }

  /** "12ab" announces 12, though no header is printed so. */
  lemma LettersBehind()
    ensures Announced([49, 50, 97, 98]) == Some(12)
  {
    TwoDigits([49, 50], [49], 49, 50);
    Example([], [], [49, 50], [97, 98], [49, 50, 97, 98], 12);
  }

  /** "00a " announces 0. */
  lemma LeadingZeros()
    ensures Announced([48, 48, 97, 32]) == Some(0)
  {
    TwoDigits([48, 48], [48], 48, 48);
    Example([], [], [48, 48], [97, 32], [48, 48, 97, 32], 0);
  }

  /** "-5ab" is refused. */
  lemma MinusIsRefused()
    ensures Announced([45, 53, 97, 98]) == None
  {
    OneDigit([53], 53);
    Example([], [45], [53], [97, 98], [45, 53, 97, 98], 5);
  }

  // ------ streams -----------------------------------------------------------------------------

  /** Reading a frame off the head of a stream. */
  lemma FrameAtHead(f: seq<Byte>, rest: seq<Byte>)
    requires IsFrame(f)
    ensures Frames(f + rest) == [f] + Frames(rest)
  {
    assert (f + rest)[..HEADER_LENGTH] == f[..HEADER_LENGTH];
    assert (f + rest)[..|f|] == f && (f + rest)[|f|..] == rest;
  }

  /** A header h that announces n octets, and what has been read of them: one frame, or none yet. */
  lemma OneFrame(f: seq<Byte>, h: seq<Byte>, n: nat)
    requires |f| == HEADER_LENGTH + n && f[..HEADER_LENGTH] == h && Announced(h) == Some(n)
    ensures Frames(f) == [f]
  {
    assert f[..HEADER_LENGTH + n] == f;
    assert f[HEADER_LENGTH + n..] == [];
  }

  lemma CutFrame(f: seq<Byte>, h: seq<Byte>, n: nat)
    requires HEADER_LENGTH <= |f| < HEADER_LENGTH + n && f[..HEADER_LENGTH] == h && Announced(h) == Some(n)
    ensures Frames(f) == []
  {
  }

  lemma OneFrameAtMost(f: seq<Byte>, h: seq<Byte>, n: nat)
    requires HEADER_LENGTH <= |f| <= HEADER_LENGTH + n && f[..HEADER_LENGTH] == h && Announced(h) == Some(n)
    ensures Frames(f) == if |f| == HEADER_LENGTH + n then [f] else []
  {
    if |f| == HEADER_LENGTH + n {
      OneFrame(f, h, n);
    } else {
      CutFrame(f, h, n);
    }
  }

  lemma FrameIsFrame(body: seq<Byte>)
    requires |body| <= MAX_BODY_LENGTH
    ensures IsFrame(Frame(body)) && Body(Frame(body)) == body
  {
    HeaderRoundTrip(|body|);
    assert Frame(body)[..HEADER_LENGTH] == Padded(|body|);
  }

  lemma Regroup<T>(a: seq<T>, b: seq<T>, c: seq<T>)
    ensures (a + b) + c == a + (b + c)
  {
  }

  lemma FrameAndMore(f: seq<Byte>, frames: seq<seq<Byte>>, rest: seq<Byte>, read: seq<seq<Byte>>)
    requires IsFrame(f) && Frames(Concat(frames) + rest) == frames + read
    ensures Frames(Concat([f] + frames) + rest) == ([f] + frames) + read
  {
    ConcatFirst(f, frames);
    Regroup(f, Concat(frames), rest);
    FrameAtHead(f, Concat(frames) + rest);
    Regroup([f], frames, read);
  }

  lemma NoFrames(rest: seq<Byte>)
    ensures Frames(Concat([]) + rest) == [] + Frames(rest)
  {
    assert Concat([]) + rest == rest;
  }

  /** The messages of a stream of frames come out as they went in, however the stream goes on. */
  lemma {:induction false} FramesOfFrames(frames: seq<seq<Byte>>, rest: seq<Byte>)
    requires forall i :: 0 <= i < |frames| ==> IsFrame(frames[i])
    ensures Frames(Concat(frames) + rest) == frames + Frames(rest)
  {
    if frames == [] {
      NoFrames(rest);
    } else {
      FramesOfFrames(frames[1..], rest);
      FrameAndMore(frames[0], frames[1..], rest, Frames(rest));
      assert frames == [frames[0]] + frames[1..];
    }
  }

  function Encoded(bodies: seq<seq<Byte>>): (frames: seq<seq<Byte>>)
    ensures |frames| == |bodies| && forall i :: 0 <= i < |bodies| ==> frames[i] == Frame(bodies[i])
  {
    if bodies == [] then [] else [Frame(bodies[0])] + Encoded(bodies[1..])
  }

  function Bodies(frames: seq<seq<Byte>>): (bodies: seq<seq<Byte>>)
    requires forall i :: 0 <= i < |frames| ==> |frames[i]| >= HEADER_LENGTH
    ensures |bodies| == |frames| && forall i :: 0 <= i < |frames| ==> bodies[i] == Body(frames[i])
  {
    if frames == [] then [] else [Body(frames[0])] + Bodies(frames[1..])
  }

  /** Any bodies of up to 512 octets, sent one after the other, are what the reader gets. */
  lemma FramingRoundTrip(bodies: seq<seq<Byte>>)
    requires forall i :: 0 <= i < |bodies| ==> |bodies[i]| <= MAX_BODY_LENGTH
    ensures Frames(Concat(Encoded(bodies))) == Encoded(bodies)
    ensures Bodies(Frames(Concat(Encoded(bodies)))) == bodies
  {
    forall i | 0 <= i < |bodies| ensures IsFrame(Encoded(bodies)[i]) && Body(Encoded(bodies)[i]) == bodies[i] {
      FrameIsFrame(bodies[i]);
    }
    FramesOfFrames(Encoded(bodies), []);
    assert Concat(Encoded(bodies)) + [] == Concat(Encoded(bodies));
    assert Frames([]) == [];
  }

  /** A stream that starts with a complete frame, and what follows it. */
  lemma FirstFrame(stream: seq<Byte>) returns (f: seq<Byte>, rest: seq<Byte>)
    requires Frames(stream) != []
    ensures stream == f + rest && |rest| < |stream| && Frames(stream) == [f] + Frames(rest)
  {
    var n := HEADER_LENGTH + Announced(stream[..HEADER_LENGTH]).value;
    f, rest := stream[..n], stream[n..];
  }

  lemma ConcatFirst(f: seq<Byte>, frames: seq<seq<Byte>>)
    ensures Concat([f] + frames) == f + Concat(frames)
  {
    assert ([f] + frames)[1..] == frames;
  }

  /** Of any stream, what is forwarded is a beginning, and what remains holds no complete frame. */
  lemma {:induction false} StreamParts(stream: seq<Byte>) returns (rest: seq<Byte>)
    ensures stream == Concat(Frames(stream)) + rest && Frames(rest) == []
    decreases |stream|
  {
    if Frames(stream) == [] {
      rest := stream;
      assert [] + stream == stream;
    } else {
      var f, tail := FirstFrame(stream);
      rest := StreamParts(tail);
      ConcatFirst(f, Frames(tail));
      Regroup(f, Concat(Frames(tail)), rest);
    }
  }

  lemma ForwardedIsPrefix(stream: seq<Byte>)
    ensures Concat(Frames(stream)) <= stream
    ensures Frames(stream[|Concat(Frames(stream))|..]) == []
  {
    var read := Concat(Frames(stream));
    var rest := StreamParts(stream);
    assert (read + rest)[|read|..] == rest;
  }

  /** Octets that arrive later never change what was read before. */
  lemma FramesOnlyGrow(stream: seq<Byte>, more: seq<Byte>)
    ensures Frames(stream) <= Frames(stream + more)
  {
    var rest := StreamParts(stream);
    Regroup(Concat(Frames(stream)), rest, more);
    FramesOfFrames(Frames(stream), rest + more);
  }

  lemma {:induction false} ConcatAppends(frames: seq<seq<Byte>>, f: seq<Byte>)
    ensures Concat(frames + [f]) == Concat(frames) + f
  {
    if frames == [] {
      assert frames + [f] == [f] && [f][1..] == [] && f + [] == f;
    } else {
      assert (frames + [f])[1..] == frames[1..] + [f];
      ConcatAppends(frames[1..], f);
    }
  }
}
