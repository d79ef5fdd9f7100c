/**
  * UTF-8 as RFC 3629 defines it: the grammar of section 4 and the bit layout of section 3.
  * This is the reference the library is measured against.
  */
module Rfc3629 {

  type Octet = bv8
  type CodePoint = bv32

  /** Section 3: code points run to U+10FFFF and leave out the surrogates U+D800 to U+DFFF. */
  predicate Scalar(cp: CodePoint) {
    cp <= 0x10ffff && !(0xd800 <= cp <= 0xdfff)
  }

  /** UTF8-tail */
  predicate Tail(o: Octet) {
    0x80 <= o <= 0xbf
  }

  predicate Char1(a: Octet) {
    a <= 0x7f
  }

  predicate Char2(a: Octet, b: Octet) {
    0xc2 <= a <= 0xdf && Tail(b)
  }

  predicate Char3(a: Octet, b: Octet, c: Octet) {
    && ((a == 0xe0 && 0xa0 <= b <= 0xbf)
        || (0xe1 <= a <= 0xec && Tail(b))
        || (a == 0xed && 0x80 <= b <= 0x9f)
        || (0xee <= a <= 0xef && Tail(b)))
    && Tail(c)
  }

  predicate Char4(a: Octet, b: Octet, c: Octet, d: Octet) {
    && ((a == 0xf0 && 0x90 <= b <= 0xbf)
        || (0xf1 <= a <= 0xf3 && Tail(b))
        || (a == 0xf4 && 0x80 <= b <= 0x8f))
    && Tail(c) && Tail(d)
  }

  /** UTF8-char of section 4. */
  predicate Char(s: seq<Octet>) {
    || (|s| == 1 && Char1(s[0]))
    || (|s| == 2 && Char2(s[0], s[1]))
    || (|s| == 3 && Char3(s[0], s[1], s[2]))
    || (|s| == 4 && Char4(s[0], s[1], s[2], s[3]))
  }

  // The code point whose bits the octets carry, by the table of section 3.

  function Bits2(a: Octet, b: Octet): CodePoint {
    (((a & 0x1f) as bv32) << 6) | ((b & 0x3f) as bv32)
  }

  function Bits3(a: Octet, b: Octet, c: Octet): CodePoint {
    (((a & 0x0f) as bv32) << 12) | (((b & 0x3f) as bv32) << 6) | ((c & 0x3f) as bv32)
  }

  function Bits4(a: Octet, b: Octet, c: Octet, d: Octet): CodePoint {
    (((a & 0x07) as bv32) << 18) | (((b & 0x3f) as bv32) << 12) | (((c & 0x3f) as bv32) << 6) | ((d & 0x3f) as bv32)
  }

  function Meaning(s: seq<Octet>): CodePoint
    requires Char(s)
  {
    if |s| == 1 then s[0] as bv32
    else if |s| == 2 then Bits2(s[0], s[1])
    else if |s| == 3 then Bits3(s[0], s[1], s[2])
    else Bits4(s[0], s[1], s[2], s[3])
  }

  function Low8(x: bv32): Octet {
    (x & 0xff) as bv8
  }

  /** The layout of section 3, filled in from a code point. */
  function Encode(cp: CodePoint): (s: seq<Octet>)
    ensures 1 <= |s| <= 4
  {
    if cp < 0x80 then [Low8(cp)]
    else if cp < 0x800 then [Low8((cp >> 6) | 0xc0), Low8((cp & 0x3f) | 0x80)]
    else if cp < 0x10000 then [Low8((cp >> 12) | 0xe0), Low8(((cp >> 6) & 0x3f) | 0x80), Low8((cp & 0x3f) | 0x80)]
    else
      [Low8((cp >> 18) | 0xf0), Low8(((cp >> 12) & 0x3f) | 0x80),
       Low8(((cp >> 6) & 0x3f) | 0x80), Low8((cp & 0x3f) | 0x80)]
  }

  // ------ one character -----------------------------------------------------------------------

  lemma Encode1Decodes(cp: CodePoint, a: Octet)
    requires cp < 0x80 && a == Low8(cp)
    ensures Char1(a) && a as bv32 == cp
  {
  }

  lemma Encode2Decodes(cp: CodePoint, a: Octet, b: Octet)
    requires 0x80 <= cp < 0x800 && a == Low8((cp >> 6) | 0xc0) && b == Low8((cp & 0x3f) | 0x80)
    ensures Char2(a, b) && Bits2(a, b) == cp
  {
  }

  lemma Encode3Decodes(cp: CodePoint, a: Octet, b: Octet, c: Octet)
    requires 0x800 <= cp < 0x10000 && Scalar(cp)
    requires a == Low8((cp >> 12) | 0xe0) && b == Low8(((cp >> 6) & 0x3f) | 0x80) && c == Low8((cp & 0x3f) | 0x80)
    ensures Char3(a, b, c) && Bits3(a, b, c) == cp
  {
  }

  lemma Encode4Decodes(cp: CodePoint, a: Octet, b: Octet, c: Octet, d: Octet)
    requires 0x10000 <= cp <= 0x10ffff
    requires a == Low8((cp >> 18) | 0xf0) && b == Low8(((cp >> 12) & 0x3f) | 0x80)
    requires c == Low8(((cp >> 6) & 0x3f) | 0x80) && d == Low8((cp & 0x3f) | 0x80)
    ensures Char4(a, b, c, d) && Bits4(a, b, c, d) == cp
  {
  }

  /** Encoding a code point gives a character that means it. */
  lemma EncodeMeans(cp: CodePoint)
    requires Scalar(cp)
    ensures Char(Encode(cp)) && Meaning(Encode(cp)) == cp
  {
    var s := Encode(cp);
    if cp < 0x80 {
      Encode1Decodes(cp, s[0]);
    } else if cp < 0x800 {
      Encode2Decodes(cp, s[0], s[1]);
    } else if cp < 0x10000 {
      Encode3Decodes(cp, s[0], s[1], s[2]);
    } else {
      Encode4Decodes(cp, s[0], s[1], s[2], s[3]);
    }
  }

  lemma Decode1Encodes(a: Octet, cp: CodePoint)
    requires Char1(a) && cp == a as bv32
    ensures cp < 0x80 && Low8(cp) == a
  {
  }

  lemma Decode2Encodes(a: Octet, b: Octet, cp: CodePoint)
    requires Char2(a, b) && cp == Bits2(a, b)
    ensures 0x80 <= cp < 0x800 && Low8((cp >> 6) | 0xc0) == a && Low8((cp & 0x3f) | 0x80) == b
  {
  }

  lemma Decode3Encodes(a: Octet, b: Octet, c: Octet, cp: CodePoint)
    requires Char3(a, b, c) && cp == Bits3(a, b, c)
    ensures 0x800 <= cp < 0x10000 && Scalar(cp)
    ensures Low8((cp >> 12) | 0xe0) == a && Low8(((cp >> 6) & 0x3f) | 0x80) == b && Low8((cp & 0x3f) | 0x80) == c
  {
  }

  lemma Decode4Encodes(a: Octet, b: Octet, c: Octet, d: Octet, cp: CodePoint)
    requires Char4(a, b, c, d) && cp == Bits4(a, b, c, d)
    ensures 0x10000 <= cp <= 0x10ffff && Scalar(cp)
    ensures Low8((cp >> 18) | 0xf0) == a && Low8(((cp >> 12) & 0x3f) | 0x80) == b
    ensures Low8(((cp >> 6) & 0x3f) | 0x80) == c && Low8((cp & 0x3f) | 0x80) == d
  {
  }

  lemma Encode2Is(cp: CodePoint, a: Octet, b: Octet)
    requires 0x80 <= cp < 0x800 && Low8((cp >> 6) | 0xc0) == a && Low8((cp & 0x3f) | 0x80) == b
    ensures Encode(cp) == [a, b]
  {
  }

  lemma Encode3Is(cp: CodePoint, a: Octet, b: Octet, c: Octet)
    requires 0x800 <= cp < 0x10000
    requires Low8((cp >> 12) | 0xe0) == a && Low8(((cp >> 6) & 0x3f) | 0x80) == b && Low8((cp & 0x3f) | 0x80) == c
    ensures Encode(cp) == [a, b, c]
  {
  }

  lemma Encode4Is(cp: CodePoint, a: Octet, b: Octet, c: Octet, d: Octet)
    requires 0x10000 <= cp <= 0x10ffff
    requires Low8((cp >> 18) | 0xf0) == a && Low8(((cp >> 12) & 0x3f) | 0x80) == b
    requires Low8(((cp >> 6) & 0x3f) | 0x80) == c && Low8((cp & 0x3f) | 0x80) == d
    ensures Encode(cp) == [a, b, c, d]
  {
  }

  /** Decoding a character gives a code point whose encoding it is. */
  lemma MeaningEncodes(s: seq<Octet>)
    requires Char(s)
    ensures Scalar(Meaning(s)) && Encode(Meaning(s)) == s
  {
    var cp := Meaning(s);
    if |s| == 1 {
      Decode1Encodes(s[0], cp);
      assert s == [s[0]];
    } else if |s| == 2 {
      Decode2Encodes(s[0], s[1], cp);
      Encode2Is(cp, s[0], s[1]);
      assert s == [s[0], s[1]];
    } else if |s| == 3 {
      Decode3Encodes(s[0], s[1], s[2], cp);
      Encode3Is(cp, s[0], s[1], s[2]);
      assert s == [s[0], s[1], s[2]];
    } else {
      Decode4Encodes(s[0], s[1], s[2], s[3], cp);
      Encode4Is(cp, s[0], s[1], s[2], s[3]);
      assert s == [s[0], s[1], s[2], s[3]];
    }
  }
}
