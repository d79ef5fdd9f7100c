/** Octet strings as concatenations of the characters of RFC 3629, and the code points they mean. */
module Utf8Text {
  import opened Rfc3629

  /** The length that a first octet announces. */
  function LeadLength(a: Octet): nat {
    if a <= 0x7f then 1
    else if 0xc2 <= a <= 0xdf then 2
    else if 0xe0 <= a <= 0xef then 3
    else if 0xf0 <= a <= 0xf4 then 4
    else 0
  }

  lemma LengthOfChar(s: seq<Octet>)
    requires Char(s)
    ensures |s| == LeadLength(s[0])
    ensures forall k :: 0 < k < |s| ==> Tail(s[k])
    ensures !Tail(s[0])
  {
  }

  /** The length of the character at the head of s, or 0 if there is none. */
  function HeadLength(s: seq<Octet>): (n: nat)
    ensures n <= |s| && n <= 4
    ensures n > 0 ==> Char(s[..n])
  {
    if |s| == 0 then 0
    else
      var n := LeadLength(s[0]);
      if n <= |s| && Char(s[..n]) then n else 0
  }

  /** The code point of the character at the head of s. */
  function HeadMeaning(s: seq<Octet>): CodePoint
    requires HeadLength(s) > 0
  {
    Meaning(s[..HeadLength(s)])
  }

  lemma HeadIsUnique(s: seq<Octet>, k: nat)
    requires k <= |s| && Char(s[..k])
    ensures HeadLength(s) == k
  {
    LengthOfChar(s[..k]);
  }

  ghost predicate WellFormed(s: seq<Octet>)
    decreases |s|
  {
    s == [] || (HeadLength(s) > 0 && WellFormed(s[HeadLength(s)..]))
  }

  function Decode(s: seq<Octet>): seq<CodePoint>
    requires WellFormed(s)
    decreases |s|
  {
    if s == [] then []
    else [Meaning(s[..HeadLength(s)])] + Decode(s[HeadLength(s)..])
  }

  function EncodeAll(cps: seq<CodePoint>): seq<Octet> {
    if cps == [] then [] else Encode(cps[0]) + EncodeAll(cps[1..])
  }

  ghost predicate Scalars(cps: seq<CodePoint>) {
    forall i :: 0 <= i < |cps| ==> Scalar(cps[i])
  }

  function Flatten(parts: seq<seq<Octet>>): seq<Octet> {
    if parts == [] then [] else parts[0] + Flatten(parts[1..])
  }

  lemma HeadOf(c: seq<Octet>, rest: seq<Octet>)
    requires Char(c)
    ensures HeadLength(c + rest) == |c| && (c + rest)[..|c|] == c && (c + rest)[|c|..] == rest
  {
    assert (c + rest)[..|c|] == c;
    HeadIsUnique(c + rest, |c|);
  }

  /** A string is well-formed exactly when it is a concatenation of characters of the grammar. */
  lemma {:induction false} WellFormedIsConcatenation(s: seq<Octet>)
    ensures WellFormed(s) <==> exists parts: seq<seq<Octet>> ::
      (forall i :: 0 <= i < |parts| ==> Char(parts[i])) && Flatten(parts) == s
  {
    if WellFormed(s) {
      var parts := Parts(s);
    }
    if parts: seq<seq<Octet>> :| (forall i :: 0 <= i < |parts| ==> Char(parts[i])) && Flatten(parts) == s {
      FlattenIsWellFormed(parts);
    }
  }

  lemma {:induction false} Parts(s: seq<Octet>) returns (parts: seq<seq<Octet>>)
    requires WellFormed(s)
    ensures (forall i :: 0 <= i < |parts| ==> Char(parts[i])) && Flatten(parts) == s
    decreases |s|
  {
    if s == [] {
      parts := [];
    } else {
      var n := HeadLength(s);
      var rest := Parts(s[n..]);
      parts := [s[..n]] + rest;
      assert parts[1..] == rest;
    }
  }

  lemma {:induction false} FlattenIsWellFormed(parts: seq<seq<Octet>>)
    requires forall i :: 0 <= i < |parts| ==> Char(parts[i])
    ensures WellFormed(Flatten(parts))
  {
    if parts != [] {
      FlattenIsWellFormed(parts[1..]);
      HeadOf(parts[0], Flatten(parts[1..]));
    }
  }

  // ------ the bijection -----------------------------------------------------------------------

  lemma EncodeAllCons(cp: CodePoint, rest: seq<CodePoint>)
    ensures EncodeAll([cp] + rest) == Encode(cp) + EncodeAll(rest)
  {
    assert ([cp] + rest)[1..] == rest;
  }

  lemma ScalarsCons(cp: CodePoint, rest: seq<CodePoint>)
    requires Scalar(cp) && Scalars(rest)
    ensures Scalars([cp] + rest)
  {
  }

  lemma EncodeHead(c: seq<Octet>, cp: CodePoint, rest: seq<CodePoint>, tail: seq<Octet>)
    requires Encode(cp) == c && EncodeAll(rest) == tail
    ensures EncodeAll([cp] + rest) == c + tail
  {
    EncodeAllCons(cp, rest);
  }

  /** The head of a text: a character, the scalar value it encodes, and what follows. */
  lemma DecodeHead(s: seq<Octet>) returns (c: seq<Octet>, cp: CodePoint, tail: seq<Octet>)
    requires WellFormed(s) && s != []
    ensures s == c + tail && WellFormed(tail) && |tail| < |s|
    ensures Decode(s) == [cp] + Decode(tail)
    ensures Scalar(cp) && Encode(cp) == c
  {
    var n := HeadLength(s);
    c, tail := s[..n], s[n..];
    cp := Meaning(c);
    MeaningEncodes(c);
  }

  lemma {:induction false} DecodeThenEncode(s: seq<Octet>)
    requires WellFormed(s)
    ensures Scalars(Decode(s)) && EncodeAll(Decode(s)) == s
    decreases |s|
  {
    if s != [] {
      var c, cp, tail := DecodeHead(s);
      DecodeThenEncode(tail);
      EncodeHead(c, cp, Decode(tail), tail);
      ScalarsCons(cp, Decode(tail));
    }
  }

  lemma {:induction false} EncodeThenDecode(cps: seq<CodePoint>)
    requires Scalars(cps)
    ensures WellFormed(EncodeAll(cps)) && Decode(EncodeAll(cps)) == cps
  {
    if cps != [] {
      EncodeThenDecode(cps[1..]);
      EncodeMeans(cps[0]);
      HeadOf(Encode(cps[0]), EncodeAll(cps[1..]));
      assert cps == [cps[0]] + cps[1..];
    }
  }

  lemma {:induction false} EncodeAllAppends(a: seq<CodePoint>, cp: CodePoint)
    ensures EncodeAll(a + [cp]) == EncodeAll(a) + Encode(cp)
  {
    if a == [] {
      assert [cp][1..] == [] && a + [cp] == [cp];
    } else {
      assert (a + [cp])[1..] == a[1..] + [cp];
      EncodeAllAppends(a[1..], cp);
    }
  }

  // ------ splitting ---------------------------------------------------------------------------

  lemma {:induction false} ConcatWellFormed(a: seq<Octet>, b: seq<Octet>)
    requires WellFormed(a)
    ensures WellFormed(a + b) <==> WellFormed(b)
    ensures WellFormed(b) ==> Decode(a + b) == Decode(a) + Decode(b)
    decreases |a|
  {
    if a == [] {
      assert a + b == b;
    } else {
      var n := HeadLength(a);
      assert a + b == a[..n] + (a[n..] + b);
      HeadOf(a[..n], a[n..] + b);
      ConcatWellFormed(a[n..], b);
    }
  }

  lemma OneChar(c: seq<Octet>)
    requires Char(c)
    ensures WellFormed(c) && Decode(c) == [Meaning(c)]
  {
    HeadOf(c, []);
    assert c + [] == c;
  }

  /** Reading one more character extends what has been read. */
  lemma Extend(s: seq<Octet>, i: nat, j: nat, k: nat)
    requires i <= j <= k <= |s| && WellFormed(s[i..j]) && Char(s[j..k])
    ensures WellFormed(s[i..k]) && Decode(s[i..k]) == Decode(s[i..j]) + [Meaning(s[j..k])]
  {
    OneChar(s[j..k]);
    ConcatWellFormed(s[i..j], s[j..k]);
    assert s[i..k] == s[i..j] + s[j..k];
  }

  lemma Slices<T>(s: seq<T>, i: nat, j: nat, e: nat)
    requires i <= j <= e <= |s|
    ensures s[i..e][..j - i] == s[i..j] && s[i..e][j - i..] == s[j..e]
  {
  }

  lemma HasHead(s: seq<Octet>)
    requires WellFormed(s) && s != []
    ensures HeadLength(s) > 0
  {
  }

  /** Reading the character at the head of s[j..e] extends what has been read from i. */
  lemma ExtendByHead(s: seq<Octet>, i: nat, j: nat, e: nat, cp: CodePoint)
    requires i <= j < e <= |s| && WellFormed(s[i..j]) && HeadLength(s[j..e]) > 0 && cp == HeadMeaning(s[j..e])
    ensures var k := j + HeadLength(s[j..e]);
      && k <= e && WellFormed(s[i..k]) && Decode(s[i..k]) == Decode(s[i..j]) + [cp] && Scalar(cp)
      && (WellFormed(s[j..e]) ==> WellFormed(s[k..e]))
  {
    var k := j + HeadLength(s[j..e]);
    Slices(s, j, k, e);
    Extend(s, i, j, k);
    MeaningEncodes(s[j..k]);
  }

  /** Past a well-formed prefix the rest decides. */
  lemma Split(s: seq<Octet>, i: nat, j: nat, k: nat)
    requires i <= j <= k <= |s| && WellFormed(s[i..j])
    ensures WellFormed(s[i..k]) <==> WellFormed(s[j..k])
    ensures WellFormed(s[j..k]) ==> Decode(s[i..k]) == Decode(s[i..j]) + Decode(s[j..k])
  {
    ConcatWellFormed(s[i..j], s[j..k]);
    assert s[i..k] == s[i..j] + s[j..k];
  }

  /** A character that fits before an end also heads every longer stretch. */
  lemma HeadLengthLocal(s: seq<Octet>, i: nat, e: nat, e': nat)
    requires i <= e <= e' <= |s| && HeadLength(s[i..e]) > 0
    ensures HeadLength(s[i..e']) == HeadLength(s[i..e])
  {
    var n := HeadLength(s[i..e]);
    Slices(s, i, i + n, e);
    Slices(s, i, i + n, e');
    HeadIsUnique(s[i..e'], n);
  }
}
