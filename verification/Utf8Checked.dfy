/**
  * utf8/checked.h: the library's interface. An output iterator is the sequence written so far, and a
  * throw is reported beside the values that the reference parameters and the output hold by then.
  */
module Utf8Checked {
  import opened Rfc3629
  import opened Utf8Text
  import opened Utf8Core

  datatype Exception =
    | InvalidCodePoint(cp: CodePoint)
    | InvalidUtf8(octet: Octet)
    | InvalidUtf16(unit: bv16)
    | NotEnoughRoom

  datatype Thrown = Nothing | Throws(exception: Exception)

  // ------ append, next, prior -----------------------------------------------------------------

  /** Appends the character of a scalar value, and throws on anything else. */
  method Append(cp: CodePoint, result: seq<Octet>) returns (result': seq<Octet>, thrown: Thrown)
    ensures thrown == if Scalar(cp) then Nothing else Throws(InvalidCodePoint(cp))
    ensures result' == if Scalar(cp) then result + Encode(cp) else result
  {
    result', thrown := result, Nothing;
    if !IsCodePointValid(cp) {
      return result, Throws(InvalidCodePoint(cp));
    }
    if cp < 0x80 {
      result' := result' + [Low8(cp)];
    } else if cp < 0x800 {
      result' := result' + [Low8((cp >> 6) | 0xc0)];
      result' := result' + [Low8((cp & 0x3f) | 0x80)];
    } else if cp < 0x10000 {
      result' := result' + [Low8((cp >> 12) | 0xe0)];
      result' := result' + [Low8(((cp >> 6) & 0x3f) | 0x80)];
      result' := result' + [Low8((cp & 0x3f) | 0x80)];
    } else {
      result' := result' + [Low8((cp >> 18) | 0xf0)];
      result' := result' + [Low8(((cp >> 12) & 0x3f) | 0x80)];
      result' := result' + [Low8(((cp >> 6) & 0x3f) | 0x80)];
      result' := result' + [Low8((cp & 0x3f) | 0x80)];
    }
  }

  /** What `next` throws on a string without a character at its head. An invalid code point is reported as 0. */
  function NextThrows(t: seq<Octet>): Thrown
    requires |t| > 0
  {
    match Fault(t)
    case UTF8_OK => Nothing
    case NOT_ENOUGH_ROOM => Throws(NotEnoughRoom)
    case INVALID_CODE_POINT => Throws(InvalidCodePoint(0))
    case _ => Throws(InvalidUtf8(t[0]))
  }

  /** Reads the character at it and passes it, or throws and stays. */
  method Next(s: seq<Octet>, it: nat, end: nat) returns (cp: CodePoint, it': nat, thrown: Thrown)
    requires it < end <= |s|
    ensures thrown == NextThrows(s[it..end])
    ensures thrown.Nothing? <==> HeadLength(s[it..end]) > 0
    ensures thrown.Nothing? ==>
      it' == it + HeadLength(s[it..end]) <= end && cp == HeadMeaning(s[it..end])
    ensures thrown.Throws? ==> it' == it
  {
    var err;
    err, it', cp := ValidateNext(s, it, end, 0);
    match err {
      case UTF8_OK => thrown := Nothing;
      case NOT_ENOUGH_ROOM => thrown := Throws(NotEnoughRoom);
      case INVALID_CODE_POINT => thrown := Throws(InvalidCodePoint(cp));
      case _ => thrown := Throws(InvalidUtf8(s[it']));
    }
  }

  /** The nearest octet before it that is not a tail, or start. */
  function BackTo(s: seq<Octet>, start: nat, it: nat): (p: nat)
    requires start < it <= |s|
    ensures start <= p < it
    ensures p == start || !Tail(s[p])
    ensures forall k :: p < k < it ==> Tail(s[k])
  {
    if it - 1 == start || !Tail(s[it - 1]) then it - 1 else BackTo(s, start, it - 1)
  }

  /** Moves back to the nearest octet that is not a tail, or to start. */
  method BackUp(s: seq<Octet>, it: nat, start: nat) returns (it': nat, thrown: Thrown)
    requires start < it <= |s|
    ensures it' == BackTo(s, start, it)
    ensures thrown == if Tail(s[it']) then Throws(InvalidUtf8(s[it'])) else Nothing
  {
    it' := it - 1;
    TrailIsTail(s[it']);
    while IsTrail(s[it'])
      invariant start <= it' < it && (IsTrail(s[it']) <==> Tail(s[it']))
      invariant BackTo(s, start, it) == if it' == start || !Tail(s[it']) then it' else BackTo(s, start, it')
      decreases it'
    {
      if it' == start {
        return it', Throws(InvalidUtf8(s[it']));
      }
      it' := it' - 1;
      TrailIsTail(s[it']);
    }
    thrown := Nothing;
  }

  /** Steps back to the nearest lead and reads the character there. */
  method Prior(s: seq<Octet>, it: nat, start: nat) returns (cp: CodePoint, it': nat, thrown: Thrown)
    requires start <= it <= |s|
    ensures it == start ==> thrown == Throws(NotEnoughRoom) && it' == it
    ensures start < it ==> it' == BackTo(s, start, it)
    ensures start < it && Tail(s[it']) ==> thrown == Throws(InvalidUtf8(s[start]))
    ensures start < it && !Tail(s[it']) ==> thrown == NextThrows(s[it'..it])
    ensures thrown.Nothing? ==> HeadLength(s[it'..it]) > 0 && cp == HeadMeaning(s[it'..it])
  {
    cp, it' := 0, it;
    if it == start {
      return cp, it, Throws(NotEnoughRoom);
    }
    it', thrown := BackUp(s, it, start);
    if thrown.Nothing? {
      var after;
      cp, after, thrown := Next(s, it', it);
    }
  }

  /** From any boundary, prior undoes next: it returns to the same position and reads the same character. */
  lemma PriorUndoesNext(s: seq<Octet>, start: nat, p: nat, end: nat)
    requires start <= p < end <= |s| && HeadLength(s[p..end]) > 0
    ensures var q := p + HeadLength(s[p..end]);
      BackTo(s, start, q) == p && !Tail(s[p]) && HeadLength(s[p..q]) == q - p && s[p..q] == s[p..end][..q - p]
  {
    var q := p + HeadLength(s[p..end]);
    var c := s[p..q];
    assert c == s[p..end][..q - p];
    LengthOfChar(c);
    assert c[..|c|] == c;
    HeadIsUnique(c, |c|);
    forall k | p < k < q ensures Tail(s[k]) {
      assert s[k] == c[k - p];
    }
    BackToIs(s, start, p, q);
  }

  lemma {:induction false} BackToIs(s: seq<Octet>, start: nat, p: nat, q: nat)
    requires start <= p < q <= |s| && !Tail(s[p]) && forall k :: p < k < q ==> Tail(s[k])
    ensures BackTo(s, start, q) == p
    decreases q
  {
    if p < q - 1 {
      BackToIs(s, start, p, q - 1);
    }
  }

  /** s is a text followed by one character. */
  ghost predicate EndsIn(s: seq<Octet>, a: seq<Octet>, c: seq<Octet>) {
    s == a + c && WellFormed(a) && Char(c)
  }

  lemma EndsInPrepend(h: seq<Octet>, t: seq<Octet>, b: seq<Octet>, c: seq<Octet>)
    requires WellFormed(h) && EndsIn(t, b, c)
    ensures EndsIn(h + t, h + b, c)
  {
    ConcatWellFormed(h, b);
    Regroup(h, t, b, c);
  }

  lemma Regroup<T>(h: seq<T>, t: seq<T>, b: seq<T>, c: seq<T>)
    requires t == b + c
    ensures h + t == (h + b) + c
  {
  }

  lemma EndsInAlone(h: seq<Octet>)
    requires Char(h)
    ensures EndsIn(h + [], [], h)
  {
    assert h + [] == [] + h;
  }

  /** Every non-empty text ends in a character, with a text before it. */
  lemma {:induction false} LastCharacter(s: seq<Octet>) returns (a: seq<Octet>, c: seq<Octet>)
    requires WellFormed(s) && s != []
    ensures EndsIn(s, a, c)
    decreases |s|
  {
    var h, t := SplitHead(s);
    if t == [] {
      a, c := [], h;
      EndsInAlone(h);
    } else {
      a, c := LastCharacter(t);
      EndsInPrepend(h, t, a, c);
      a := h + a;
    }
  }

  lemma SplitHead(s: seq<Octet>) returns (h: seq<Octet>, t: seq<Octet>)
    requires WellFormed(s) && s != []
    ensures s == h + t && Char(h) && WellFormed(h) && WellFormed(t) && |t| < |s|
  {
    h, t := s[..HeadLength(s)], s[HeadLength(s)..];
    OneChar(h);
  }

  function Reverse<T>(s: seq<T>): (r: seq<T>)
    ensures |r| == |s| && forall i :: 0 <= i < |s| ==> r[i] == s[|s| - 1 - i]
  {
    if s == [] then [] else [s[|s| - 1]] + Reverse(s[..|s| - 1])
  }

  lemma ReverseCons<T>(x: T, a: seq<T>)
    ensures Reverse([x] + a) == Reverse(a) + [x]
  {
  }

  /** In a text, the octets from the nearest lead on are its last character. */
  lemma LastCharacterAt(s: seq<Octet>, start: nat, it: nat) returns (p: nat)
    requires start < it <= |s| && WellFormed(s[start..it])
    ensures start <= p < it && HeadLength(s[p..it]) == it - p && WellFormed(s[start..p])
    ensures !Tail(s[p]) && forall k :: p < k < it ==> Tail(s[k])
    ensures BackTo(s, start, it) == p
  {
    var a, c := LastCharacter(s[start..it]);
    p := start + |a|;
    assert s[start..p] == s[start..it][..|a|] == a;
    assert s[p..it] == s[start..it][|a|..] == c;
    assert c[..|c|] == c;
    HeadIsUnique(c, |c|);
    LengthOfChar(c);
    CharacterEnds(s, start, p, it);
  }

  lemma CharacterEnds(s: seq<Octet>, start: nat, p: nat, it: nat)
    requires start <= p < it <= |s| && Char(s[p..it])
    ensures BackTo(s, start, it) == p
  {
    var c := s[p..it];
    assert c[..|c|] == c;
    HeadIsUnique(c, |c|);
    PriorUndoesNext(s, start, p, it);
  }

  /** A character of n octets at p, and only tails from there to it: a text follows only if none is left over. */
  lemma StrayTails(s: seq<Octet>, p: nat, it: nat, end: nat, n: nat)
    requires p < it <= end <= |s| && n == HeadLength(s[p..it]) > 0 && forall k :: p < k < it ==> Tail(s[k])
    ensures WellFormed(s[p..end]) <==> n == it - p && WellFormed(s[it..end])
  {
    HeadLengthLocal(s, p, it, end);
    assert s[p..end][n..] == s[p + n..end];
    if n < it - p {
      NoHead(s[p + n..end]);
    }
  }

  lemma NoHead(s: seq<Octet>)
    requires |s| > 0 && Tail(s[0])
    ensures HeadLength(s) == 0 && !WellFormed(s)
  {
    if HeadLength(s) > 0 {
      LengthOfChar(s[..HeadLength(s)]);
    }
  }

  lemma HeadEncoded(s: seq<Octet>, cp: CodePoint)
    requires HeadLength(s) > 0 && cp == HeadMeaning(s)
    ensures |Encode(cp)| == HeadLength(s)
  {
    MeaningEncodes(s[..HeadLength(s)]);
  }

  lemma DecodeCons(s: seq<Octet>, p: nat, it: nat, end: nat, cp: CodePoint)
    requires p < it <= end <= |s| && HeadLength(s[p..it]) == it - p && cp == HeadMeaning(s[p..it])
    requires WellFormed(s[it..end])
    ensures WellFormed(s[p..end]) && Decode(s[p..end]) == [cp] + Decode(s[it..end])
  {
    var c := s[p..it];
    assert c[..|c|] == c;
    assert s[p..end] == c + s[it..end];
    HeadOf(c, s[it..end]);
  }

  /** The code points read so far, last one first, against the octets from it to end. */
  ghost predicate ReadSoFar(s: seq<Octet>, it: nat, end: nat, cps: seq<CodePoint>) {
    && it <= end <= |s| && |EncodeAll(cps)| <= end - it
    && (WellFormed(s[it..end]) <==> |EncodeAll(cps)| == end - it)
    && (WellFormed(s[it..end]) ==> cps == Reverse(Decode(s[it..end])))
  }

  lemma ReadOneMore(s: seq<Octet>, p: nat, it: nat, end: nat, cps: seq<CodePoint>, cp: CodePoint)
    requires p < it <= end <= |s| && ReadSoFar(s, it, end, cps) && forall k :: p < k < it ==> Tail(s[k])
    requires HeadLength(s[p..it]) > 0 && cp == HeadMeaning(s[p..it])
    ensures ReadSoFar(s, p, end, cps + [cp])
  {
    var n := HeadLength(s[p..it]);
    EncodeAllAppends(cps, cp);
    HeadEncoded(s[p..it], cp);
    StrayTails(s, p, it, end, n);
    if WellFormed(s[p..end]) {
      DecodeCons(s, p, it, end, cp);
      ReverseCons(cp, Decode(s[it..end]));
    }
  }

  /**
    * The input through which prior walks: cut before every octet that is no tail, each piece begins with
    * a character, which tails that belong to no character may follow.
    */
  predicate LooseBack(s: seq<Octet>, start: nat, end: nat)
    requires start <= end <= |s|
    decreases end
  {
    end == start
    || var p := BackTo(s, start, end); !Tail(s[p]) && HeadLength(s[p..end]) > 0 && LooseBack(s, start, p)
  }

  /** The same, with nothing behind the characters. */
  predicate TightBack(s: seq<Octet>, start: nat, end: nat)
    requires start <= end <= |s|
    decreases end
  {
    end == start
    || var p := BackTo(s, start, end); !Tail(s[p]) && HeadLength(s[p..end]) == end - p && TightBack(s, start, p)
  }

  /** A text is an input of that kind in which every piece is just a character. */
  lemma {:induction false} TextIsTight(s: seq<Octet>, start: nat, end: nat)
    requires start <= end <= |s|
    ensures WellFormed(s[start..end]) <==> TightBack(s, start, end)
    ensures TightBack(s, start, end) ==> LooseBack(s, start, end)
    decreases end
  {
    if start < end {
      var p := BackTo(s, start, end);
      TextIsTight(s, start, p);
      if WellFormed(s[start..end]) {
        var last := LastCharacterAt(s, start, end);
      } else if TightBack(s, start, end) {
        OneCharacterMore(s, start, p, end);
      }
    }
  }

  lemma OneCharacterMore(s: seq<Octet>, start: nat, p: nat, end: nat)
    requires start <= p < end <= |s| && WellFormed(s[start..p]) && HeadLength(s[p..end]) == end - p
    ensures WellFormed(s[start..end])
  {
    Slices(s, p, end, end);
    Extend(s, start, p, end);
  }

  /**
    * When prior succeeds, what it has read ends where it started if and only if some character ends
    * there: a condition on the octets before the call.
    */
  lemma PriorReadsTheCharacter(s: seq<Octet>, start: nat, it: nat)
    requires start < it <= |s| && !Tail(s[BackTo(s, start, it)]) && HeadLength(s[BackTo(s, start, it)..it]) > 0
    ensures (exists q :: start <= q < it && Char(s[q..it])) <==>
      HeadLength(s[BackTo(s, start, it)..it]) == it - BackTo(s, start, it)
  {
    var p := BackTo(s, start, it);
    if q :| start <= q < it && Char(s[q..it]) {
      CharacterEnds(s, start, q, it);
      Slices(s, q, it, it);
      HeadIsUnique(s[q..it], it - q);
    }
    if HeadLength(s[p..it]) == it - p {
      Slices(s, p, it, it);
    }
  }

  /** One call of prior in the walk. */
  lemma LooseStep(s: seq<Octet>, start: nat, it: nat, p: nat, thrown: Thrown)
    requires start < it <= |s| && p == BackTo(s, start, it)
    requires Tail(s[p]) ==> thrown.Throws?
    requires !Tail(s[p]) ==> thrown == NextThrows(s[p..it])
    ensures LooseBack(s, start, it) <==> thrown.Nothing? && LooseBack(s, start, p)
  {
    FaultExact(s[p..it]);
  }

  /**
    * Calls prior from end back to start. It succeeds exactly on the inputs of LooseBack. On a text it
    * reads the code points of utf8to32 in reverse; on any other input on which it succeeds, the code points
    * read encode to fewer octets than there are.
    */
  method ReadBackwards(s: seq<Octet>, start: nat, end: nat) returns (cps: seq<CodePoint>, thrown: Thrown)
    requires start <= end <= |s|
    ensures WellFormed(s[start..end]) ==> thrown.Nothing? && cps == Reverse(Decode(s[start..end]))
    ensures thrown.Nothing? <==> LooseBack(s, start, end)
    ensures thrown.Nothing? ==> (WellFormed(s[start..end]) <==> |EncodeAll(cps)| == end - start)
  {
    var it := end;
    cps, thrown := [], Nothing;
    assert s[end..end] == [];
    TextIsTight(s, start, end);
    while it != start
      invariant start <= it <= end && thrown.Nothing? && ReadSoFar(s, it, end, cps)
      invariant LooseBack(s, start, end) <==> LooseBack(s, start, it)
      decreases it
    {
      var cp, p;
      cp, p, thrown := Prior(s, it, start);
      LooseStep(s, start, it, p, thrown);
      if thrown.Throws? {
        return;
      }
      ReadOneMore(s, p, it, end, cps, cp);
      cps, it := cps + [cp], p;
    }
  }

  /** The shortest input on which prior succeeds and the text is ill-formed: a letter and a tail. */
  lemma PriorSkipsStrayTail()
    ensures var s: seq<Octet> := [0x41, 0x80];
      BackTo(s, 0, 2) == 0 && HeadLength(s[0..2]) == 1 && !WellFormed(s)
  {
    var s: seq<Octet> := [0x41, 0x80];
    assert Tail(s[1]) && s[0..2] == s;
    assert Char(s[..1]);
    HeadIsUnique(s, 1);
    NoHead(s[1..]);
  }
}
