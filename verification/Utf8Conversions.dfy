/** The loops of utf8/checked.h: distance, and the conversions between UTF-8, UTF-16 and UTF-32. */
module Utf8Conversions {
  import opened Rfc3629
  import opened Rfc2781
  import opened Utf8Text
  import opened Utf16Text
  import opened Utf8Core
  import opened Utf8Checked

  /** Where the longest well-formed prefix of s ends. */
  ghost predicate StopsAt(s: seq<Octet>, start: nat, end: nat, p: nat) {
    && start <= p <= end <= |s| && WellFormed(s[start..p])
    && (p < end ==> HeadLength(s[p..end]) == 0)
  }

  lemma StopsAtEnd(s: seq<Octet>, start: nat, end: nat, p: nat)
    requires StopsAt(s, start, end, p)
    ensures WellFormed(s[start..end]) <==> p == end
  {
    Split(s, start, p, end);
  }

  lemma NoText(s: seq<Octet>, start: nat, p: nat, end: nat)
    requires start <= p < end <= |s| && WellFormed(s[start..p]) && HeadLength(s[p..end]) == 0
    ensures StopsAt(s, start, end, p) && !WellFormed(s[start..end])
  {
    StopsAtEnd(s, start, end, p);
  }

  /** Reads the next character, of which the part from start to it has been read. */
  method Read(s: seq<Octet>, ghost start: nat, it: nat, end: nat) returns (cp: CodePoint, it': nat, thrown: Thrown)
    requires start <= it < end <= |s| && WellFormed(s[start..it])
    ensures thrown.Nothing? ==> it < it' <= end && WellFormed(s[start..it'])
    ensures thrown.Nothing? ==> Decode(s[start..it']) == Decode(s[start..it]) + [cp] && Scalar(cp)
    ensures thrown.Throws? ==> thrown == NextThrows(s[it..end])
    ensures thrown.Throws? ==> StopsAt(s, start, end, it) && !WellFormed(s[start..end])
  {
    cp, it', thrown := Next(s, it, end);
    if thrown.Throws? {
      NoText(s, start, it, end);
    } else {
      ExtendByHead(s, start, it, end, cp);
    }
  }

  /** The number of code points of a text; anything else throws. */
  method Distance(s: seq<Octet>, first: nat, last: nat) returns (dist: nat, thrown: Thrown)
    requires first <= |s| && last <= |s|
    ensures last <= first ==> thrown.Nothing? && dist == 0
    ensures first < last ==> (thrown.Nothing? <==> WellFormed(s[first..last]))
    ensures first < last && thrown.Nothing? ==> dist == |Decode(s[first..last])|
  {
    var it := first;
    dist, thrown := 0, Nothing;
    while it < last
      invariant first < last ==> first <= it <= last && WellFormed(s[first..it]) && dist == |Decode(s[first..it])|
      invariant last <= first ==> it == first && dist == 0
      invariant thrown.Nothing?
      decreases last - it
    {
      var cp, it';
      cp, it', thrown := Read(s, first, it, last);
      if thrown.Throws? {
        return;
      }
      it := it';
      dist := dist + 1;
    }
  }

  /** Distance adds up over any boundary between texts. */
  lemma DistanceAdds(s: seq<Octet>, i: nat, j: nat, k: nat)
    requires i <= j <= k <= |s| && WellFormed(s[i..j]) && WellFormed(s[j..k])
    ensures WellFormed(s[i..k]) && |Decode(s[i..k])| == |Decode(s[i..j])| + |Decode(s[j..k])|
  {
    Split(s, i, j, k);
  }

  /** Passes n code points, or throws at the first octet that starts no character. */
  method Advance(s: seq<Octet>, it: nat, n: nat, end: nat) returns (it': nat, thrown: Thrown)
    requires it <= end <= |s|
    requires WellFormed(s[it..end]) ==> n <= |Decode(s[it..end])|
    ensures it <= it' <= end && WellFormed(s[it..it'])
    ensures thrown.Nothing? ==> |Decode(s[it..it'])| == n
    ensures thrown.Throws? ==> |Decode(s[it..it'])| < n && it' < end && thrown == NextThrows(s[it'..end])
    ensures thrown.Throws? ==> HeadLength(s[it'..end]) == 0
  {
    it', thrown := it, Nothing;
    for i := 0 to n
      invariant it <= it' <= end && thrown.Nothing?
      invariant WellFormed(s[it..it']) && |Decode(s[it..it'])| == i
    {
      var cp, next;
      cp, next, thrown := Read(s, it, it', end);
      if thrown.Throws? {
        return;
      }
      it' := next;
    }
  }

  /** A text has at most one position after n code points. */
  lemma PositionIsUnique(s: seq<Octet>, i: nat, p: nat, q: nat)
    requires i <= p <= |s| && i <= q <= |s| && WellFormed(s[i..p]) && WellFormed(s[i..q])
    requires |Decode(s[i..p])| == |Decode(s[i..q])|
    ensures p == q
  {
    if p < q {
      Split(s, i, p, q);
    } else if q < p {
      Split(s, i, q, p);
    }
  }

  lemma OneMoreScalar(u32: seq<CodePoint>, k: nat)
    requires k < |u32| && Scalars(u32[..k]) && Scalar(u32[k])
    ensures Scalars(u32[..k + 1]) && EncodeAll(u32[..k + 1]) == EncodeAll(u32[..k]) + Encode(u32[k])
  {
    assert u32[..k + 1] == u32[..k] + [u32[k]];
    EncodeAllAppends(u32[..k], u32[k]);
  }

  /** Appends the characters of scalar values, up to the first value that is none. */
  method Utf32To8(u32: seq<CodePoint>, result: seq<Octet>)
    returns (result': seq<Octet>, thrown: Thrown, ghost stop: nat)
    ensures stop <= |u32| && Scalars(u32[..stop]) && result' == result + EncodeAll(u32[..stop])
    ensures thrown.Nothing? <==> Scalars(u32)
    ensures thrown.Nothing? ==> stop == |u32|
    ensures thrown.Throws? ==> stop < |u32| && !Scalar(u32[stop]) && thrown == Throws(InvalidCodePoint(u32[stop]))
  {
    result', thrown, stop := result, Nothing, 0;
    var start := 0;
    assert result == result + EncodeAll(u32[..0]);
    while start != |u32|
      invariant start == stop <= |u32| && thrown.Nothing?
      invariant Scalars(u32[..stop]) && result' == result + EncodeAll(u32[..stop])
      decreases |u32| - start
    {
      result', thrown := Append(u32[start], result');
      if thrown.Throws? {
        return;
      }
      Regroup(result, EncodeAll(u32[..start]), Encode(u32[start]));
      OneMoreScalar(u32, start);
      start, stop := start + 1, stop + 1;
    }
    assert u32[..|u32|] == u32;
  }

  /** Appends the code points of a text, up to the first octet that starts no character. */
  method Utf8To32(s: seq<Octet>, start: nat, end: nat, result: seq<CodePoint>)
    returns (result': seq<CodePoint>, thrown: Thrown, ghost stop: nat)
    requires start <= end <= |s|
    ensures StopsAt(s, start, end, stop) && result' == result + Decode(s[start..stop])
    ensures thrown.Nothing? <==> stop == end
    ensures thrown.Nothing? <==> WellFormed(s[start..end])
    ensures thrown.Throws? ==> thrown == NextThrows(s[stop..end])
  {
    var it := start;
    result', thrown, stop := result, Nothing, start;
    assert result == result + Decode(s[start..start]);
    while it != end
      invariant start <= it == stop <= end && thrown.Nothing?
      invariant WellFormed(s[start..it]) && result' == result + Decode(s[start..it])
      decreases end - it
    {
      var cp, it';
      cp, it', thrown := Read(s, start, it, end);
      if thrown.Throws? {
        return;
      }
      Regroup(result, Decode(s[start..it]), [cp]);
      result' := result' + [cp];
      it, stop := it', it';
    }
  }

  const LEAD_OFFSET: bv32 := 0xd7c0
  const SURROGATE_OFFSET: bv32 := 0xfca0_2400

  /** The two offsets as the source computes them, the second one modulo 2^32. */
  lemma Offsets()
    ensures LEAD_OFFSET == LEAD_SURROGATE_MIN - (0x10000 >> 10)
    ensures SURROGATE_OFFSET == 0x10000 - (LEAD_SURROGATE_MIN << 10) - TRAIL_SURROGATE_MIN
  {
  }

  lemma PairFromOffsets(cp: CodePoint, lead: Unit, trail: Unit)
    requires 0xffff < cp <= 0x10ffff
    requires lead == Low16((cp >> 10) + LEAD_OFFSET) && trail == Low16((cp & 0x3ff) + TRAIL_SURROGATE_MIN)
    ensures Units(cp) == [lead, trail]
  {
    PairBits(cp, lead, trail);
    Units2(cp, lead, trail);
  }

  lemma PairBits(cp: CodePoint, lead: Unit, trail: Unit)
    requires 0xffff < cp <= 0x10ffff
    requires lead == Low16((cp >> 10) + 0xd7c0) && trail == Low16((cp & 0x3ff) + 0xdc00)
    ensures lead == Low16(0xd800 | ((cp - 0x10000) >> 10)) && trail == Low16(0xdc00 | ((cp - 0x10000) & 0x3ff))
  {
  }

  lemma OffsetJoins(lead: Unit, trail: Unit, cp: CodePoint)
    requires LeadUnit(lead) && TrailUnit(trail)
    requires cp == ((lead as bv32) << 10) + (trail as bv32) + 0xfca0_2400
    ensures cp == PairMeaning(lead, trail)
  {
  }

  /** Appends the UTF-16 units of the code points of a text, up to the first octet that starts no character. */
  method Utf8To16(s: seq<Octet>, start: nat, end: nat, result: seq<Unit>)
    returns (result': seq<Unit>, thrown: Thrown, ghost stop: nat)
    requires start <= end <= |s|
    ensures StopsAt(s, start, end, stop) && result' == result + EncodeAll16(Decode(s[start..stop]))
    ensures thrown.Nothing? <==> stop == end
    ensures thrown.Nothing? <==> WellFormed(s[start..end])
    ensures thrown.Throws? ==> thrown == NextThrows(s[stop..end])
  {
    var it := start;
    result', thrown, stop := result, Nothing, start;
    assert result == result + EncodeAll16(Decode(s[start..start]));
    while it != end
      invariant start <= it == stop <= end && thrown.Nothing?
      invariant WellFormed(s[start..it]) && result' == result + EncodeAll16(Decode(s[start..it]))
      decreases end - it
    {
      var cp, it';
      cp, it', thrown := Read(s, start, it, end);
      if thrown.Throws? {
        return;
      }
      ghost var read := Decode(s[start..it]);
      result' := PutUnits(cp, result');
      EncodeAll16Appends(read, cp);
      Regroup(result, EncodeAll16(read), Units(cp));
      it, stop := it', it';
    }
  }

  /** One turn of the loop of utf8to16: a surrogate pair, or the value itself. */
  method PutUnits(cp: CodePoint, result: seq<Unit>) returns (result': seq<Unit>)
    requires Scalar(cp)
    ensures result' == result + Units(cp)
  {
    result' := result;
    if cp > 0xffff {
      PairFromOffsets(cp, Low16((cp >> 10) + LEAD_OFFSET), Low16((cp & 0x3ff) + TRAIL_SURROGATE_MIN));
      result' := result' + [Low16((cp >> 10) + LEAD_OFFSET)];
      result' := result' + [Low16((cp & 0x3ff) + TRAIL_SURROGATE_MIN)];
    } else {
      Units1(cp, Low16(cp));
      result' := result' + [Low16(cp)];
    }
  }

  /** The unit that utf16to8 reports for an unpaired surrogate at the head of u. */
  function Unpaired(u: seq<Unit>): Unit
    requires |u| > 0
  {
    if LeadUnit(u[0]) && |u| > 1 then u[1] else u[0]
  }

  /** Which unit that is: the trail where one was due, a lead that ends the input, or a trail without a lead. */
  lemma UnpairedUnit(lead: Unit, other: Unit, rest: seq<Unit>)
    requires LeadUnit(lead) && !TrailUnit(other)
    ensures UnitLength([lead, other] + rest) == 0 && Unpaired([lead, other] + rest) == other
    ensures UnitLength([lead]) == 0 && Unpaired([lead]) == lead
  {
  }

  lemma LoneTrail(trail: Unit, rest: seq<Unit>)
    requires TrailUnit(trail)
    ensures UnitLength([trail] + rest) == 0 && Unpaired([trail] + rest) == trail
  {
  }

  /** The sum that joins a surrogate pair, modulo 2^32. */
  function Joined(lead: bv32, trail: bv32): CodePoint {
    (lead << 10) + trail + SURROGATE_OFFSET
  }

  lemma JoinedMeans(lead: Unit, trail: Unit, cp: CodePoint)
    requires LeadUnit(lead) && TrailUnit(trail) && cp == Joined(lead as bv32, trail as bv32)
    ensures cp == PairMeaning(lead, trail) && Scalar(cp)
  {
    OffsetJoins(lead, trail, cp);
    OfPair(cp, lead, trail);
  }

  lemma HeadPair(u: seq<Unit>, cp: CodePoint)
    requires |u| > 1 && LeadUnit(u[0]) && TrailUnit(u[1]) && cp == PairMeaning(u[0], u[1])
    ensures UnitLength(u) == 2 && UnitMeaning(u) == cp
  {
  }

  lemma HeadSingle(u: seq<Unit>, cp: CodePoint)
    requires |u| > 0 && !LeadUnit(u[0]) && !TrailUnit(u[0]) && cp == u[0] as bv32
    ensures UnitLength(u) == 1 && UnitMeaning(u) == cp && Scalar(cp)
  {
    OfSingleUnit(cp, u[0]);
  }

  method Join(lead: Unit, trail: Unit) returns (cp: CodePoint)
    requires LeadUnit(lead) && TrailUnit(trail)
    ensures cp == PairMeaning(lead, trail) && Scalar(cp)
  {
    cp := Joined(lead as bv32, trail as bv32);
    JoinedMeans(lead, trail, cp);
  }

  lemma Suffix(u: seq<Unit>, start: nat)
    requires start < |u|
    ensures u[start..][0] == u[start] && (start + 1 < |u| ==> u[start..][1] == u[start + 1])
  {
  }

  /** The trail surrogate that must follow a lead surrogate at start. */
  method TakeTrail(u: seq<Unit>, start: nat) returns (cp: CodePoint, start': nat, thrown: Thrown)
    requires start < |u| && LeadUnit(u[start])
    ensures thrown.Nothing? <==> UnitLength(u[start..]) > 0
    ensures thrown.Nothing? ==> start' == start + 2 <= |u| && UnitLength(u[start..]) == 2
    ensures thrown.Nothing? ==> cp == UnitMeaning(u[start..]) && Scalar(cp)
    ensures thrown.Throws? ==> thrown == Throws(InvalidUtf16(Unpaired(u[start..])))
  {
    Suffix(u, start);
    cp, start', thrown := 0, start + 1, Nothing;
    if start' == |u| {
      thrown := Throws(InvalidUtf16(u[start]));
    } else {
      var trail := u[start'];
      start' := start' + 1;
      if !TrailUnit(trail) {
        thrown := Throws(InvalidUtf16(trail));
      } else {
        cp := Join(u[start], trail);
        HeadPair(u[start..], cp);
      }
    }
  }

  /** One turn of the loop of utf16to8: the value at the head of u and how many units it took. */
  method TakeUnits(u: seq<Unit>, start: nat) returns (cp: CodePoint, start': nat, thrown: Thrown)
    requires start < |u|
    ensures thrown.Nothing? <==> UnitLength(u[start..]) > 0
    ensures thrown.Nothing? ==> start' == start + UnitLength(u[start..]) <= |u|
    ensures thrown.Nothing? ==> cp == UnitMeaning(u[start..]) && Scalar(cp)
    ensures thrown.Throws? ==> thrown == Throws(InvalidUtf16(Unpaired(u[start..])))
  {
    if LeadUnit(u[start]) {
      cp, start', thrown := TakeTrail(u, start);
    } else {
      cp, start', thrown := u[start] as bv32, start + 1, Nothing;
      if TrailUnit(u[start]) {
        thrown := Throws(InvalidUtf16(u[start]));
      } else {
        HeadSingle(u[start..], cp);
      }
    }
  }

  lemma Regroup<T>(a: seq<T>, b: seq<T>, c: seq<T>)
    ensures (a + b) + c == a + (b + c)
  {
  }

  lemma OneMoreUnit(u: seq<Unit>, k: nat, n: nat, cp: CodePoint)
    requires k < |u| && n == UnitLength(u[k..]) > 0 && WellFormed16(u[..k]) && cp == UnitMeaning(u[k..])
    ensures WellFormed16(u[..k + n]) && EncodeAll(Decode16(u[..k + n])) == EncodeAll(Decode16(u[..k])) + Encode(cp)
  {
    Extend16(u, k, n);
    EncodeAllAppends(Decode16(u[..k]), cp);
  }

  /** Past the part read so far the rest decides. */
  lemma RestUnits(u: seq<Unit>, k: nat)
    requires k < |u| && WellFormed16(u[k..])
    ensures UnitLength(u[k..]) > 0 && WellFormed16(u[k + UnitLength(u[k..])..])
  {
    assert u[k..][UnitLength(u[k..])..] == u[k + UnitLength(u[k..])..];
  }

  /** Reads the next character, of which the part before start has been read. */
  method ReadUnits(u: seq<Unit>, start: nat) returns (cp: CodePoint, start': nat, thrown: Thrown)
    requires start < |u| && WellFormed16(u[..start])
    ensures thrown.Nothing? ==> start < start' <= |u| && WellFormed16(u[..start'])
    ensures thrown.Nothing? ==> EncodeAll(Decode16(u[..start'])) == EncodeAll(Decode16(u[..start])) + Encode(cp)
    ensures thrown.Nothing? ==> Scalar(cp)
    ensures thrown.Throws? ==> !WellFormed16(u[start..]) && thrown == Throws(InvalidUtf16(Unpaired(u[start..])))
    ensures thrown.Nothing? && WellFormed16(u[start..]) ==> WellFormed16(u[start'..])
  {
    cp, start', thrown := TakeUnits(u, start);
    if thrown.Nothing? {
      OneMoreUnit(u, start, UnitLength(u[start..]), cp);
    }
    if WellFormed16(u[start..]) {
      RestUnits(u, start);
    }
  }

  /** Appends the UTF-8 of a UTF-16 text, and throws at the first unpaired surrogate. */
  method Utf16To8(u: seq<Unit>, result: seq<Octet>) returns (result': seq<Octet>, thrown: Thrown, ghost stop: nat)
    ensures stop <= |u| && WellFormed16(u[..stop]) && result' == result + EncodeAll(Decode16(u[..stop]))
    ensures thrown.Nothing? <==> WellFormed16(u)
    ensures thrown.Nothing? ==> stop == |u|
    ensures thrown.Throws? ==> stop < |u| && thrown == Throws(InvalidUtf16(Unpaired(u[stop..])))
  {
    var start := 0;
    result', thrown, stop := result, Nothing, 0;
    assert result == result + EncodeAll(Decode16(u[..0]));
    assert u[0..] == u;
    while start != |u|
      invariant start == stop <= |u| && thrown.Nothing?
      invariant WellFormed16(u[..stop]) && result' == result + EncodeAll(Decode16(u[..stop]))
      invariant WellFormed16(u) ==> WellFormed16(u[stop..])
      decreases |u| - start
    {
      var cp;
      cp, start, thrown := ReadUnits(u, start);
      if thrown.Throws? {
        return;
      }
      Regroup(result, EncodeAll(Decode16(u[..stop])), Encode(cp));
      result', thrown := Append(cp, result');
      stop := start;
    }
    assert u[..|u|] == u;
  }

  // ------ round trips -------------------------------------------------------------------------

  /** utf32to8 undoes utf8to32 on every text, and the other way round on every sequence of scalar values. */
  lemma Utf32RoundTrips(s: seq<Octet>, cps: seq<CodePoint>)
    ensures WellFormed(s) ==> Scalars(Decode(s)) && EncodeAll(Decode(s)) == s
    ensures Scalars(cps) ==> WellFormed(EncodeAll(cps)) && Decode(EncodeAll(cps)) == cps
  {
    if WellFormed(s) {
      DecodeThenEncode(s);
    }
    if Scalars(cps) {
      EncodeThenDecode(cps);
    }
  }

  /** utf16to8 after utf8to16 gives back every UTF-8 text. */
  lemma Utf8Utf16Utf8(s: seq<Octet>)
    requires WellFormed(s)
    ensures WellFormed16(EncodeAll16(Decode(s))) && EncodeAll(Decode16(EncodeAll16(Decode(s)))) == s
  {
    DecodeThenEncode(s);
    EncodeThenDecode16(Decode(s));
  }

  /** utf8to16 after utf16to8 gives back every UTF-16 text. */
  lemma Utf16Utf8Utf16(u: seq<Unit>)
    requires WellFormed16(u)
    ensures WellFormed(EncodeAll(Decode16(u))) && EncodeAll16(Decode(EncodeAll(Decode16(u)))) == u
  {
    DecodeThenEncode16(u);
    EncodeThenDecode(Decode16(u));
  }

  /** The conversions are one to one. */
  lemma ConversionsAreInjective(s: seq<Octet>, t: seq<Octet>)
    requires WellFormed(s) && WellFormed(t)
    requires EncodeAll16(Decode(s)) == EncodeAll16(Decode(t)) || Decode(s) == Decode(t)
    ensures s == t
  {
    Utf8Utf16Utf8(s);
    Utf8Utf16Utf8(t);
    DecodeThenEncode(s);
    DecodeThenEncode(t);
  }

  /** The two conversions run one after the other on a whole text. */
  method ThereAndBack(s: seq<Octet>) returns (back: seq<Octet>, thrown: Thrown)
    ensures thrown.Nothing? <==> WellFormed(s)
    ensures thrown.Nothing? ==> back == s
  {
    var u;
    ghost var stop;
    u, thrown, stop := Utf8To16(s, 0, |s|, []);
    assert s[0..|s|] == s;
    back := [];
    if thrown.Nothing? {
      Utf8Utf16Utf8(s);
      assert u == [] + EncodeAll16(Decode(s)) == EncodeAll16(Decode(s));
      back, thrown, stop := Utf16To8(u, []);
      assert u[..|u|] == u;
    }
  }
}
