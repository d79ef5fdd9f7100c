/**
  * utf8/unchecked.h: the same operations without checks. On text they return what the checked forms return.
  * A precondition says only that the octets read lie in the buffer, or that the whole range is text.
  */
module Utf8Unchecked {
  import opened Rfc3629
  import opened Rfc2781
  import opened Utf8Text
  import opened Utf16Text
  import opened Utf8Core
  import Utf8Checked
  import Utf8Conversions

  /** Appends the octets of a value, scalar or not. */
  method Append(cp: CodePoint, result: seq<Octet>) returns (result': seq<Octet>)
    ensures result' == result + Encode(cp)
  {
    result' := result;
    if cp < 0x80 {
      result' := result' + [Low8(cp)];
    } else if cp < 0x800 {
      result' := result' + [Low8((cp >> 6) | 0xc0)];
      result' := result' + [Low8((cp & 0x3f) | 0x80)];
    } else if cp < 0x10000 {
      result' := result' + [Low8((cp >> 12) | 0xe0)];
      result' := result' + [Low8(((cp >> 6) & 0x3f) | 0x80)];
      result' := result' + [Low8((cp & 0x3f) | 0x80)];
    } else {
      result' := result' + [Low8((cp >> 18) | 0xf0)];
      result' := result' + [Low8(((cp >> 12) & 0x3f) | 0x80)];
      result' := result' + [Low8(((cp >> 6) & 0x3f) | 0x80)];
      result' := result' + [Low8((cp & 0x3f) | 0x80)];
    }
  }

  /** How far `next` moves: past the announced sequence, or past an octet that announces none. */
  function Step(lead: Octet): nat {
    if SequenceLength(lead) == 0 then 1 else SequenceLength(lead)
  }

  /** Reads as many octets as the lead announces, whatever they are. */
  method Next(s: seq<Octet>, it: nat) returns (cp: CodePoint, it': nat)
    requires it < |s| && it + Step(s[it]) <= |s|
    ensures it' == it + Step(s[it])
    ensures cp == RawValue(s[it..it'])
  {
    var length := SequenceLength(s[it]);
    match length {
      case 2 => cp, it' := Next2(s, it);
      case 3 => cp, it' := Next3(s, it);
      case 4 => cp, it' := Next4(s, it);
      case _ => cp, it' := s[it] as bv32, it;
    }
    it' := it' + 1;
  }

  // The cases of next: each stands on its last octet afterwards.

  method Next2(s: seq<Octet>, it: nat) returns (cp: CodePoint, it': nat)
    requires it + 2 <= |s|
    ensures it' == it + 1 && cp == RawValue(s[it..it + 2])
  {
    it' := it + 1;
    cp := Part2(s[it], s[it']);
  }

  method Next3(s: seq<Octet>, it: nat) returns (cp: CodePoint, it': nat)
    requires it + 3 <= |s|
    ensures it' == it + 2 && cp == RawValue(s[it..it + 3])
  {
    it' := it + 1;
    cp := Part3(s[it], s[it']);
    it' := it' + 1;
    cp := AddLast(cp, s[it']);
  }

  method Next4(s: seq<Octet>, it: nat) returns (cp: CodePoint, it': nat)
    requires it + 4 <= |s|
    ensures it' == it + 3 && cp == RawValue(s[it..it + 4])
  {
    it' := it + 1;
    cp := Part4(s[it], s[it']);
    it' := it' + 1;
    cp := AddMiddle(cp, s[it']);
    it' := it' + 1;
    cp := AddLast(cp, s[it']);
  }

  /** On a character the announced length and the unchecked arithmetic are its own. */
  lemma ReadsCharacter(s: seq<Octet>, it: nat, end: nat)
    requires it < end <= |s| && HeadLength(s[it..end]) > 0
    ensures Step(s[it]) == HeadLength(s[it..end]) && it + Step(s[it]) <= end
    ensures RawValue(s[it..it + Step(s[it])]) == HeadMeaning(s[it..end])
  {
    var t := s[it..end];
    var n := HeadLength(t);
    Slices(s, it, it + n, end);
    LengthOfChar(t[..n]);
    LeadIsAnnounced(t[0]);
    LengthIsAnnounced(t[0]);
    HeadHasNoFault(t, t[..n]);
    ValueChecks(t, n, RawValue(t[..n]));
  }

  /** next on a character: its length and meaning. */
  method NextCharacter(s: seq<Octet>, it: nat, ghost end: nat) returns (cp: CodePoint, it': nat)
    requires it < end <= |s| && HeadLength(s[it..end]) > 0
    ensures it' == it + HeadLength(s[it..end]) <= end && cp == HeadMeaning(s[it..end])
  {
    ReadsCharacter(s, it, end);
    cp, it' := Next(s, it);
  }

  /** p is the nearest octet before it that is not a tail. */
  predicate LeadBefore(s: seq<Octet>, it: nat, p: nat) {
    p < it <= |s| && !Tail(s[p]) && forall k :: p < k < it ==> Tail(s[k])
  }

  /** Moves back to the nearest octet that is not a tail. */
  method BackUp(s: seq<Octet>, it: nat, ghost p: nat) returns (it': nat)
    requires LeadBefore(s, it, p)
    ensures it' == p
  {
    it' := it - 1;
    TrailIsTail(s[it']);
    while IsTrail(s[it'])
      invariant p <= it' < it && (IsTrail(s[it']) <==> Tail(s[it']))
      invariant forall k :: it' < k < it ==> Tail(s[k])
      decreases it'
    {
      it' := it' - 1;
      TrailIsTail(s[it']);
    }
  }

  /** Moves back to the nearest octet that is not a tail, and reads what it announces, which the buffer holds. */
  method Prior(s: seq<Octet>, it: nat, ghost p: nat) returns (cp: CodePoint, it': nat)
    requires LeadBefore(s, it, p) && p + Step(s[p]) <= |s|
    ensures it' == p && cp == RawValue(s[p..p + Step(s[p])])
  {
    it' := BackUp(s, it, p);
    var temp;
    cp, temp := Next(s, it');
  }

  method Advance(s: seq<Octet>, it: nat, n: nat, ghost end: nat) returns (it': nat)
    requires it <= end <= |s| && WellFormed(s[it..end]) && n <= |Decode(s[it..end])|
    ensures it <= it' <= end && WellFormed(s[it..it']) && |Decode(s[it..it'])| == n
  {
    it' := it;
    for i := 0 to n
      invariant it <= it' <= end && WellFormed(s[it..it']) && |Decode(s[it..it'])| == i
      invariant WellFormed(s[it'..end]) && i + |Decode(s[it'..end])| == |Decode(s[it..end])|
    {
      Split(s, it, it', end);
      var cp, next := Read(s, it, it', end);
      Split(s, it, next, end);
      it' := next;
    }
  }

  method Distance(s: seq<Octet>, first: nat, last: nat) returns (dist: nat)
    requires first <= |s| && last <= |s| && (first < last ==> WellFormed(s[first..last]))
    ensures dist == if first < last then |Decode(s[first..last])| else 0
  {
    var it := first;
    dist := 0;
    while it < last
      invariant first < last ==> first <= it <= last && WellFormed(s[first..it]) && dist == |Decode(s[first..it])|
      invariant first < last ==> WellFormed(s[it..last])
      invariant last <= first ==> it == first && dist == 0
      decreases last - it
    {
      var cp, next := Read(s, first, it, last);
      it := next;
      dist := dist + 1;
    }
  }

  /** Reads the next character of a text, of which the part from start to it has been read. */
  method Read(s: seq<Octet>, ghost start: nat, it: nat, ghost end: nat) returns (cp: CodePoint, it': nat)
    requires start <= it < end <= |s| && WellFormed(s[start..it]) && WellFormed(s[it..end])
    ensures it < it' <= end && WellFormed(s[start..it']) && WellFormed(s[it'..end])
    ensures Scalar(cp) && Decode(s[start..it']) == Decode(s[start..it]) + [cp]
  {
    HasHead(s[it..end]);
    cp, it' := NextCharacter(s, it, end);
    ExtendByHead(s, start, it, end, cp);
  }

  // ------ conversions -------------------------------------------------------------------------

  method Utf32To8(u32: seq<CodePoint>, result: seq<Octet>) returns (result': seq<Octet>)
    ensures result' == result + EncodeAll(u32)
  {
    result' := result;
    var start := 0;
    assert result == result + EncodeAll(u32[..0]);
    while start != |u32|
      invariant start <= |u32| && result' == result + EncodeAll(u32[..start])
      decreases |u32| - start
    {
      result' := Append(u32[start], result');
      assert u32[..start + 1] == u32[..start] + [u32[start]];
      EncodeAllAppends(u32[..start], u32[start]);
      Utf8Conversions.Regroup(result, EncodeAll(u32[..start]), Encode(u32[start]));
      start := start + 1;
    }
    assert u32[..|u32|] == u32;
  }

  method Utf8To32(s: seq<Octet>, start: nat, end: nat, result: seq<CodePoint>) returns (result': seq<CodePoint>)
    requires start <= end <= |s| && WellFormed(s[start..end])
    ensures result' == result + Decode(s[start..end])
  {
    var it := start;
    result' := result;
    assert result == result + Decode(s[start..start]);
    while it < end
      invariant start <= it <= end && WellFormed(s[start..it]) && WellFormed(s[it..end])
      invariant result' == result + Decode(s[start..it])
      decreases end - it
    {
      var cp, next := Read(s, start, it, end);
      Utf8Conversions.Regroup(result, Decode(s[start..it]), [cp]);
      result' := result' + [cp];
      it := next;
    }
  }

  method Utf8To16(s: seq<Octet>, start: nat, end: nat, result: seq<Unit>) returns (result': seq<Unit>)
    requires start <= end <= |s| && WellFormed(s[start..end])
    ensures result' == result + EncodeAll16(Decode(s[start..end]))
  {
    var it := start;
    result' := result;
    assert result == result + EncodeAll16(Decode(s[start..start]));
    while it < end
      invariant start <= it <= end && WellFormed(s[start..it]) && WellFormed(s[it..end])
      invariant result' == result + EncodeAll16(Decode(s[start..it]))
      decreases end - it
    {
      var cp, next := Read(s, start, it, end);
      ghost var read := Decode(s[start..it]);
      result' := Utf8Conversions.PutUnits(cp, result');
      EncodeAll16Appends(read, cp);
      Utf8Conversions.Regroup(result, EncodeAll16(read), Units(cp));
      it := next;
    }
  }

  /** A lead surrogate takes the next unit along, whatever it is. */
  method TakePair(u: seq<Unit>, start: nat) returns (cp: CodePoint)
    requires start + 1 < |u| && LeadUnit(u[start])
    ensures UnitLength(u[start..]) > 0 ==> UnitLength(u[start..]) == 2 && cp == UnitMeaning(u[start..])
  {
    Utf8Conversions.Suffix(u, start);
    cp := Utf8Conversions.Joined(u[start] as bv32, u[start + 1] as bv32);
    if TrailUnit(u[start + 1]) {
      Utf8Conversions.JoinedMeans(u[start], u[start + 1], cp);
      Utf8Conversions.HeadPair(u[start..], cp);
    }
  }

  /** A unit that is no lead surrogate stands for itself, whatever it is. */
  lemma SingleUnit(u: seq<Unit>, start: nat, cp: CodePoint)
    requires start < |u| && !LeadUnit(u[start]) && cp == u[start] as bv32
    ensures UnitLength(u[start..]) > 0 ==> UnitLength(u[start..]) == 1 && cp == UnitMeaning(u[start..])
  {
    Utf8Conversions.Suffix(u, start);
    if !TrailUnit(u[start]) {
      Utf8Conversions.HeadSingle(u[start..], cp);
    }
  }

  /** One turn of the loop of utf16to8. */
  method TakeUnits(u: seq<Unit>, start: nat) returns (cp: CodePoint, start': nat)
    requires start < |u| && (LeadUnit(u[start]) ==> start + 1 < |u|)
    ensures start' == if LeadUnit(u[start]) then start + 2 else start + 1
    ensures UnitLength(u[start..]) > 0 ==> start' == start + UnitLength(u[start..]) && cp == UnitMeaning(u[start..])
  {
    ghost var t := u[start..];
    if LeadUnit(u[start]) {
      cp := TakePair(u, start);
      start' := start + 2;
    } else {
      cp := u[start] as bv32;
      SingleUnit(u, start, cp);
      start' := start + 1;
    }
  }

  lemma HeadUnits(u: seq<Unit>, start: nat)
    requires start < |u| && WellFormed16(u[start..])
    ensures UnitLength(u[start..]) > 0 && (LeadUnit(u[start]) ==> start + 1 < |u|)
  {
  }

  /** Reads the next character of a UTF-16 text. */
  method Read16(u: seq<Unit>, start: nat) returns (cp: CodePoint, start': nat)
    requires start < |u| && WellFormed16(u[..start]) && WellFormed16(u[start..])
    ensures start < start' <= |u| && WellFormed16(u[..start']) && WellFormed16(u[start'..])
    ensures EncodeAll(Decode16(u[..start'])) == EncodeAll(Decode16(u[..start])) + Encode(cp)
  {
    HeadUnits(u, start);
    Utf8Conversions.RestUnits(u, start);
    cp, start' := TakeUnits(u, start);
    Utf8Conversions.OneMoreUnit(u, start, UnitLength(u[start..]), cp);
  }

  method Utf16To8(u: seq<Unit>, result: seq<Octet>) returns (result': seq<Octet>)
    requires WellFormed16(u)
    ensures result' == result + EncodeAll(Decode16(u))
  {
    var start := 0;
    result' := result;
    assert result == result + EncodeAll(Decode16(u[..0]));
    assert u[0..] == u;
    while start != |u|
      invariant start <= |u| && WellFormed16(u[..start]) && WellFormed16(u[start..])
      invariant result' == result + EncodeAll(Decode16(u[..start]))
      decreases |u| - start
    {
      ghost var read := EncodeAll(Decode16(u[..start]));
      var cp;
      cp, start := Read16(u, start);
      Utf8Conversions.Regroup(result, read, Encode(cp));
      result' := Append(cp, result');
    }
    assert u[..|u|] == u;
  }

  // ------ agreement with the checked forms ----------------------------------------------------

  /** next, on any character: the same value and position, and the checked form does not throw. */
  method NextAgrees(s: seq<Octet>, it: nat, end: nat)
    returns (cp: CodePoint, it': nat, cpChecked: CodePoint, itChecked: nat, thrown: Utf8Checked.Thrown)
    requires it < end <= |s| && HeadLength(s[it..end]) > 0
    ensures thrown.Nothing? && cp == cpChecked && it' == itChecked
  {
    cp, it' := NextCharacter(s, it, end);
    cpChecked, itChecked, thrown := Utf8Checked.Next(s, it, end);
  }

  /** prior on a text: the last character. */
  method PriorCharacter(s: seq<Octet>, ghost start: nat, it: nat) returns (cp: CodePoint, it': nat)
    requires start < it <= |s| && WellFormed(s[start..it])
    ensures start <= it' < it && it' == Utf8Checked.BackTo(s, start, it) && !Tail(s[it'])
    ensures HeadLength(s[it'..it]) > 0 && cp == HeadMeaning(s[it'..it])
  {
    ghost var p := Utf8Checked.LastCharacterAt(s, start, it);
    ReadsCharacter(s, p, it);
    cp, it' := Prior(s, it, p);
  }

  /** prior, on any non-empty text. */
  method PriorAgrees(s: seq<Octet>, it: nat, start: nat)
    returns (cp: CodePoint, it': nat, cpChecked: CodePoint, itChecked: nat, thrown: Utf8Checked.Thrown)
    requires start < it <= |s| && WellFormed(s[start..it])
    ensures thrown.Nothing? && cp == cpChecked && it' == itChecked
  {
    cp, it' := PriorCharacter(s, start, it);
    FaultExact(s[it'..it]);
    cpChecked, itChecked, thrown := Utf8Checked.Prior(s, it, start);
  }

  /** distance and the conversions from UTF-8 on any text. */
  method TextOperationsAgree(s: seq<Octet>, start: nat, end: nat)
    returns (dist: nat, distChecked: nat, u16: seq<Unit>, u16Checked: seq<Unit>,
             u32: seq<CodePoint>, u32Checked: seq<CodePoint>)
    requires start <= end <= |s| && WellFormed(s[start..end])
    ensures dist == distChecked && u16 == u16Checked && u32 == u32Checked
  {
    var thrown;
    ghost var stop;
    dist := Distance(s, start, end);
    distChecked, thrown := Utf8Conversions.Distance(s, start, end);
    u16 := Utf8To16(s, start, end, []);
    u16Checked, thrown, stop := Utf8Conversions.Utf8To16(s, start, end, []);
    u32 := Utf8To32(s, start, end, []);
    u32Checked, thrown, stop := Utf8Conversions.Utf8To32(s, start, end, []);
  }

  /** utf16to8 on any UTF-16 text, utf32to8 on scalar values. */
  method ConversionsToUtf8Agree(u16: seq<Unit>, u32: seq<CodePoint>)
    returns (a: seq<Octet>, aChecked: seq<Octet>, b: seq<Octet>, bChecked: seq<Octet>)
    requires WellFormed16(u16) && Scalars(u32)
    ensures a == aChecked && b == bChecked
  {
    var thrown;
    ghost var stop;
    a := Utf16To8(u16, []);
    aChecked, thrown, stop := Utf8Conversions.Utf16To8(u16, []);
    assert u16[..|u16|] == u16;
    b := Utf32To8(u32, []);
    bChecked, thrown, stop := Utf8Conversions.Utf32To8(u32, []);
    assert u32[..|u32|] == u32;
  }

  /** advance, by any number of code points that the text has. */
  method AdvanceAgrees(s: seq<Octet>, it: nat, n: nat, end: nat) returns (it': nat, itChecked: nat)
    requires it <= end <= |s| && WellFormed(s[it..end]) && n <= |Decode(s[it..end])|
    ensures it' == itChecked
  {
    it' := Advance(s, it, n, end);
    var thrown;
    itChecked, thrown := Utf8Conversions.Advance(s, it, n, end);
    Split(s, it, itChecked, end);
    Utf8Conversions.PositionIsUnique(s, it, it', itChecked);
  }

  /** The unchecked append differs from the checked one exactly on the values that are no scalar values. */
  method AppendAgrees(cp: CodePoint, result: seq<Octet>) returns (a: seq<Octet>, aChecked: seq<Octet>)
    ensures a == aChecked <==> Scalar(cp)
  {
    a := Append(cp, result);
    var thrown;
    aChecked, thrown := Utf8Checked.Append(cp, result);
    assert |a| > |result|;
  }
}
