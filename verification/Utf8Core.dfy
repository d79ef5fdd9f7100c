/** utf8/core.h: the validator, by the octet arithmetic of the source, and what it accepts and reports. */
module Utf8Core {
  import opened Rfc3629
  import opened Utf8Text

  datatype UtfError =
    | UTF8_OK | NOT_ENOUGH_ROOM | INVALID_LEAD | INCOMPLETE_SEQUENCE | OVERLONG_SEQUENCE | INVALID_CODE_POINT

  const LEAD_SURROGATE_MIN: bv32 := 0xd800
  const TRAIL_SURROGATE_MIN: bv32 := 0xdc00
  const TRAIL_SURROGATE_MAX: bv32 := 0xdfff
  const CODE_POINT_MAX: bv32 := 0x0010ffff

  predicate IsTrail(o: Octet) {
    o >> 6 == 0x2
  }

  predicate IsSurrogate(cp: CodePoint) {
    cp >= LEAD_SURROGATE_MIN && cp <= TRAIL_SURROGATE_MAX
  }

  predicate IsCodePointValid(cp: CodePoint) {
    cp <= CODE_POINT_MAX && !IsSurrogate(cp)
  }

  function SequenceLength(lead: Octet): nat {
    if lead < 0x80 then 1
    else if lead >> 5 == 0x6 then 2
    else if lead >> 4 == 0xe then 3
    else if lead >> 3 == 0x1e then 4
    else 0
  }

  predicate IsOverlongSequence(cp: CodePoint, length: nat) {
    if cp < 0x80 then length != 1
    else if cp < 0x800 then length != 2
    else if cp < 0x10000 then length != 3
    else false
  }

  // The code point arithmetic of get_sequence_2, 3 and 4, one statement at a time.

  function Part2(a: Octet, b: Octet): CodePoint {
    (((a as bv32) << 6) & 0x7ff) + ((b as bv32) & 0x3f)
  }

  function Part3(a: Octet, b: Octet): CodePoint {
    (((a as bv32) << 12) & 0xffff) + (((b as bv32) << 6) & 0xfff)
  }

  function Part4(a: Octet, b: Octet): CodePoint {
    (((a as bv32) << 18) & 0x1fffff) + (((b as bv32) << 12) & 0x3ffff)
  }

  function AddMiddle(cp: CodePoint, o: Octet): CodePoint {
    cp + (((o as bv32) << 6) & 0xfff)
  }

  function AddLast(cp: CodePoint, o: Octet): CodePoint {
    cp + ((o as bv32) & 0x3f)
  }

  /** The code point that get_sequence_n has computed in the end. */
  function RawValue(c: seq<Octet>): CodePoint
    requires 1 <= |c| <= 4
  {
    if |c| == 1 then c[0] as bv32
    else if |c| == 2 then Part2(c[0], c[1])
    else if |c| == 3 then AddLast(Part3(c[0], c[1]), c[2])
    else AddLast(AddMiddle(Part4(c[0], c[1]), c[2]), c[3])
  }

  // ------ what is wrong with the head of a string, octet by octet ------------------------------

  /** The length announced by the leading ones of an octet, or 0. */
  function Announced(a: Octet): nat {
    if a <= 0x7f then 1
    else if 0xc0 <= a <= 0xdf then 2
    else if 0xe0 <= a <= 0xef then 3
    else if 0xf0 <= a <= 0xf7 then 4
    else 0
  }

  /** How many tails s begins with, counting to m at most. */
  function Tails(s: seq<Octet>, m: nat): (k: nat)
    ensures k <= m && k <= |s|
    ensures forall i :: 0 <= i < k ==> Tail(s[i])
    ensures k < m && k < |s| ==> !Tail(s[k])
  {
    if m == 0 || s == [] || !Tail(s[0]) then 0 else 1 + Tails(s[1..], m - 1)
  }

  /** A sequence of announced length n lacks tails: the string ends, or something else follows. */
  function TailFault(s: seq<Octet>, n: nat): UtfError
    requires n > 0
  {
    if s == [] then NOT_ENOUGH_ROOM
    else
      var k := Tails(s[1..], n - 1);
      if k == n - 1 then UTF8_OK else if 1 + k == |s| then NOT_ENOUGH_ROOM else INCOMPLETE_SEQUENCE
  }

  /** The octets that start an encoding of a value past U+10FFFF or of a surrogate. */
  predicate StartsNoScalar(s: seq<Octet>)
    requires |s| > 0 && |s| >= Announced(s[0])
  {
    || (s[0] == 0xed && s[1] >= 0xa0)
    || (s[0] == 0xf0 && s[1] == 0x8d && s[2] >= 0xa0)
    || (s[0] == 0xf4 && s[1] >= 0x90)
    || 0xf5 <= s[0] <= 0xf7
  }

  /** The error of the head of a non-empty string: UTF8_OK when a character of the grammar stands there. */
  function Fault(s: seq<Octet>): (e: UtfError)
    requires |s| > 0
  {
    var n := Announced(s[0]);
    if n == 0 then INVALID_LEAD
    else if TailFault(s, n) != UTF8_OK then TailFault(s, n)
    else if StartsNoScalar(s) then INVALID_CODE_POINT
    else if HeadLength(s) == 0 then OVERLONG_SEQUENCE
    else UTF8_OK
  }

  // ------ the arithmetic agrees with the grammar ----------------------------------------------

  lemma TrailIsTail(o: Octet)
    ensures IsTrail(o) <==> Tail(o)
  {
  }

  lemma LengthIsAnnounced(a: Octet)
    ensures SequenceLength(a) == Announced(a)
  {
  }

  lemma Check1(a: Octet, cp: CodePoint)
    requires Announced(a) == 1 && cp == a as bv32
    ensures Char1(a) && IsCodePointValid(cp) && !IsOverlongSequence(cp, 1)
  {
  }

  lemma Check2(a: Octet, b: Octet, cp: CodePoint)
    requires Announced(a) == 2 && Tail(b) && cp == Part2(a, b)
    ensures cp == Bits2(a, b) && IsCodePointValid(cp)
    ensures IsOverlongSequence(cp, 2) <==> !Char2(a, b)
  {
  }

  lemma Check3(a: Octet, b: Octet, c: Octet, cp: CodePoint)
    requires Announced(a) == 3 && Tail(b) && Tail(c) && cp == AddLast(Part3(a, b), c)
    ensures cp == Bits3(a, b, c)
    ensures IsCodePointValid(cp) <==> !(a == 0xed && b >= 0xa0)
    ensures IsCodePointValid(cp) ==> (IsOverlongSequence(cp, 3) <==> !Char3(a, b, c))
    ensures Char3(a, b, c) ==> IsCodePointValid(cp)
  {
  }

  lemma Check4(a: Octet, b: Octet, c: Octet, d: Octet, cp: CodePoint)
    requires Announced(a) == 4 && Tail(b) && Tail(c) && Tail(d) && cp == AddLast(AddMiddle(Part4(a, b), c), d)
    ensures cp == Bits4(a, b, c, d)
    ensures IsCodePointValid(cp) <==> !((a == 0xf4 && b >= 0x90) || a >= 0xf5 || (a == 0xf0 && b == 0x8d && c >= 0xa0))
    ensures IsCodePointValid(cp) ==> (IsOverlongSequence(cp, 4) <==> !Char4(a, b, c, d))
    ensures Char4(a, b, c, d) ==> IsCodePointValid(cp)
  {
  }

  lemma LeadIsAnnounced(a: Octet)
    ensures LeadLength(a) != 0 ==> LeadLength(a) == Announced(a)
  {
  }

  /** No fault means a character, and the other way round. */
  lemma FaultExact(s: seq<Octet>)
    requires |s| > 0
    ensures Fault(s) == UTF8_OK <==> HeadLength(s) > 0
  {
    var n := HeadLength(s);
    if n > 0 {
      HeadHasNoFault(s, s[..n]);
    }
  }

  lemma HeadHasNoFault(s: seq<Octet>, c: seq<Octet>)
    requires HeadLength(s) > 0 && c == s[..HeadLength(s)]
    ensures Fault(s) == UTF8_OK
  {
    LengthOfChar(c);
    LeadIsAnnounced(s[0]);
    assert forall k :: 0 < k < |c| ==> Tail(s[k]);
    NoScalarIsNoChar(s);
  }

  lemma NoScalarIsNoChar(s: seq<Octet>)
    requires |s| > 0 && HeadLength(s) > 0 && HeadLength(s) == Announced(s[0])
    ensures !StartsNoScalar(s)
  {
  }

  // ------ the procedures of core.h ------------------------------------------------------------
  // An iterator is an index into the octets s; one passed by reference is returned with its new value.

  /** Moves to the next octet and tells whether a tail stands there. */
  method IncreaseSafely(s: seq<Octet>, it: nat, end: nat) returns (err: UtfError, it': nat)
    requires it < end <= |s|
    ensures it' == it + 1
    ensures err == if it' == end then NOT_ENOUGH_ROOM else if Tail(s[it']) then UTF8_OK else INCOMPLETE_SEQUENCE
  {
    it' := it + 1;
    if it' == end {
      return NOT_ENOUGH_ROOM, it';
    }
    TrailIsTail(s[it']);
    if !IsTrail(s[it']) {
      return INCOMPLETE_SEQUENCE, it';
    }
    err := UTF8_OK;
  }

  method GetSequence1(s: seq<Octet>, it: nat, end: nat) returns (err: UtfError, it': nat, codePoint: CodePoint)
    requires it <= end <= |s|
    ensures it' == it && err == TailFault(s[it..end], 1)
    ensures err == UTF8_OK ==> codePoint == s[it] as bv32
  {
    it', codePoint := it, 0;
    if it == end {
      return NOT_ENOUGH_ROOM, it', codePoint;
    }
    codePoint := s[it] as bv32;
    err := UTF8_OK;
  }

  lemma TailFaultAt(s: seq<Octet>, it: nat, end: nat, n: nat, k: nat)
    requires it < end <= |s| && 0 < k < n && it + k <= end
    requires forall i :: it < i < it + k ==> Tail(s[i])
    requires it + k < end ==> !Tail(s[it + k])
    ensures TailFault(s[it..end], n) == if it + k == end then NOT_ENOUGH_ROOM else INCOMPLETE_SEQUENCE
  {
    assert s[it..end][1..] == s[it + 1..end];
    TailsAre(s[it + 1..end], n - 1, k - 1);
  }

  lemma NoTailFault(s: seq<Octet>, it: nat, end: nat, n: nat)
    requires 0 < n && it + n <= end <= |s|
    requires forall i :: it < i < it + n ==> Tail(s[i])
    ensures TailFault(s[it..end], n) == UTF8_OK
  {
    assert s[it..end][1..] == s[it + 1..end];
    TailsAre(s[it + 1..end], n - 1, n - 1);
  }

  lemma {:induction false} TailsAre(t: seq<Octet>, m: nat, k: nat)
    requires k <= m && k <= |t| && forall i :: 0 <= i < k ==> Tail(t[i])
    requires k < m && k < |t| ==> !Tail(t[k])
    ensures Tails(t, m) == k
  {
    if k > 0 {
      assert Tail(t[0]);
      TailsAre(t[1..], m - 1, k - 1);
    }
  }

  method GetSequence2(s: seq<Octet>, it: nat, end: nat) returns (err: UtfError, it': nat, codePoint: CodePoint)
    requires it <= end <= |s|
    ensures err == TailFault(s[it..end], 2)
    ensures err == UTF8_OK ==> it' == it + 1 < end && codePoint == Part2(s[it], s[it + 1])
  {
    it', codePoint := it, 0;
    if it == end {
      return NOT_ENOUGH_ROOM, it', codePoint;
    }
    var lead := s[it'];
    err, it' := IncreaseSafely(s, it', end);
    if err != UTF8_OK {
      TailFaultAt(s, it, end, 2, 1);
      return;
    }
    codePoint := Part2(lead, s[it']);
    NoTailFault(s, it, end, 2);
  }

  method GetSequence3(s: seq<Octet>, it: nat, end: nat) returns (err: UtfError, it': nat, codePoint: CodePoint)
    requires it <= end <= |s|
    ensures err == TailFault(s[it..end], 3)
    ensures err == UTF8_OK ==> it' == it + 2 < end && codePoint == AddLast(Part3(s[it], s[it + 1]), s[it + 2])
  {
    it', codePoint := it, 0;
    if it == end {
      return NOT_ENOUGH_ROOM, it', codePoint;
    }
    var lead := s[it'];
    err, it' := IncreaseSafely(s, it', end);
    if err != UTF8_OK {
      TailFaultAt(s, it, end, 3, 1);
      return;
    }
    codePoint := Part3(lead, s[it']);
    err, it' := IncreaseSafely(s, it', end);
    if err != UTF8_OK {
      TailFaultAt(s, it, end, 3, 2);
      return;
    }
    codePoint := AddLast(codePoint, s[it']);
    NoTailFault(s, it, end, 3);
  }

  method GetSequence4(s: seq<Octet>, it: nat, end: nat) returns (err: UtfError, it': nat, codePoint: CodePoint)
    requires it <= end <= |s|
    ensures err == TailFault(s[it..end], 4)
    ensures err == UTF8_OK ==> it' == it + 3 < end
    ensures err == UTF8_OK ==> codePoint == AddLast(AddMiddle(Part4(s[it], s[it + 1]), s[it + 2]), s[it + 3])
  {
    it', codePoint := it, 0;
    if it == end {
      return NOT_ENOUGH_ROOM, it', codePoint;
    }
    var lead := s[it'];
    err, it' := IncreaseSafely(s, it', end);
    if err != UTF8_OK {
      TailFaultAt(s, it, end, 4, 1);
      return;
    }
    codePoint := Part4(lead, s[it']);
    err, it' := IncreaseSafely(s, it', end);
    if err != UTF8_OK {
      TailFaultAt(s, it, end, 4, 2);
      return;
    }
    codePoint := AddMiddle(codePoint, s[it']);
    err, it' := IncreaseSafely(s, it', end);
    if err != UTF8_OK {
      TailFaultAt(s, it, end, 4, 3);
      return;
    }
    codePoint := AddLast(codePoint, s[it']);
    NoTailFault(s, it, end, 4);
  }

  /** With all tails there, the two value checks leave exactly the characters, and read their meaning. */
  lemma ValueChecks(s: seq<Octet>, n: nat, cp: CodePoint)
    requires |s| >= n > 0 && n == Announced(s[0]) && TailFault(s, n) == UTF8_OK && cp == RawValue(s[..n])
    ensures Fault(s) ==
      if !IsCodePointValid(cp) then INVALID_CODE_POINT
      else if IsOverlongSequence(cp, n) then OVERLONG_SEQUENCE else UTF8_OK
    ensures Fault(s) == UTF8_OK ==> HeadLength(s) == n && cp == HeadMeaning(s)
  {
    FaultExact(s);
    assert forall i :: 0 <= i < n - 1 ==> Tail(s[1..][i]);
    assert forall i :: 0 < i < n ==> Tail(s[i]) by {
      forall i | 0 < i < n ensures Tail(s[i]) {
        assert s[1..][i - 1] == s[i];
      }
    }
    if n == 1 {
      Check1(s[0], cp);
    } else if n == 2 {
      Check2(s[0], s[1], cp);
    } else if n == 3 {
      Check3(s[0], s[1], s[2], cp);
    } else {
      Check4(s[0], s[1], s[2], s[3], cp);
    }
  }

  /** Reads one character: passes it, or reports its fault and stays; codePoint changes only on success. */
  method ValidateNext(s: seq<Octet>, it: nat, end: nat, codePoint: CodePoint)
    returns (err: UtfError, it': nat, codePoint': CodePoint)
    requires it < end <= |s|
    ensures err == Fault(s[it..end])
    ensures err == UTF8_OK <==> HeadLength(s[it..end]) > 0
    ensures err == UTF8_OK ==>
      it' == it + HeadLength(s[it..end]) <= end && codePoint' == HeadMeaning(s[it..end])
    ensures err != UTF8_OK ==> it' == it && codePoint' == codePoint
  {
    codePoint' := codePoint;
    it' := it;
    var cp: CodePoint := 0;
    var length := SequenceLength(s[it]);
    LengthIsAnnounced(s[it]);
    ghost var t := s[it..end];
    FaultExact(t);
    match length {
      case 0 => return INVALID_LEAD, it, codePoint;
      case 1 => err, it', cp := GetSequence1(s, it', end);
      case 2 => err, it', cp := GetSequence2(s, it', end);
      case 3 => err, it', cp := GetSequence3(s, it', end);
      case _ => err, it', cp := GetSequence4(s, it', end);
    }
    assert err == TailFault(t, length);
    if err == UTF8_OK {
      assert cp == RawValue(t[..length]) && it' == it + length - 1;
      ValueChecks(t, length, cp);
      if IsCodePointValid(cp) {
        if !IsOverlongSequence(cp, length) {
          codePoint' := cp;
          it' := it' + 1;
          return;
        } else {
          err := OVERLONG_SEQUENCE;
        }
      } else {
        err := INVALID_CODE_POINT;
      }
    }
    it' := it;
  }

  /** The end of the longest well-formed prefix. */
  method FindInvalid(s: seq<Octet>, start: nat, end: nat) returns (result: nat)
    requires start <= end <= |s|
    ensures start <= result <= end && WellFormed(s[start..result])
    ensures forall q :: start <= q <= end && WellFormed(s[start..q]) ==> q <= result
    ensures result == end || Fault(s[result..end]) != UTF8_OK
  {
    result := start;
    while result != end
      invariant start <= result <= end && WellFormed(s[start..result])
      decreases end - result
    {
      var err, it, cp := ValidateNext(s, result, end, 0);
      if err != UTF8_OK {
        LongestPrefix(s, start, result, end);
        return;
      }
      ExtendByHead(s, start, result, end, cp);
      result := it;
    }
  }

  lemma LongestPrefix(s: seq<Octet>, start: nat, r: nat, end: nat)
    requires start <= r < end <= |s| && WellFormed(s[start..r]) && HeadLength(s[r..end]) == 0
    ensures forall q :: start <= q <= end && WellFormed(s[start..q]) ==> q <= r
  {
    forall q | start <= q <= end && WellFormed(s[start..q]) ensures q <= r {
      if r < q {
        Split(s, start, r, q);
        HeadLengthLocal(s, r, q, end);
      }
    }
  }

  /** is_valid holds exactly for the concatenations of characters of RFC 3629. */
  method IsValid(s: seq<Octet>, start: nat, end: nat) returns (valid: bool)
    requires start <= end <= |s|
    ensures valid <==> WellFormed(s[start..end])
  {
    var r := FindInvalid(s, start, end);
    valid := r == end;
  }
}
