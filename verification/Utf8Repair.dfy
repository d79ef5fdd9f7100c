/** replace_invalid of utf8/checked.h: every fault becomes one replacement character. */
module Utf8Repair {
  import opened Rfc3629
  import opened Utf8Text
  import opened Utf8Core
  import opened Utf8Checked
  import opened Utf8Faults

  datatype Outcome = Fixed(out: seq<Octet>) | Fails(exception: Exception)

  function Prepend(a: seq<Octet>, r: Outcome): Outcome {
    if r.Fixed? then Fixed(a + r.out) else r
  }

  /** How many octets one replacement stands for: a stray octet, or a lead with the tails behind it. */
  function Skipped(t: seq<Octet>): (k: nat)
    requires |t| > 0
    ensures 0 < k <= |t|
    ensures forall i :: 0 < i < k ==> Tail(t[i])
  {
    if Fault(t) == INVALID_LEAD then 1 else 1 + Tails(t[1..], |t|)
  }

  /** The text that replace_invalid makes of s, or what it throws. */
  function Repair(s: seq<Octet>, replacement: CodePoint): Outcome
    decreases |s|
  {
    if s == [] then Fixed([])
    else if HeadLength(s) > 0 then Prepend(s[..HeadLength(s)], Repair(s[HeadLength(s)..], replacement))
    else if Fault(s) == NOT_ENOUGH_ROOM then Fails(NotEnoughRoom)
    else if !Scalar(replacement) then Fails(InvalidCodePoint(replacement))
    else Prepend(Encode(replacement), Repair(s[Skipped(s)..], replacement))
  }

  /** s ends in the beginning of a sequence whose lead announces more octets than there are. */
  ghost predicate EndsTruncated(s: seq<Octet>) {
    exists i :: TruncatedAt(s, i)
  }

  ghost predicate TruncatedAt(s: seq<Octet>, i: int) {
    0 <= i < |s| && Announced(s[i]) > |s| - i && forall k :: i < k < |s| ==> Tail(s[k])
  }

  // ------ the procedure -----------------------------------------------------------------------

  /** Copies the octets first .. last. */
  method Copy(s: seq<Octet>, first: nat, last: nat, out: seq<Octet>) returns (out': seq<Octet>)
    requires first <= last <= |s|
    ensures out' == out + s[first..last]
  {
    out' := out;
    var it := first;
    while it != last
      invariant first <= it <= last && out' == out + s[first..it]
      decreases last - it
    {
      out' := out' + [s[it]];
      it := it + 1;
    }
  }

  /** Passes the tails at start. */
  method SkipTrails(s: seq<Octet>, start: nat, end: nat) returns (start': nat)
    requires start <= end <= |s|
    ensures start <= start' <= end && forall i :: start <= i < start' ==> Tail(s[i])
    ensures start' < end ==> !Tail(s[start'])
  {
    start' := start;
    while start' != end
      invariant start <= start' <= end && forall i :: start <= i < start' ==> Tail(s[i])
      decreases end - start'
    {
      TrailIsTail(s[start']);
      if !IsTrail(s[start']) {
        break;
      }
      start' := start' + 1;
    }
  }

  lemma SkippedAt(s: seq<Octet>, start: nat, end: nat, p: nat)
    requires start < p <= end <= |s| && Fault(s[start..end]) != INVALID_LEAD
    requires forall i :: start < i < p ==> Tail(s[i])
    requires p < end ==> !Tail(s[p])
    ensures Skipped(s[start..end]) == p - start
  {
    assert s[start..end][1..] == s[start + 1..end];
    TailsAre(s[start + 1..end], end - start, p - start - 1);
  }

  /** One step of Repair, seen from what has been written before it. */
  lemma Advance(out: seq<Octet>, a: seq<Octet>, rest: Outcome)
    ensures Prepend(out, Prepend(a, rest)) == Prepend(out + a, rest)
  {
    if rest.Fixed? {
      assert out + (a + rest.out) == (out + a) + rest.out;
    }
  }

  lemma KeepStep(s: seq<Octet>, it: nat, it': nat, end: nat, replacement: CodePoint)
    requires it < end <= |s| && HeadLength(s[it..end]) > 0 && it' == it + HeadLength(s[it..end])
    ensures it' <= end
    ensures Repair(s[it..end], replacement) == Prepend(s[it..it'], Repair(s[it'..end], replacement))
  {
    Slices(s, it, it', end);
  }

  lemma ReplaceStep(s: seq<Octet>, it: nat, it': nat, end: nat, replacement: CodePoint)
    requires it < end <= |s| && it' == it + Skipped(s[it..end])
    requires Fault(s[it..end]) != UTF8_OK && Fault(s[it..end]) != NOT_ENOUGH_ROOM && Scalar(replacement)
    ensures Repair(s[it..end], replacement) == Prepend(Encode(replacement), Repair(s[it'..end], replacement))
  {
    FaultExact(s[it..end]);
    Slices(s, it, it', end);
  }

  lemma FailStep(t: seq<Octet>, replacement: CodePoint)
    requires |t| > 0 && Fault(t) != UTF8_OK
    ensures Fault(t) == NOT_ENOUGH_ROOM ==> Repair(t, replacement) == Fails(NotEnoughRoom)
    ensures Fault(t) != NOT_ENOUGH_ROOM && !Scalar(replacement) ==>
      Repair(t, replacement) == Fails(InvalidCodePoint(replacement))
  {
    FaultExact(t);
  }

  /** Passes the octets that one replacement stands for. */
  method Skip(s: seq<Octet>, it: nat, end: nat, err: UtfError) returns (it': nat)
    requires it < end <= |s| && err == Fault(s[it..end])
    ensures it' == it + Skipped(s[it..end]) <= end
  {
    it' := it + 1;
    if err != INVALID_LEAD {
      it' := SkipTrails(s, it', end);
      SkippedAt(s, it, end, it');
    }
  }

  /** One turn of the loop: a character, or one replacement, or a throw. */
  method RepairOne(s: seq<Octet>, it: nat, end: nat, out: seq<Octet>, replacement: CodePoint)
    returns (out': seq<Octet>, it': nat, thrown: Thrown)
    requires it < end <= |s|
    ensures thrown.Throws? ==> Repair(s[it..end], replacement) == Fails(thrown.exception)
    ensures thrown.Nothing? ==> it < it' <= end
    ensures thrown.Nothing? ==>
      Prepend(out, Repair(s[it..end], replacement)) == Prepend(out', Repair(s[it'..end], replacement))
  {
    var err, cp;
    out', thrown := out, Nothing;
    err, it', cp := ValidateNext(s, it, end, 0);
    if err == UTF8_OK {
      KeepStep(s, it, it', end, replacement);
      Advance(out, s[it..it'], Repair(s[it'..end], replacement));
      out' := Copy(s, it, it', out);
    } else {
      FailStep(s[it..end], replacement);
      if err == NOT_ENOUGH_ROOM {
        return out, it, Throws(NotEnoughRoom);
      }
      out', thrown := Append(replacement, out);
      if thrown.Nothing? {
        it' := Skip(s, it, end, err);
        ReplaceStep(s, it, it', end, replacement);
        Advance(out, Encode(replacement), Repair(s[it'..end], replacement));
      }
    }
  }

  /** Writes the repaired text, or throws; result is then what had been written. */
  method ReplaceInvalid(s: seq<Octet>, start: nat, end: nat, out: seq<Octet>, replacement: CodePoint)
    returns (out': seq<Octet>, thrown: Thrown)
    requires start <= end <= |s|
    ensures thrown == (match Repair(s[start..end], replacement) case Fixed(_) => Nothing case Fails(e) => Throws(e))
    ensures thrown.Nothing? ==> out' == out + Repair(s[start..end], replacement).out
  {
    out', thrown := out, Nothing;
    var it := start;
    ghost var all := Prepend(out, Repair(s[start..end], replacement));
    while it != end
      invariant start <= it <= end && thrown.Nothing?
      invariant Prepend(out', Repair(s[it..end], replacement)) == all
      decreases end - it
    {
      var it';
      out', it', thrown := RepairOne(s, it, end, out', replacement);
      if thrown.Throws? {
        return;
      }
      it := it';
    }
  }

  const REPLACEMENT_MARKER: CodePoint := 0xfffd

  /** The form without a replacement argument uses U+FFFD. */
  method ReplaceInvalidByMarker(s: seq<Octet>, start: nat, end: nat, out: seq<Octet>)
    returns (out': seq<Octet>, thrown: Thrown)
    requires start <= end <= |s|
    ensures thrown == if EndsTruncated(s[start..end]) then Throws(NotEnoughRoom) else Nothing
    ensures thrown.Nothing? ==> |out| <= |out'| && out'[..|out|] == out && WellFormed(out'[|out|..])
    ensures WellFormed(s[start..end]) ==> thrown.Nothing? && out' == out + s[start..end]
  {
    out', thrown := ReplaceInvalid(s, start, end, out, REPLACEMENT_MARKER);
    ghost var t := s[start..end];
    RepairThrows(t, REPLACEMENT_MARKER);
    if thrown.Nothing? {
      RepairedIsWellFormed(t, REPLACEMENT_MARKER);
      assert out'[|out|..] == Repair(t, REPLACEMENT_MARKER).out;
    }
    if WellFormed(t) {
      RepairKeepsText(t, [], REPLACEMENT_MARKER);
      assert t + [] == t;
    }
  }

  // ------ what the repair does ----------------------------------------------------------------

  lemma CharThenText(c: seq<Octet>, rest: seq<Octet>)
    requires Char(c) && WellFormed(rest)
    ensures WellFormed(c + rest)
  {
    OneChar(c);
    ConcatWellFormed(c, rest);
  }

  /** What comes out is well-formed, whatever went in. */
  lemma {:induction false} RepairedIsWellFormed(s: seq<Octet>, replacement: CodePoint)
    requires Repair(s, replacement).Fixed?
    ensures WellFormed(Repair(s, replacement).out)
    decreases |s|
  {
    if s != [] {
      var n := HeadLength(s);
      if n > 0 {
        RepairedIsWellFormed(s[n..], replacement);
        CharThenText(s[..n], Repair(s[n..], replacement).out);
      } else {
        RepairedIsWellFormed(s[Skipped(s)..], replacement);
        EncodeMeans(replacement);
        CharThenText(Encode(replacement), Repair(s[Skipped(s)..], replacement).out);
      }
    }
  }

  /** A well-formed beginning is kept as it is, so repair is the identity on well-formed text. */
  lemma {:induction false} RepairKeepsText(a: seq<Octet>, b: seq<Octet>, replacement: CodePoint)
    requires WellFormed(a)
    ensures Repair(a + b, replacement) == Prepend(a, Repair(b, replacement))
    decreases |a|
  {
    if a == [] {
      assert a + b == b;
      if Repair(b, replacement).Fixed? {
        assert [] + Repair(b, replacement).out == Repair(b, replacement).out;
      }
    } else {
      var n := HeadLength(a);
      var c, t := a[..n], a[n..];
      assert a + b == c + (t + b) && a == c + t;
      HeadOf(c, t + b);
      RepairKeepsText(t, b, replacement);
      Advance(c, t, Repair(b, replacement));
    }
  }

  /** Repairing twice is repairing once, even with another replacement the second time. */
  lemma RepairIsIdempotent(s: seq<Octet>, replacement: CodePoint, other: CodePoint)
    requires Repair(s, replacement).Fixed?
    ensures Repair(Repair(s, replacement).out, other) == Repair(s, replacement)
  {
    var out := Repair(s, replacement).out;
    RepairedIsWellFormed(s, replacement);
    RepairKeepsText(out, [], other);
    assert out + [] == out;
  }

  // ------ when it throws ----------------------------------------------------------------------

  lemma NotEnoughRoomAtHead(s: seq<Octet>)
    requires |s| > 0
    ensures Fault(s) == NOT_ENOUGH_ROOM <==> TruncatedAt(s, 0)
  {
    var n := Announced(s[0]);
    if TruncatedAt(s, 0) {
      forall i | 0 <= i < |s| - 1 ensures Tail(s[1..][i]) {
        assert s[1..][i] == s[i + 1];
      }
      TailsAre(s[1..], n - 1, |s| - 1);
    }
  }

  /** No step passes an octet that could start a truncated sequence. */
  lemma TruncationMoves(s: seq<Octet>, k: nat)
    requires 0 < k <= |s| && (forall i :: 0 < i < k ==> Tail(s[i])) && !TruncatedAt(s, 0)
    ensures EndsTruncated(s) <==> EndsTruncated(s[k..])
  {
    var t := s[k..];
    if i :| TruncatedAt(s, i) {
      assert !Tail(s[i]);
      assert forall j :: 0 <= j < |t| ==> t[j] == s[k + j];
      assert TruncatedAt(t, i - k);
    }
    if i :| TruncatedAt(t, i) {
      assert forall j :: k <= j < |s| ==> s[j] == t[j - k];
      assert TruncatedAt(s, i + k);
    }
  }

  lemma WellFormedStep(s: seq<Octet>)
    requires HeadLength(s) > 0
    ensures WellFormed(s) <==> WellFormed(s[HeadLength(s)..])
    ensures forall i :: 0 < i < HeadLength(s) ==> Tail(s[i])
    ensures !TruncatedAt(s, 0)
  {
    var c := s[..HeadLength(s)];
    LengthOfChar(c);
    assert forall k :: 0 < k < |c| ==> c[k] == s[k];
    FaultExact(s);
    NotEnoughRoomAtHead(s);
  }

  /**
    * Repair fails exactly on a truncated end, and, when the replacement is no scalar value, on
    * everything that is not well-formed.
    */
  lemma {:induction false} RepairThrows(s: seq<Octet>, replacement: CodePoint)
    ensures WellFormed(s) ==> !EndsTruncated(s)
    ensures Repair(s, replacement).Fixed? <==> WellFormed(s) || (Scalar(replacement) && !EndsTruncated(s))
    ensures Scalar(replacement) && EndsTruncated(s) ==> Repair(s, replacement) == Fails(NotEnoughRoom)
    decreases |s|
  {
    if s != [] {
      NotEnoughRoomAtHead(s);
      FaultExact(s);
      var k := if HeadLength(s) > 0 then HeadLength(s) else Skipped(s);
      if HeadLength(s) > 0 {
        WellFormedStep(s);
      }
      if !TruncatedAt(s, 0) {
        RepairThrows(s[k..], replacement);
        TruncationMoves(s, k);
      }
    }
  }

  // ------ what one mark stands for, octet by octet --------------------------------------------

  /** A stray octet gives one mark by itself, whatever follows it. */
  lemma StrayGivesOneMark(a: Octet, t: seq<Octet>, replacement: CodePoint)
    requires Stray(a) && Scalar(replacement)
    ensures Repair([a] + t, replacement) == Prepend(Encode(replacement), Repair(t, replacement))
  {
    var s := [a] + t;
    FaultOf(s);
    assert s[1..] == t;
  }

  /**
    * A lead that begins no character, nor one cut off by the end of the input, gives one mark together with
    * all the tails behind it, more of them than it asks for included.
    */
  lemma LeadGivesOneMark(a: Octet, tails: seq<Octet>, rest: seq<Octet>, replacement: CodePoint)
    requires !Stray(a) && Scalar(replacement)
    requires (forall k :: 0 <= k < |tails| ==> Tail(tails[k])) && (rest != [] ==> !Tail(rest[0]))
    requires !CutOff([a] + tails + rest) && forall k :: 0 <= k <= |tails| ==> !Char([a] + tails[..k])
    ensures Repair([a] + tails + rest, replacement) == Prepend(Encode(replacement), Repair(rest, replacement))
  {
    var s := [a] + tails + rest;
    FaultOf(s);
    if HeadLength(s) > 0 {
      CharacterOfTails(a, tails, rest);
    }
    SkippedTails(s, a, tails, rest);
    assert s[1 + |tails|..] == rest;
  }

  lemma SkippedTails(s: seq<Octet>, a: Octet, tails: seq<Octet>, rest: seq<Octet>)
    requires s == [a] + tails + rest && Fault(s) != INVALID_LEAD
    requires (forall k :: 0 <= k < |tails| ==> Tail(tails[k])) && (rest != [] ==> !Tail(rest[0]))
    ensures Skipped(s) == 1 + |tails|
  {
    assert s[1..] == tails + rest;
    TailsAre(tails + rest, |s|, |tails|);
  }

  /** A character at the head is the lead and some of the tails. */
  lemma CharacterOfTails(a: Octet, tails: seq<Octet>, rest: seq<Octet>)
    requires HeadLength([a] + tails + rest) > 0 && (rest != [] ==> !Tail(rest[0]))
    ensures exists k :: 0 <= k <= |tails| && Char([a] + tails[..k])
  {
    var s := [a] + tails + rest;
    var c := s[..HeadLength(s)];
    LengthOfChar(c);
    assert forall k :: 0 <= k < |c| ==> c[k] == s[k];
    assert rest != [] ==> s[1 + |tails|] == rest[0];
    assert c == [a] + tails[..|c| - 1];
  }

  /** The mark of the form without a replacement argument is EF BF BD, and two stray octets give two of them. */
  lemma MarkOctets()
    ensures Encode(REPLACEMENT_MARKER) == [0xef, 0xbf, 0xbd]
    ensures Repair([0x80, 0x80], REPLACEMENT_MARKER) == Fixed([0xef, 0xbf, 0xbd, 0xef, 0xbf, 0xbd])
  {
    StrayGivesOneMark(0x80, [0x80], REPLACEMENT_MARKER);
    StrayGivesOneMark(0x80, [], REPLACEMENT_MARKER);
    assert [0x80] + [0x80] == [0x80, 0x80];
    assert [0x80] + [] == [0x80];
  }
}
