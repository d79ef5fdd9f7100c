/** The iterator classes of utf8/checked.h and utf8/unchecked.h, over octets s that do not change. */
module Utf8Iterator {
  import opened Rfc3629
  import opened Utf8Text
  import opened Utf8Core
  import Utf8Checked
  import Utf8Unchecked

  datatype Made = Made(result: CheckedIterator) | OutOfRange
  datatype Compared = Equal(equal: bool) | LogicError

  class CheckedIterator {
    const s: seq<Octet>
    var it: nat
    const rangeStart: nat
    const rangeEnd: nat

    ghost predicate Valid()
      reads this
    {
      rangeStart <= it <= rangeEnd <= |s|
    }

    constructor (s: seq<Octet>, it: nat, rangeStart: nat, rangeEnd: nat)
      requires rangeStart <= it <= rangeEnd <= |s|
      ensures Valid() && this.s == s && this.it == it && this.rangeStart == rangeStart && this.rangeEnd == rangeEnd
    {
      this.s, this.it, this.rangeStart, this.rangeEnd := s, it, rangeStart, rangeEnd;
    }

    /** The public constructor: a position outside the range throws. */
    static method Create(s: seq<Octet>, it: nat, rangeStart: nat, rangeEnd: nat) returns (made: Made)
      requires it <= |s| && rangeStart <= |s| && rangeEnd <= |s|
      ensures made.OutOfRange? <==> it < rangeStart || it > rangeEnd
      ensures made.Made? ==> fresh(made.result) && made.result.Valid() && made.result.s == s && made.result.it == it
      ensures made.Made? ==> made.result.rangeStart == rangeStart && made.result.rangeEnd == rangeEnd
    {
      if it < rangeStart || it > rangeEnd {
        return OutOfRange;
      }
      var i := new CheckedIterator(s, it, rangeStart, rangeEnd);
      made := Made(i);
    }

    /** Reads the code point without moving. */
    method Deref() returns (cp: CodePoint, thrown: Utf8Checked.Thrown)
      requires Valid() && it < rangeEnd
      ensures thrown == Utf8Checked.NextThrows(s[it..rangeEnd])
      ensures thrown.Nothing? ==> HeadLength(s[it..rangeEnd]) > 0 && cp == HeadMeaning(s[it..rangeEnd])
    {
      var temp;
      cp, temp, thrown := Utf8Checked.Next(s, it, rangeEnd);
    }

    /** Iterators over other octets have another range. */
    method Equals(rhs: CheckedIterator) returns (r: Compared)
      ensures r.LogicError? <==> s != rhs.s || rangeStart != rhs.rangeStart || rangeEnd != rhs.rangeEnd
      ensures r.Equal? ==> (r.equal <==> it == rhs.it)
    {
      if s != rhs.s || rangeStart != rhs.rangeStart || rangeEnd != rhs.rangeEnd {
        return LogicError;
      }
      r := Equal(it == rhs.it);
    }

    /** ++: passes a character, or throws and stays. */
    method Increment() returns (thrown: Utf8Checked.Thrown)
      requires Valid() && it < rangeEnd
      modifies this`it
      ensures Valid() && thrown == Utf8Checked.NextThrows(s[old(it)..rangeEnd])
      ensures it == old(it) + HeadLength(s[old(it)..rangeEnd])
    {
      var cp;
      FaultExact(s[it..rangeEnd]);
      cp, it, thrown := Utf8Checked.Next(s, it, rangeEnd);
    }

    /** --: moves back to the nearest octet that is not a tail, even when it then throws. */
    method Decrement() returns (thrown: Utf8Checked.Thrown)
      requires Valid()
      modifies this`it
      ensures Valid()
      ensures old(it) == rangeStart ==> it == rangeStart && thrown == Utf8Checked.Throws(Utf8Checked.NotEnoughRoom)
      ensures rangeStart < old(it) ==> it == Utf8Checked.BackTo(s, rangeStart, old(it))
      ensures rangeStart < old(it) ==> (thrown.Nothing? <==> !Tail(s[it]) && HeadLength(s[it..old(it)]) > 0)
    {
      var cp, i := 0, it;
      cp, it, thrown := Utf8Checked.Prior(s, it, rangeStart);
      if rangeStart < i {
        FaultExact(s[it..i]);
      }
    }

    /** -- after ++ comes back, over any character. */
    method ForthAndBack()
      requires Valid() && it < rangeEnd && HeadLength(s[it..rangeEnd]) > 0
      modifies this`it
      ensures it == old(it)
    {
      Utf8Checked.PriorUndoesNext(s, rangeStart, it, rangeEnd);
      var thrown := Increment();
      thrown := Decrement();
    }

    /** ++ after -- comes back, from the end of any text. */
    method BackAndForth()
      requires Valid() && rangeStart < it && WellFormed(s[rangeStart..it])
      modifies this`it
      ensures it == old(it)
    {
      ghost var from := it;
      var p := Utf8Checked.LastCharacterAt(s, rangeStart, it);
      HeadLengthLocal(s, p, it, rangeEnd);
      var thrown := Decrement();
      thrown := Increment();
    }
  }

  class UncheckedIterator {
    const s: seq<Octet>
    var it: nat

    constructor (s: seq<Octet>, it: nat)
      requires it <= |s|
      ensures this.s == s && this.it == it
    {
      this.s, this.it := s, it;
    }

    method Deref() returns (cp: CodePoint)
      requires it < |s| && it + Utf8Unchecked.Step(s[it]) <= |s|
      ensures forall end :: it < end <= |s| && HeadLength(s[it..end]) > 0 ==> cp == HeadMeaning(s[it..end])
    {
      var temp;
      cp, temp := Utf8Unchecked.Next(s, it);
      forall end | it < end <= |s| && HeadLength(s[it..end]) > 0 ensures cp == HeadMeaning(s[it..end]) {
        Utf8Unchecked.ReadsCharacter(s, it, end);
      }
    }

    /** ++: advances by the announced length; unlike `next`, it stays on an octet that announces none. */
    method Increment()
      requires it < |s| && it + SequenceLength(s[it]) <= |s|
      modifies this`it
      ensures it == old(it) + Announced(s[old(it)])
      ensures forall end :: old(it) < end <= |s| && HeadLength(s[old(it)..end]) > 0 ==>
        it == old(it) + HeadLength(s[old(it)..end])
    {
      LengthIsAnnounced(s[it]);
      forall end | it < end <= |s| && HeadLength(s[it..end]) > 0
        ensures SequenceLength(s[it]) == HeadLength(s[it..end])
      {
        LengthOfChar(s[it..end][..HeadLength(s[it..end])]);
        LeadIsAnnounced(s[it]);
      }
      it := it + SequenceLength(s[it]);
    }

    /** --: goes to the nearest octet p that is not a tail, of which there must be one. */
    method Decrement(ghost p: nat)
      requires Utf8Unchecked.LeadBefore(s, it, p) && p + Utf8Unchecked.Step(s[p]) <= |s|
      modifies this`it
      ensures it == p
    {
      var cp;
      cp, it := Utf8Unchecked.Prior(s, it, p);
    }
  }

  /** ++ of the unchecked class moves as unchecked next does, except where the octet announces no length. */
  lemma MovesAsNext(lead: Octet)
    ensures Announced(lead) == Utf8Unchecked.Step(lead) <==> lead <= 0x7f || 0xc0 <= lead <= 0xf7
    ensures !(lead <= 0x7f || 0xc0 <= lead <= 0xf7) ==> Announced(lead) == 0 && Utf8Unchecked.Step(lead) == 1
  {
    LengthIsAnnounced(lead);
  }

  /** ++ of both classes, on any character: neither throws and they end at the same place. */
  method IncrementsAgree(a: CheckedIterator, b: UncheckedIterator) returns (thrown: Utf8Checked.Thrown)
    requires a.Valid() && a.s == b.s && a.it == b.it && a.it < a.rangeEnd && HeadLength(a.s[a.it..a.rangeEnd]) > 0
    modifies a`it, b`it
    ensures thrown.Nothing? && a.it == b.it
  {
    FaultExact(a.s[a.it..a.rangeEnd]);
    Utf8Unchecked.ReadsCharacter(a.s, a.it, a.rangeEnd);
    thrown := a.Increment();
    b.Increment();
  }

  /** -- of both classes, from the end of any text. */
  method DecrementsAgree(a: CheckedIterator, b: UncheckedIterator) returns (thrown: Utf8Checked.Thrown)
    requires a.Valid() && a.s == b.s && a.it == b.it && a.rangeStart < a.it && WellFormed(a.s[a.rangeStart..a.it])
    modifies a`it, b`it
    ensures thrown.Nothing? && a.it == b.it
  {
    ghost var p := Utf8Checked.LastCharacterAt(a.s, a.rangeStart, a.it);
    Utf8Unchecked.ReadsCharacter(a.s, p, a.it);
    thrown := a.Decrement();
    b.Decrement(p);
  }
}
