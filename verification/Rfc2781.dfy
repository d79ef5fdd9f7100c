/** UTF-16 as RFC 2781 defines it (sections 2.1 and 2.2), over sequences of 16-bit units. */
module Rfc2781 {
  import opened Rfc3629

  type Unit = bv16

  predicate LeadUnit(u: Unit) {
    0xd800 <= u <= 0xdbff
  }

  predicate TrailUnit(u: Unit) {
    0xdc00 <= u <= 0xdfff
  }

  /** Section 2.2: the code point of a pair. */
  function PairMeaning(lead: Unit, trail: Unit): CodePoint {
    ((((lead & 0x3ff) as bv32) << 10) | ((trail & 0x3ff) as bv32)) + 0x10000
  }

  /** Section 2.1: the units of a code point. */
  function Units(cp: CodePoint): (u: seq<Unit>)
    ensures 1 <= |u| <= 2
  {
    if cp < 0x10000 then [Low16(cp)]
    else [Low16(0xd800 | ((cp - 0x10000) >> 10)), Low16(0xdc00 | ((cp - 0x10000) & 0x3ff))]
  }

  function Low16(x: bv32): Unit {
    (x & 0xffff) as bv16
  }

  /** The number of units of the character at the head of u, or 0 if a surrogate stands there unpaired. */
  function UnitLength(u: seq<Unit>): (n: nat)
    ensures n <= |u| && n <= 2
  {
    if u == [] then 0
    else if LeadUnit(u[0]) then (if |u| > 1 && TrailUnit(u[1]) then 2 else 0)
    else if TrailUnit(u[0]) then 0
    else 1
  }

  function UnitMeaning(u: seq<Unit>): CodePoint
    requires UnitLength(u) > 0
  {
    if UnitLength(u) == 1 then u[0] as bv32 else PairMeaning(u[0], u[1])
  }

  ghost predicate WellFormed16(u: seq<Unit>)
    decreases |u|
  {
    u == [] || (UnitLength(u) > 0 && WellFormed16(u[UnitLength(u)..]))
  }

  function Decode16(u: seq<Unit>): seq<CodePoint>
    requires WellFormed16(u)
    decreases |u|
  {
    if u == [] then [] else [UnitMeaning(u)] + Decode16(u[UnitLength(u)..])
  }

  function EncodeAll16(cps: seq<CodePoint>): seq<Unit> {
    if cps == [] then [] else Units(cps[0]) + EncodeAll16(cps[1..])
  }

  // ------ one character -----------------------------------------------------------------------

  lemma PairOf(cp: CodePoint, lead: Unit, trail: Unit)
    requires 0x10000 <= cp <= 0x10ffff
    requires lead == Low16(0xd800 | ((cp - 0x10000) >> 10)) && trail == Low16(0xdc00 | ((cp - 0x10000) & 0x3ff))
    ensures LeadUnit(lead) && TrailUnit(trail) && PairMeaning(lead, trail) == cp
  {
  }

  lemma OfPair(cp: CodePoint, lead: Unit, trail: Unit)
    requires LeadUnit(lead) && TrailUnit(trail) && cp == PairMeaning(lead, trail)
    ensures 0x10000 <= cp <= 0x10ffff
    ensures lead == Low16(0xd800 | ((cp - 0x10000) >> 10)) && trail == Low16(0xdc00 | ((cp - 0x10000) & 0x3ff))
  {
  }

  lemma SameValue(cp: CodePoint, u: Unit)
    requires cp < 0x10000 && u == Low16(cp)
    ensures u as bv32 == cp
  {
  }

  lemma SameClass(cp: CodePoint, u: Unit)
    requires u as bv32 == cp
    ensures LeadUnit(u) || TrailUnit(u) <==> 0xd800 <= cp <= 0xdfff
    ensures cp < 0x10000 && u == Low16(cp)
  {
  }

  lemma SingleUnit(cp: CodePoint, u: Unit)
    requires cp < 0x10000 && Scalar(cp) && u == Low16(cp)
    ensures !LeadUnit(u) && !TrailUnit(u) && u as bv32 == cp
  {
    SameValue(cp, u);
    SameClass(cp, u);
  }

  lemma OfSingleUnit(cp: CodePoint, u: Unit)
    requires !LeadUnit(u) && !TrailUnit(u) && cp == u as bv32
    ensures cp < 0x10000 && Scalar(cp) && u == Low16(cp)
  {
    SameClass(cp, u);
  }

  lemma UnitsHead(cp: CodePoint, rest: seq<Unit>)
    requires Scalar(cp)
    ensures UnitLength(Units(cp) + rest) == |Units(cp)| && UnitMeaning(Units(cp) + rest) == cp
    ensures (Units(cp) + rest)[|Units(cp)|..] == rest
  {
    var u := Units(cp);
    if cp < 0x10000 {
      SingleUnit(cp, u[0]);
    } else {
      PairOf(cp, u[0], u[1]);
    }
    assert forall i :: 0 <= i < |u| ==> (u + rest)[i] == u[i];
  }

  lemma Units1(cp: CodePoint, u: Unit)
    requires cp < 0x10000 && u == Low16(cp)
    ensures Units(cp) == [u]
  {
  }

  lemma Units2(cp: CodePoint, lead: Unit, trail: Unit)
    requires 0x10000 <= cp
    requires lead == Low16(0xd800 | ((cp - 0x10000) >> 10)) && trail == Low16(0xdc00 | ((cp - 0x10000) & 0x3ff))
    ensures Units(cp) == [lead, trail]
  {
  }

  lemma MeaningUnits1(a: Unit) returns (cp: CodePoint)
    requires !LeadUnit(a) && !TrailUnit(a)
    ensures cp == a as bv32 && Scalar(cp) && Units(cp) == [a]
  {
    cp := a as bv32;
    OfSingleUnit(cp, a);
    Units1(cp, a);
  }

  lemma MeaningUnits2(a: Unit, b: Unit) returns (cp: CodePoint)
    requires LeadUnit(a) && TrailUnit(b)
    ensures cp == PairMeaning(a, b) && Scalar(cp) && Units(cp) == [a, b]
  {
    cp := PairMeaning(a, b);
    OfPair(cp, a, b);
    Units2(cp, a, b);
  }

  /** The head of a UTF-16 text: its units, the scalar value they encode, and what follows. */
  lemma MeaningUnits(u: seq<Unit>) returns (head: seq<Unit>, cp: CodePoint, tail: seq<Unit>)
    requires WellFormed16(u) && u != []
    ensures u == head + tail && WellFormed16(tail) && |tail| < |u|
    ensures Decode16(u) == [cp] + Decode16(tail)
    ensures Scalar(cp) && Units(cp) == head
  {
    head, tail := u[..UnitLength(u)], u[UnitLength(u)..];
    cp := UnitMeaning(u);
    MeaningOfHead(u, head, cp);
  }

  lemma MeaningOfHead(u: seq<Unit>, head: seq<Unit>, cp: CodePoint)
    requires UnitLength(u) > 0 && head == u[..UnitLength(u)] && cp == UnitMeaning(u)
    ensures Scalar(cp) && Units(cp) == head
  {
    if UnitLength(u) == 1 {
      var value := MeaningUnits1(u[0]);
      assert head == [u[0]];
    } else {
      var value := MeaningUnits2(u[0], u[1]);
      assert head == [u[0], u[1]];
    }
  }
}
