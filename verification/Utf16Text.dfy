/** Sequences of 16-bit units as texts: the bijection with scalar values, and reading one more character. */
module Utf16Text {
  import opened Rfc3629
  import opened Rfc2781
  import opened Utf8Text

  lemma {:induction false} DecodeThenEncode16(u: seq<Unit>)
    requires WellFormed16(u)
    ensures Scalars(Decode16(u)) && EncodeAll16(Decode16(u)) == u
    decreases |u|
  {
    if u != [] {
      var head, cp, tail := MeaningUnits(u);
      DecodeThenEncode16(tail);
      EncodeAll16Cons(cp, Decode16(tail), head, tail);
      ScalarsCons(cp, Decode16(tail));
    }
  }

  lemma EncodeAll16Cons(cp: CodePoint, rest: seq<CodePoint>, head: seq<Unit>, tail: seq<Unit>)
    requires Units(cp) == head && EncodeAll16(rest) == tail
    ensures EncodeAll16([cp] + rest) == head + tail
  {
    assert ([cp] + rest)[1..] == rest;
  }

  lemma {:induction false} EncodeThenDecode16(cps: seq<CodePoint>)
    requires Scalars(cps)
    ensures WellFormed16(EncodeAll16(cps)) && Decode16(EncodeAll16(cps)) == cps
  {
    if cps != [] {
      EncodeThenDecode16(cps[1..]);
      UnitsHead(cps[0], EncodeAll16(cps[1..]));
      assert cps == [cps[0]] + cps[1..];
    }
  }

  lemma {:induction false} EncodeAll16Appends(a: seq<CodePoint>, cp: CodePoint)
    ensures EncodeAll16(a + [cp]) == EncodeAll16(a) + Units(cp)
  {
    if a == [] {
      assert [cp][1..] == [] && a + [cp] == [cp];
    } else {
      assert (a + [cp])[1..] == a[1..] + [cp];
      EncodeAll16Appends(a[1..], cp);
    }
  }

  /** Reading one more character extends what was read. */
  lemma Extend16(u: seq<Unit>, i: nat, n: nat)
    requires i < |u| && n == UnitLength(u[i..]) > 0 && WellFormed16(u[..i])
    ensures WellFormed16(u[..i + n]) && Decode16(u[..i + n]) == Decode16(u[..i]) + [UnitMeaning(u[i..])]
  {
    assert u[..i + n] == u[..i] + u[i..i + n];
    OneCharacter16(u[i..], n);
    assert u[i..][..n] == u[i..i + n];
    Concat16(u[..i], u[i..i + n]);
  }

  lemma OneCharacter16(u: seq<Unit>, n: nat)
    requires n == UnitLength(u) && n > 0
    ensures WellFormed16(u[..n]) && Decode16(u[..n]) == [UnitMeaning(u)]
  {
    assert u[..n][n..] == [];
    assert u[..n][0] == u[0];
    assert n == 2 ==> u[..n][1] == u[1];
    assert UnitLength(u[..n]) == n;
  }

  lemma {:induction false} Concat16(a: seq<Unit>, b: seq<Unit>)
    requires WellFormed16(a)
    ensures WellFormed16(a + b) <==> WellFormed16(b)
    ensures WellFormed16(b) ==> Decode16(a + b) == Decode16(a) + Decode16(b)
    decreases |a|
  {
    if a == [] {
      assert a + b == b;
    } else {
      HeadStays(a, b);
      Concat16(a[UnitLength(a)..], b);
    }
  }

  lemma HeadStays(a: seq<Unit>, b: seq<Unit>)
    requires UnitLength(a) > 0
    ensures UnitLength(a + b) == UnitLength(a) && UnitMeaning(a + b) == UnitMeaning(a)
    ensures (a + b)[UnitLength(a)..] == a[UnitLength(a)..] + b
  {
    assert (a + b)[0] == a[0] && (|a| > 1 ==> (a + b)[1] == a[1]);
  }
}
