/**
  * Which fault is found, and which exception is thrown, said of the octets alone: by the ranges of leading
  * octets, the tails that are there, and the bits that RFC 3629 gives them.
  */
module Utf8Faults {
  import opened Rfc3629
  import opened Utf8Text
  import opened Utf8Core
  import opened Utf8Checked

  /** An octet that leads nothing. */
  predicate Stray(a: Octet) {
    0x80 <= a <= 0xbf || 0xf8 <= a
  }

  /** An octet that asks for n octets in all, itself included. */
  predicate Asks(a: Octet, n: nat) {
    || (n == 1 && a <= 0x7f)
    || (n == 2 && 0xc0 <= a <= 0xdf)
    || (n == 3 && 0xe0 <= a <= 0xef)
    || (n == 4 && 0xf0 <= a <= 0xf7)
  }

  /** The string ends before all tails asked for are there, and has nothing else in their place. */
  predicate CutOff(t: seq<Octet>) {
    && |t| > 0
    && ((|t| < 2 && Asks(t[0], 2)) || (|t| < 3 && Asks(t[0], 3)) || (|t| < 4 && Asks(t[0], 4)))
    && forall k :: 0 < k < |t| ==> Tail(t[k])
  }

  /** All n octets asked for are there. */
  predicate Complete(t: seq<Octet>, n: nat) {
    1 <= n <= |t| && Asks(t[0], n) && forall k :: 0 < k < n ==> Tail(t[k])
  }

  /** Something that is no tail stands where one was asked for. */
  ghost predicate Broken(t: seq<Octet>) {
    |t| > 0 && exists n: nat, k :: Asks(t[0], n) && 0 < k < n && k < |t| && !Tail(t[k])
  }

  /** All octets asked for are there, and their bits are a surrogate or a value above U+10FFFF. */
  predicate NoScalarBits(t: seq<Octet>) {
    || (Complete(t, 2) && !Scalar(Bits2(t[0], t[1])))
    || (Complete(t, 3) && !Scalar(Bits3(t[0], t[1], t[2])))
    || (Complete(t, 4) && !Scalar(Bits4(t[0], t[1], t[2], t[3])))
  }

  // ------ proofs ------------------------------------------------------------------------------

  lemma AsksIsAnnounced(a: Octet, n: nat)
    ensures Asks(a, n) <==> n > 0 && Announced(a) == n
    ensures Stray(a) <==> Announced(a) == 0
  {
  }

  lemma TailsOf(t: seq<Octet>, n: nat)
    requires |t| > 0 && n > 0
    ensures TailFault(t, n) == UTF8_OK <==> |t| >= n && forall k :: 0 < k < n ==> Tail(t[k])
    ensures TailFault(t, n) == NOT_ENOUGH_ROOM <==> |t| < n && forall k :: 0 < k < |t| ==> Tail(t[k])
    ensures TailFault(t, n) == INCOMPLETE_SEQUENCE <==> exists k :: 0 < k < n && k < |t| && !Tail(t[k])
  {
    var m := Tails(t[1..], n - 1);
    forall k | 0 < k <= m ensures Tail(t[k]) {
      assert t[1..][k - 1] == t[k];
    }
    if m < n - 1 && m + 1 < |t| {
      assert t[1..][m] == t[m + 1];
      assert !Tail(t[m + 1]);
    }
  }

  lemma Bits2AreScalar(a: Octet, b: Octet)
    ensures Scalar(Bits2(a, b))
  {
  }

  lemma Bits3NoScalar(a: Octet, b: Octet, c: Octet)
    requires Asks(a, 3) && Tail(b) && Tail(c)
    ensures !Scalar(Bits3(a, b, c)) <==> a == 0xed && b >= 0xa0
  {
  }

  lemma Bits4NoScalar(a: Octet, b: Octet, c: Octet, d: Octet)
    requires Asks(a, 4) && Tail(b) && Tail(c) && Tail(d)
    ensures !Scalar(Bits4(a, b, c, d)) <==>
      (a == 0xf0 && b == 0x8d && c >= 0xa0) || (a == 0xf4 && b >= 0x90) || 0xf5 <= a
  {
  }

  lemma NoScalarExactly(t: seq<Octet>, n: nat)
    requires Complete(t, n)
    ensures |t| >= Announced(t[0]) == n && (StartsNoScalar(t) <==> NoScalarBits(t))
  {
    AsksIsAnnounced(t[0], n);
    if n == 2 {
      Bits2AreScalar(t[0], t[1]);
    } else if n == 3 {
      Bits3NoScalar(t[0], t[1], t[2]);
    } else if n == 4 {
      Bits4NoScalar(t[0], t[1], t[2], t[3]);
    }
  }

  lemma AskedNumber(a: Octet) returns (n: nat)
    requires !Stray(a)
    ensures Asks(a, n) && 1 <= n <= 4 && n == Announced(a)
    ensures forall m: nat :: Asks(a, m) ==> m == n
  {
    n := Announced(a);
  }

  /** The head of a non-empty string has exactly one of these six kinds, and is reported so. */
  lemma FaultOf(t: seq<Octet>)
    requires |t| > 0
    ensures Fault(t) == INVALID_LEAD <==> Stray(t[0])
    ensures Fault(t) == NOT_ENOUGH_ROOM <==> CutOff(t)
    ensures Fault(t) == INCOMPLETE_SEQUENCE <==> Broken(t)
    ensures Fault(t) == INVALID_CODE_POINT <==> NoScalarBits(t)
    ensures Fault(t) == UTF8_OK <==> HeadLength(t) > 0
    ensures Fault(t) == OVERLONG_SEQUENCE <==>
      HeadLength(t) == 0 && !NoScalarBits(t) && exists n: nat :: Complete(t, n)
  {
    FaultExact(t);
    AsksIsAnnounced(t[0], 1);
    if !Stray(t[0]) {
      var n := AskedNumber(t[0]);
      TailsOf(t, n);
      CutOffExactly(t, n);
      BrokenExactly(t, n);
      CompleteExactly(t, n);
      if TailFault(t, n) == UTF8_OK {
        NoScalarExactly(t, n);
      }
    } else {
      StrayIsNothingElse(t);
    }
  }

  lemma CutOffExactly(t: seq<Octet>, n: nat)
    requires |t| > 0 && Asks(t[0], n)
    ensures CutOff(t) <==> |t| < n && forall k :: 0 < k < |t| ==> Tail(t[k])
  {
  }

  lemma BrokenExactly(t: seq<Octet>, n: nat)
    requires |t| > 0 && Asks(t[0], n) && forall m: nat :: Asks(t[0], m) ==> m == n
    ensures Broken(t) <==> exists k :: 0 < k < n && k < |t| && !Tail(t[k])
  {
    if k :| 0 < k < n && k < |t| && !Tail(t[k]) {
      assert Asks(t[0], n) && 0 < k < n && k < |t| && !Tail(t[k]);
    }
  }

  lemma CompleteExactly(t: seq<Octet>, n: nat)
    requires |t| > 0 && Asks(t[0], n) && 1 <= n <= 4 && forall m: nat :: Asks(t[0], m) ==> m == n
    ensures (exists m: nat :: Complete(t, m)) <==> |t| >= n && forall k :: 0 < k < n ==> Tail(t[k])
    ensures NoScalarBits(t) ==> Complete(t, n)
  {
    if |t| >= n && forall k :: 0 < k < n ==> Tail(t[k]) {
      assert Complete(t, n);
    }
  }

  lemma StrayIsNothingElse(t: seq<Octet>)
    requires |t| > 0 && Stray(t[0])
    ensures !CutOff(t) && !Broken(t) && !NoScalarBits(t) && HeadLength(t) == 0
    ensures !exists n: nat :: Complete(t, n)
  {
    forall n: nat ensures !Asks(t[0], n) {
    }
    if HeadLength(t) > 0 {
      LengthOfChar(t[..HeadLength(t)]);
    }
  }

  /**
    * What next throws on any octets: nothing exactly on a character; not_enough_room exactly on a sequence
    * cut off by the end; invalid_code_point, which names 0, exactly on bits that are no scalar value; and
    * invalid_utf8 with the first octet on everything else.
    */
  lemma NextThrowsExactly(t: seq<Octet>)
    requires |t| > 0
    ensures NextThrows(t) ==
      if HeadLength(t) > 0 then Nothing
      else if CutOff(t) then Throws(NotEnoughRoom)
      else if NoScalarBits(t) then Throws(InvalidCodePoint(0))
      else Throws(InvalidUtf8(t[0]))
    ensures HeadLength(t) > 0 ==> !CutOff(t) && !NoScalarBits(t)
    ensures !(CutOff(t) && NoScalarBits(t))
  {
    FaultOf(t);
  }
}
