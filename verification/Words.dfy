/**
  * 32-bit words as the volatile LONG fields of critsect.h hold them, read as unsigned values:
  * wrapping addition, complement, and bitwise conjunction.
  */
module Words {

  const WORD_SPAN := 0x1_0000_0000
  type Word = x: int | 0 <= x < WORD_SPAN

  function Add(x: Word, y: Word): Word {
    (x + y) % WORD_SPAN
  }

  /** The complement of a 32-bit word. */
  function Not(x: Word): Word {
    WORD_SPAN - 1 - x
  }

  /** Bitwise conjunction, digit by digit. */
  function And(x: nat, y: nat): (z: nat)
    ensures z <= x && z <= y
  {
    if x == 0 || y == 0 then 0
    else 2 * And(x / 2, y / 2) + (if x % 2 == 1 && y % 2 == 1 then 1 else 0)
  }

  function ShiftLeft(x: nat, n: nat): (y: nat)
    ensures y >= x
    decreases n
  {
    if n == 0 then x else 2 * ShiftLeft(x, n - 1)
  }

  function Ones(n: nat): nat {
    ShiftLeft(1, n) - 1
  }

  lemma AndDigit(x: nat, x': nat, d: nat, y: nat, y': nat, e: nat)
    requires d < 2 && e < 2 && x == 2 * x' + d && y == 2 * y' + e
    ensures And(x, y) == 2 * And(x', y') + (if d == 1 && e == 1 then 1 else 0)
  {
    assert x / 2 == x' && x % 2 == d && y / 2 == y' && y % 2 == e;
  }

  lemma {:induction false} AndOnes(x: nat, ones: nat, n: nat)
    requires ones == Ones(n) && x <= ones
    ensures And(x, ones) == x
  {
    if n > 0 {
      AndOnes(x / 2, Ones(n - 1), n - 1);
      AndDigit(x, x / 2, x % 2, ones, Ones(n - 1), 1);
    }
  }

  /** Masking with n ones keeps the n low digits. */
  lemma {:induction false} AndLowDigits(x: nat, high: nat, low: nat, ones: nat, n: nat)
    requires ones == Ones(n) && low <= ones && x == ShiftLeft(high, n) + low
    ensures And(x, ones) == low
  {
    if n > 0 {
      var x' := ShiftLeft(high, n - 1) + low / 2;
      AndLowDigits(x', high, low / 2, Ones(n - 1), n - 1);
      AndDigit(x, x', low % 2, ones, Ones(n - 1), 1);
    }
  }

  /** Masking with a zero at position n and ones elsewhere clears that digit and keeps the others. */
  lemma {:induction false} AndClearsDigit(x: nat, high: nat, digit: nat, low: nat, mask: nat, n: nat, k: nat)
    requires low <= Ones(n) && digit < 2 && high <= Ones(k)
    requires x == ShiftLeft(2 * high + digit, n) + low
    requires mask == ShiftLeft(2 * Ones(k), n) + Ones(n)
    ensures And(x, mask) == ShiftLeft(2 * high, n) + low
    decreases n
  {
    if n == 0 {
      AndOnes(high, Ones(k), k);
      AndDigit(x, high, digit, mask, Ones(k), 0);
    } else {
      var x' := ShiftLeft(2 * high + digit, n - 1) + low / 2;
      var mask' := ShiftLeft(2 * Ones(k), n - 1) + Ones(n - 1);
      AndClearsDigit(x', high, digit, low / 2, mask', n - 1, k);
      AndDigit(x, x', low % 2, mask, mask', 1);
    }
  }

  lemma ShiftThree(x: nat, n: nat)
    ensures ShiftLeft(x, n + 3) == 8 * ShiftLeft(x, n)
  {
    assert ShiftLeft(x, n + 1) == 2 * ShiftLeft(x, n);
    assert ShiftLeft(x, n + 2) == 2 * ShiftLeft(x, n + 1);
  }

  /** Masking with 1 reads the low digit. */
  lemma AndOne(x: nat, one: nat)
    requires one == 1
    ensures And(x, one) == x % 2
  {
    AndDigit(x, x / 2, x % 2, one, 0, 1);
  }

  /** Congruent counts less than a word apart are equal. */
  lemma SameResidue(a: int, b: int)
    requires b <= a < b + WORD_SPAN
    ensures a % WORD_SPAN == b % WORD_SPAN <==> a == b
  {
  }

  lemma AddResidues(a: nat, b: Word)
    ensures Add(a % WORD_SPAN, b) == (a + b) % WORD_SPAN
  {
  }

  lemma WholeTurn(a: nat)
    ensures (a + WORD_SPAN) % WORD_SPAN == a % WORD_SPAN
  {
  }

  lemma SameResidues(a: int, b: int)
    ensures a % WORD_SPAN == b % WORD_SPAN <==> (a - b) % WORD_SPAN == 0
  {
  }
}
