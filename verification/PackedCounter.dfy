/**
  * The packed words of the fair reader-writer lock (critsect.h:1087-1130).
  * One 32-bit word holds the reader count in its high half and the writer count in its low half.
  * A half is advanced by clearing its top bit and then adding one, so it counts
  * 0, 1, ..., 0x8000, 1, ..., 0x8000, 1, ...
  */
module PackedCounter {
  import opened Words

  const READER_COUNT_INC: Word := 0x10000
  const WRITER_COUNT_INC: Word := 0x1
  const WRITER_MASK: Word := 0xffff
  const WRITER_TOP_MASK: Word := 0x8000
  const READER_TOP_MASK: Word := 0x8000_0000

  datatype Kind = Reader | Writer

  function TopMask(k: Kind): Word {
    if k.Reader? then READER_TOP_MASK else WRITER_TOP_MASK
  }

  function Increment(k: Kind): Word {
    if k.Reader? then READER_COUNT_INC else WRITER_COUNT_INC
  }

  /** The two writes of InterlockedClearAdd, one after the other. */
  function ClearTop(word: Word, k: Kind): Word {
    And(word, Not(TopMask(k)))
  }

  function AddOne(word: Word, k: Kind): Word {
    Add(word, Increment(k))
  }

  lemma ShiftBy15(x: nat, n: nat)
    requires n == 15
    ensures ShiftLeft(x, n) == 0x8000 * x
  {
    ShiftThree(x, 0);
    ShiftThree(x, 3);
    ShiftThree(x, 6);
    ShiftThree(x, 9);
    ShiftThree(x, 12);
  }

  lemma ShiftBy16(x: nat, n: nat)
    requires n == 16
    ensures ShiftLeft(x, n) == 0x10000 * x
  {
    ShiftBy15(x, n - 1);
  }

  lemma ShiftBy31(x: nat, n: nat)
    requires n == 31
    ensures ShiftLeft(x, n) == 0x8000_0000 * x
  {
    ShiftBy16(x, 16);
    ShiftThree(x, 16);
    ShiftThree(x, 19);
    ShiftThree(x, 22);
    ShiftThree(x, 25);
    ShiftThree(x, 28);
  }

  // ------ one half and the packed word --------------------------------------------------------

  /** Where a half stands after n updates. */
  function Half(n: nat): (h: nat)
    ensures h <= 0x8000
    ensures h == 0 <==> n == 0
  {
    if n == 0 then 0 else (n - 1) % 0x8000 + 1
  }

  function Pack(readers: nat, writers: nat): Word {
    Half(readers) * 0x10000 + Half(writers)
  }

  /** A half after the first of its two writes. */
  function Cleared(h: nat): nat {
    if h == 0x8000 then 0 else h
  }

  /** Exactly when two update counts leave the same half behind. */
  lemma HalfAliases(a: nat, b: nat)
    ensures Half(a) == Half(b) <==> a == b || (a > 0 && b > 0 && (a - b) % 0x8000 == 0)
  {
  }

  function WriterPart(word: Word): nat {
    And(word, WRITER_MASK)
  }

  /** The mask keeps the writer half. */
  lemma WriterPartIsLowHalf(word: Word, high: nat, low: nat)
    requires high <= 0x8000 && low <= 0x8000 && word == high * 0x10000 + low
    ensures WriterPart(word) == low
  {
    MaskKeepsLowHalf(word, high, low, WRITER_MASK);
  }

  lemma MaskKeepsLowHalf(word: nat, high: nat, low: nat, mask: nat)
    requires high <= 0x8000 && low <= 0x8000 && word == high * 0x10000 + low && mask == WRITER_MASK
    ensures And(word, mask) == low
  {
    ShiftBy16(high, 16);
    ShiftBy16(1, 16);
    AndLowDigits(word, high, low, mask, 16);
  }

  lemma ClearReaderTop(word: nat, high: nat, low: nat, mask: nat)
    requires high <= 0x8000 && low <= 0x8000 && word == high * 0x10000 + low && mask == Not(READER_TOP_MASK)
    ensures And(word, mask) == Cleared(high) * 0x10000 + low
  {
    var digit := if high == 0x8000 then 1 else 0;
    var rest := Cleared(high) * 0x10000 + low;
    ShiftBy31(digit, 31);
    ShiftBy31(1, 31);
    ShiftBy31(0, 31);
    AndClearsDigit(word, 0, digit, rest, mask, 31, 0);
  }

  lemma ClearWriterTop(word: nat, high: nat, low: nat, mask: nat)
    requires high <= 0x8000 && low <= 0x8000 && word == high * 0x10000 + low && mask == Not(WRITER_TOP_MASK)
    ensures And(word, mask) == high * 0x10000 + Cleared(low)
  {
    var digit := if low == 0x8000 then 1 else 0;
    ShiftBy15(2 * high + digit, 15);
    ShiftBy15(2 * high, 15);
    ShiftBy15(1, 15);
    ShiftBy16(1, 16);
    ShiftBy15(2 * Ones(16), 15);
    AndClearsDigit(word, high, digit, Cleared(low), mask, 15, 16);
  }

  /** The first write of an update touches its own half only, and only when the top bit is set. */
  lemma ClearTouchesOneHalf(word: Word, r: nat, w: nat, k: Kind)
    requires word == Pack(r, w)
    ensures ClearTop(word, k)
         == if k.Reader? then Cleared(Half(r)) * 0x10000 + Half(w) else Half(r) * 0x10000 + Cleared(Half(w))
  {
    if k.Reader? {
      ClearReaderTop(word, Half(r), Half(w), Not(TopMask(k)));
    } else {
      ClearWriterTop(word, Half(r), Half(w), Not(TopMask(k)));
    }
  }

  lemma HalfAdvances(n: nat)
    ensures Half(n + 1) == Cleared(Half(n)) + 1
  {
  }

  lemma AddToReaders(word: Word, r: nat, w: nat)
    requires word == Cleared(Half(r)) * 0x10000 + Half(w)
    ensures Add(word, READER_COUNT_INC) == Pack(r + 1, w)
  {
    HalfAdvances(r);
  }

  lemma AddToWriters(word: Word, r: nat, w: nat)
    requires word == Half(r) * 0x10000 + Cleared(Half(w))
    ensures Add(word, WRITER_COUNT_INC) == Pack(r, w + 1)
  {
    HalfAdvances(w);
  }

  /** The second write completes the update: no carry leaves the writer half. */
  lemma UpdateAdvancesOneCount(word: Word, r: nat, w: nat, k: Kind)
    requires word == Pack(r, w)
    ensures AddOne(ClearTop(word, k), k) == if k.Reader? then Pack(r + 1, w) else Pack(r, w + 1)
  {
    ClearTouchesOneHalf(word, r, w, k);
    if k.Reader? {
      AddToReaders(ClearTop(word, k), r, w);
    } else {
      AddToWriters(ClearTop(word, k), r, w);
    }
  }
}
