/** bytebuffer.cpp: BitBuff, an array of bits packed into octets, against an array of booleans. */
module BitBuff {

  const CHAR_BIT := 8
  const SIZE_SPAN := 0x1_0000_0000

  /** The values of TySet, which is int. */
  type Index = i: int | -0x8000_0000 <= i < 0x8000_0000

  /** 1 << k, for the bit k of an octet. */
  function Mask(k: nat): bv8
    requires k < CHAR_BIT
  {
    if k == 0 then 0x01 else if k == 1 then 0x02 else if k == 2 then 0x04 else if k == 3 then 0x08
    else if k == 4 then 0x10 else if k == 5 then 0x20 else if k == 6 then 0x40 else 0x80
  }

  predicate BitOf(b: bv8, k: nat)
    requires k < CHAR_BIT
  {
    b & Mask(k) != 0
  }

  /** An octet with one bit cleared and then set to v. */
  function WithBit(b: bv8, m: bv8, v: bool): bv8 {
    (b & !m) | (if v then m else 0)
  }

  predicate Bit(buf: seq<bv8>, i: nat)
    requires i < CHAR_BIT * |buf|
  {
    BitOf(buf[i / CHAR_BIT], i % CHAR_BIT)
  }

  /** The first n bits, as booleans. */
  function Bits(buf: seq<bv8>, n: nat): (bits: seq<bool>)
    requires n <= CHAR_BIT * |buf|
    ensures |bits| == n && forall i :: 0 <= i < n ==> bits[i] == Bit(buf, i)
  {
    seq(n, i requires 0 <= i < n => Bit(buf, i))
  }

  function Write(buf: seq<bv8>, i: nat, v: bool): (r: seq<bv8>)
    requires i < CHAR_BIT * |buf|
    ensures |r| == |buf|
  {
    buf[i / CHAR_BIT := WithBit(buf[i / CHAR_BIT], Mask(i % CHAR_BIT), v)]
  }

  // ------ one octet ---------------------------------------------------------------------------

  lemma MasksApart(j: nat, k: nat)
    requires j < CHAR_BIT && k < CHAR_BIT
    ensures Mask(k) != 0 && (j != k ==> Mask(j) & Mask(k) == 0)
  {
  }

  lemma WithBitAt(b: bv8, m: bv8, v: bool, n: bv8)
    requires m != 0
    ensures WithBit(b, m, v) & m != 0 <==> v
    ensures n & m == 0 ==> WithBit(b, m, v) & n == b & n
  {
    if v {
      assert ((b & !m) | m) & m == m;
    } else {
      assert ((b & !m) | 0) & m == 0;
    }
  }

  lemma WithBitBits(b: bv8, k: nat, v: bool, j: nat)
    requires j < CHAR_BIT && k < CHAR_BIT
    ensures BitOf(WithBit(b, Mask(k), v), j) == if j == k then v else BitOf(b, j)
  {
    MasksApart(j, k);
    WithBitAt(b, Mask(k), v, Mask(j));
  }

  /** Octets with the same bits are the same. */
  lemma SameOctet(a: bv8, b: bv8)
    requires forall k: nat :: k < CHAR_BIT ==> BitOf(a, k) == BitOf(b, k)
    ensures a == b
  {
    assert BitOf(a, 0) == BitOf(b, 0) && BitOf(a, 1) == BitOf(b, 1);
    assert BitOf(a, 2) == BitOf(b, 2) && BitOf(a, 3) == BitOf(b, 3);
    assert BitOf(a, 4) == BitOf(b, 4) && BitOf(a, 5) == BitOf(b, 5);
    assert BitOf(a, 6) == BitOf(b, 6) && BitOf(a, 7) == BitOf(b, 7);
    EightBits(a, b);
  }

  lemma EightBits(a: bv8, b: bv8)
    requires (a & 0x01 != 0) == (b & 0x01 != 0) && (a & 0x02 != 0) == (b & 0x02 != 0)
    requires (a & 0x04 != 0) == (b & 0x04 != 0) && (a & 0x08 != 0) == (b & 0x08 != 0)
    requires (a & 0x10 != 0) == (b & 0x10 != 0) && (a & 0x20 != 0) == (b & 0x20 != 0)
    requires (a & 0x40 != 0) == (b & 0x40 != 0) && (a & 0x80 != 0) == (b & 0x80 != 0)
    ensures a == b
  {
  }

  /** An octet is the number whose binary digits are its bits, the first bit being the one that counts 1. */
  lemma OctetValue(b: bv8)
    ensures b as int == Worth(BitOf(b, 0), 1) + Worth(BitOf(b, 1), 2) + Worth(BitOf(b, 2), 4) + Worth(BitOf(b, 3), 8)
      + Worth(BitOf(b, 4), 16) + Worth(BitOf(b, 5), 32) + Worth(BitOf(b, 6), 64) + Worth(BitOf(b, 7), 128)
  {
  }

  function Worth(bit: bool, value: nat): nat {
    if bit then value else 0
  }

  // ------ the buffer --------------------------------------------------------------------------

  /** Writing changes one bit and no other. */
  lemma WriteBit(buf: seq<bv8>, i: nat, v: bool, j: nat)
    requires i < CHAR_BIT * |buf| && j < CHAR_BIT * |buf|
    ensures Bit(Write(buf, i, v), j) == if j == i then v else Bit(buf, j)
  {
    if i / CHAR_BIT == j / CHAR_BIT {
      WithBitBits(buf[i / CHAR_BIT], i % CHAR_BIT, v, j % CHAR_BIT);
    }
  }

  lemma WriteBits(buf: seq<bv8>, i: nat, v: bool, n: nat)
    requires i < n <= CHAR_BIT * |buf|
    ensures Bits(Write(buf, i, v), n) == Bits(buf, n)[i := v]
  {
    forall j | 0 <= j < n ensures Bits(Write(buf, i, v), n)[j] == Bits(buf, n)[i := v][j] {
      WriteBit(buf, i, v, j);
    }
  }

  /** Octet k holds the bits 8k to 8k + 7, the first of them counting 1 and the last 128. */
  lemma Layout(buf: seq<bv8>, k: nat)
    requires k < |buf|
    ensures var i := 8 * k;
      buf[k] as int == Worth(Bit(buf, i), 1) + Worth(Bit(buf, i + 1), 2) + Worth(Bit(buf, i + 2), 4)
        + Worth(Bit(buf, i + 3), 8) + Worth(Bit(buf, i + 4), 16) + Worth(Bit(buf, i + 5), 32)
        + Worth(Bit(buf, i + 6), 64) + Worth(Bit(buf, i + 7), 128)
  {
    forall j: nat | j < 8 ensures Bit(buf, 8 * k + j) == BitOf(buf[k], j) {
      assert (8 * k + j) / 8 == k && (8 * k + j) % 8 == j;
    }
    OctetValue(buf[k]);
  }

  /** Buffers with the same bits, also those beyond the last index, are the same. */
  lemma SameBuffer(a: seq<bv8>, b: seq<bv8>)
    requires |a| == |b| && forall i: nat :: i < CHAR_BIT * |a| ==> Bit(a, i) == Bit(b, i)
    ensures a == b
  {
    forall k | 0 <= k < |a| ensures a[k] == b[k] {
      forall j: nat | j < CHAR_BIT ensures BitOf(a[k], j) == BitOf(b[k], j) {
        assert Bit(a, CHAR_BIT * k + j) == Bit(b, CHAR_BIT * k + j);
      }
      SameOctet(a[k], b[k]);
    }
  }

  /** Writing back the bit that was there restores the whole buffer. */
  lemma WriteBack(buf: seq<bv8>, i: nat, v: bool)
    requires i < CHAR_BIT * |buf|
    ensures Write(Write(buf, i, v), i, Bit(buf, i)) == buf
  {
    var r := Write(Write(buf, i, v), i, Bit(buf, i));
    forall j: nat | j < CHAR_BIT * |buf| ensures Bit(r, j) == Bit(buf, j) {
      WriteBit(buf, i, v, j);
      WriteBit(Write(buf, i, v), i, Bit(buf, i), j);
    }
    SameBuffer(r, buf);
  }

  /** Writes to different bits can be exchanged; of two writes to one bit the second counts. */
  lemma WritesCommute(buf: seq<bv8>, i: nat, v: bool, j: nat, w: bool)
    requires i < CHAR_BIT * |buf| && j < CHAR_BIT * |buf|
    ensures i != j ==> Write(Write(buf, i, v), j, w) == Write(Write(buf, j, w), i, v)
    ensures i == j ==> Write(Write(buf, i, v), j, w) == Write(buf, j, w)
  {
    var a := Write(Write(buf, i, v), j, w);
    var b := if i == j then Write(buf, j, w) else Write(Write(buf, j, w), i, v);
    forall k: nat | k < CHAR_BIT * |buf| ensures Bit(a, k) == Bit(b, k) {
      WriteBit(buf, i, v, k);
      WriteBit(buf, j, w, k);
      WriteBit(Write(buf, i, v), j, w, k);
      WriteBit(Write(buf, j, w), i, v, k);
    }
    SameBuffer(a, b);
  }

  // ------ text --------------------------------------------------------------------------------

  predicate IsBitChar(c: char) {
    c == '0' || c == '1'
  }

  function CharOf(bit: bool): char {
    if bit then '1' else '0'
  }

  /** The bits after an import: a character that is neither '0' nor '1' leaves its bit alone. */
  function Imported(bits: seq<bool>, text: seq<char>): (r: seq<bool>)
    requires |text| >= |bits|
    ensures |r| == |bits|
    ensures forall i :: 0 <= i < |r| ==> r[i] == if IsBitChar(text[i]) then text[i] == '1' else bits[i]
  {
    if bits == [] then [] else [if IsBitChar(text[0]) then text[0] == '1' else bits[0]] + Imported(bits[1..], text[1..])
  }

  /** The text of an export, and the NUL behind it. */
  function Exported(bits: seq<bool>): (text: seq<char>)
    ensures |text| == |bits| + 1 && text[|bits|] == '\0'
    ensures forall i :: 0 <= i < |bits| ==> text[i] == if bits[i] then '1' else '0'
  {
    if bits == [] then ['\0'] else [CharOf(bits[0])] + Exported(bits[1..])
  }

  /** Exporting after an import gives back every '0' and '1', and the old bit where the text had something else. */
  lemma ExportAfterImport(bits: seq<bool>, text: seq<char>, i: nat)
    requires |text| >= |bits| && i < |bits|
    ensures Exported(Imported(bits, text))[i] == if IsBitChar(text[i]) then text[i] else Exported(bits)[i]
  {
  }

  /** Importing an export gives the exported bits, whatever was there; so importing one's own export changes nothing. */
  lemma ImportOfExport(bits: seq<bool>, other: seq<bool>)
    requires |bits| == |other|
    ensures Imported(other, Exported(bits)) == bits
  {
  }

  // ------ the class ---------------------------------------------------------------------------

  class BitBuff {
    const bitCount: nat
    const buffer: array<bv8>

    ghost predicate Valid() {
      bitCount <= 0x8000_0000 && buffer.Length == 1 + bitCount / CHAR_BIT
    }

    /** The bits held. */
    ghost function Content(): (bits: seq<bool>)
      reads buffer
      requires Valid()
      ensures |bits| == bitCount
    {
      Bits(buffer[..], bitCount)
    }

    constructor (bitCount: nat)
      requires bitCount <= 0x8000_0000
      ensures Valid() && this.bitCount == bitCount && fresh(buffer)
      ensures forall i :: 0 <= i < bitCount ==> !Content()[i]
    {
      this.bitCount := bitCount;
      buffer := new bv8[1 + bitCount / CHAR_BIT](_ => 0);
      new;
      forall i: nat | i < bitCount ensures !Bit(buffer[..], i) {
        assert buffer[..][i / CHAR_BIT] == 0;
        NoBits(i % CHAR_BIT);
      }
    }

    /** Reads a bit; an index that is negative or too large fails and leaves the bit of the caller. */
    method Get(whereFrom: Index, toGet: bool) returns (ok: bool, toGet': bool)
      requires Valid()
      ensures ok <==> 0 <= whereFrom < bitCount
      ensures toGet' == if ok then Content()[whereFrom] else toGet
    {
      // the index is compared as an unsigned number
      if !(whereFrom % SIZE_SPAN < bitCount) {
        return false, toGet;
      }
      var bufferIdx, bitIdx := whereFrom / CHAR_BIT, whereFrom % CHAR_BIT;
      if !(bufferIdx < buffer.Length) {
        return false, toGet;
      }
      ok, toGet' := true, buffer[bufferIdx] & Mask(bitIdx) != 0;
    }

    /** An octet with the bit of a mask cleared and set to aBit. */
    method Masked(octet: bv8, mask: bv8, aBit: bool) returns (r: bv8)
      ensures r == WithBit(octet, mask, aBit)
    {
      var maskedValue := octet & !mask;
      r := maskedValue | (if aBit then mask else 0);
    }

    /** Writes a bit and reports the one before. */
    method Set(toSet: Index, aBit: bool, beforeBit: bool) returns (ok: bool, beforeBit': bool)
      requires Valid()
      modifies buffer
      ensures ok <==> 0 <= toSet < bitCount
      ensures beforeBit' == if ok then old(Content())[toSet] else beforeBit
      ensures buffer[..] == if ok then Write(old(buffer[..]), toSet, aBit) else old(buffer[..])
      ensures Content() == if ok then old(Content())[toSet := aBit] else old(Content())
    {
      ok, beforeBit' := Get(toSet, beforeBit);
      if !ok {
        return;
      }
      var bufferIdx, bitIdx := toSet / CHAR_BIT, toSet % CHAR_BIT;
      WriteBits(buffer[..], toSet, aBit, bitCount);
      var octet := Masked(buffer[bufferIdx], Mask(bitIdx), aBit);
      buffer[bufferIdx] := octet;
    }

    /** Setting a bit and then the reported old bit leaves the buffer as it was. */
    method SetAndRestore(toSet: Index, aBit: bool) returns (ok: bool)
      requires Valid()
      modifies buffer
      ensures buffer[..] == old(buffer[..])
    {
      var before, ignored;
      ok, before := Set(toSet, aBit, false);
      if ok {
        WriteBack(old(buffer[..]), toSet, aBit);
        ok, ignored := Set(toSet, before, false);
      }
    }

    /** Sets the bits that the text names; all bitCount characters are looked at, also past a NUL. */
    method ImportFrom(fromStr: array<char>)
      requires Valid() && fromStr.Length == bitCount + 1
      modifies buffer
      ensures buffer[..] == ImportedTo(old(buffer[..]), fromStr[..], bitCount)
      ensures Content() == Imported(old(Content()), fromStr[..])
    {
      for sizeCur := 0 to bitCount
        invariant buffer[..] == ImportedTo(old(buffer[..]), fromStr[..], sizeCur)
      {
        var currentChar := fromStr[sizeCur];
        if !(currentChar == '0' || currentChar == '1') {
          continue;
        }
        var currentBit := '1' == currentChar;
        var ok, before := Set(sizeCur, currentBit, false);
      }
      ImportedBits(old(buffer[..]), fromStr[..], bitCount);
    }

    /** Writes the bits as text. */
    method ExportTo(toStr: array<char>)
      requires Valid() && toStr.Length == bitCount + 1
      modifies toStr
      ensures toStr[..] == Exported(Content())
    {
      for sizeCur := 0 to bitCount
        invariant forall i :: 0 <= i < sizeCur ==> toStr[i] == CharOf(Content()[i])
      {
        var ok, bit := Get(sizeCur, false);
        toStr[sizeCur] := CharOf(bit);
      }
      toStr[bitCount] := '\0';
    }

    /** An exported buffer, imported into any buffer of its size, makes the two agree. */
    method CopyThroughText(other: BitBuff, text: array<char>)
      requires Valid() && other.Valid() && other.bitCount == bitCount && text.Length == bitCount + 1
      requires buffer != other.buffer
      modifies text, other.buffer
      ensures other.Content() == Content() == old(Content())
    {
      ExportTo(text);
      ImportOfExport(Content(), other.Content());
      other.ImportFrom(text);
    }
  }

  lemma NoBits(k: nat)
    requires k < CHAR_BIT
    ensures !BitOf(0, k)
  {
  }

  // ------ every sequence of operations --------------------------------------------------------

  datatype Op = Set(i: Index, v: bool) | Get(j: Index) | Import(text: seq<char>)

  /** What an operation reports: the bit read or the bit before a write, or that it failed. */
  datatype Report = Reported(bit: bool) | Failed | Nothing

  /** The operations on an array of booleans, and what they report. */
  function BitsReport(bits: seq<bool>, op: Op): Report {
    match op
    case Set(i, _) => if 0 <= i < |bits| then Reported(bits[i]) else Failed
    case Get(j) => if 0 <= j < |bits| then Reported(bits[j]) else Failed
    case Import(_) => Nothing
  }

  /** What the array of booleans is after an operation. */
  function OnBits(bits: seq<bool>, op: Op): (r: seq<bool>)
    ensures |r| == |bits|
  {
    match op
    case Set(i, v) => if 0 <= i < |bits| then bits[i := v] else bits
    case Get(_) => bits
    case Import(text) => if |text| == |bits| + 1 then Imported(bits, text) else bits
  }

  /** The operations on the packed buffer, of which the first n bits are in use, and what they report. */
  function BufferReport(buf: seq<bv8>, n: nat, op: Op): Report
    requires n <= CHAR_BIT * |buf|
  {
    match op
    case Set(i, _) => if 0 <= i < n then Reported(Bit(buf, i)) else Failed
    case Get(j) => if 0 <= j < n then Reported(Bit(buf, j)) else Failed
    case Import(_) => Nothing
  }

  /** What the packed buffer is after an operation. */
  function OnBuffer(buf: seq<bv8>, n: nat, op: Op): (r: seq<bv8>)
    requires n <= CHAR_BIT * |buf|
    ensures |r| == |buf|
  {
    match op
    case Set(i, v) => if 0 <= i < n then Write(buf, i, v) else buf
    case Get(_) => buf
    case Import(text) => if |text| == n + 1 then ImportedTo(buf, text, n) else buf
  }

  /** The first k turns of the loop of ImportFrom. */
  function ImportedTo(buf: seq<bv8>, text: seq<char>, k: nat): (r: seq<bv8>)
    requires k <= |text| && k <= CHAR_BIT * |buf|
    ensures |r| == |buf|
  {
    if k == 0 then buf
    else
      var r := ImportedTo(buf, text, k - 1);
      if IsBitChar(text[k - 1]) then Write(r, k - 1, text[k - 1] == '1') else r
  }

  lemma {:induction false} ImportedToBit(buf: seq<bv8>, text: seq<char>, k: nat, j: nat)
    requires k <= |text| && k <= CHAR_BIT * |buf| && j < CHAR_BIT * |buf|
    ensures Bit(ImportedTo(buf, text, k), j) == if j < k && IsBitChar(text[j]) then text[j] == '1' else Bit(buf, j)
  {
    if k > 0 {
      ImportedToBit(buf, text, k - 1, j);
      WriteBit(ImportedTo(buf, text, k - 1), k - 1, text[k - 1] == '1', j);
    }
  }

  /** An import into the buffer is the import into the bits in use, and no other bit changes. */
  lemma ImportedBits(buf: seq<bv8>, text: seq<char>, n: nat)
    requires n <= |text| && n <= CHAR_BIT * |buf|
    ensures Bits(ImportedTo(buf, text, n), n) == Imported(Bits(buf, n), text)
    ensures forall j: nat :: n <= j < CHAR_BIT * |buf| ==> Bit(ImportedTo(buf, text, n), j) == Bit(buf, j)
  {
    var r := ImportedTo(buf, text, n);
    forall j: nat | j < CHAR_BIT * |buf|
      ensures Bit(r, j) == if j < n && IsBitChar(text[j]) then text[j] == '1' else Bit(buf, j)
    {
      ImportedToBit(buf, text, n, j);
    }
  }

  function AllOnBits(bits: seq<bool>, ops: seq<Op>): (r: seq<bool>)
    decreases |ops|
  {
    if ops == [] then bits else AllOnBits(OnBits(bits, ops[0]), ops[1..])
  }

  function AllOnBuffer(buf: seq<bv8>, n: nat, ops: seq<Op>): (r: seq<bv8>)
    requires n <= CHAR_BIT * |buf|
    ensures |r| == |buf|
    decreases |ops|
  {
    if ops == [] then buf else AllOnBuffer(OnBuffer(buf, n, ops[0]), n, ops[1..])
  }

  function ReportsOnBits(bits: seq<bool>, ops: seq<Op>): (r: seq<Report>)
    ensures |r| == |ops|
    decreases |ops|
  {
    if ops == [] then [] else [BitsReport(bits, ops[0])] + ReportsOnBits(OnBits(bits, ops[0]), ops[1..])
  }

  function ReportsOnBuffer(buf: seq<bv8>, n: nat, ops: seq<Op>): (r: seq<Report>)
    requires n <= CHAR_BIT * |buf|
    ensures |r| == |ops|
    decreases |ops|
  {
    if ops == [] then []
    else [BufferReport(buf, n, ops[0])] + ReportsOnBuffer(OnBuffer(buf, n, ops[0]), n, ops[1..])
  }

  lemma OpRefines(buf: seq<bv8>, n: nat, op: Op)
    requires n <= CHAR_BIT * |buf|
    ensures Bits(OnBuffer(buf, n, op), n) == OnBits(Bits(buf, n), op)
    ensures forall j: nat :: n <= j < CHAR_BIT * |buf| ==> Bit(OnBuffer(buf, n, op), j) == Bit(buf, j)
  {
    match op
    case Set(i, v) =>
      if 0 <= i < n {
        WriteBits(buf, i, v, n);
        forall j: nat | n <= j < CHAR_BIT * |buf| ensures Bit(Write(buf, i, v), j) == Bit(buf, j) {
          WriteBit(buf, i, v, j);
        }
      }
    case Get(_) =>
    case Import(text) =>
      if |text| == n + 1 {
        ImportedBits(buf, text, n);
      }
  }

  /**
    * Under every sequence of operations the buffer is the array of booleans, every get and set reports
    * what it reports there, and the spare bits stay.
    */
  lemma {:induction false} BufferRefinesBits(buf: seq<bv8>, n: nat, ops: seq<Op>)
    requires n <= CHAR_BIT * |buf|
    ensures Bits(AllOnBuffer(buf, n, ops), n) == AllOnBits(Bits(buf, n), ops)
    ensures ReportsOnBuffer(buf, n, ops) == ReportsOnBits(Bits(buf, n), ops)
    ensures forall j: nat :: n <= j < CHAR_BIT * |buf| ==> Bit(AllOnBuffer(buf, n, ops), j) == Bit(buf, j)
    decreases |ops|
  {
    if ops != [] {
      OpRefines(buf, n, ops[0]);
      BufferRefinesBits(OnBuffer(buf, n, ops[0]), n, ops[1..]);
    }
  }

  /** A call of ImportFrom with the text in an array. */
  method ImportText(buff: BitBuff, text: seq<char>)
    requires buff.Valid() && |text| == buff.bitCount + 1
    modifies buff.buffer
    ensures buff.buffer[..] == ImportedTo(old(buff.buffer[..]), text, buff.bitCount)
  {
    var fromStr := new char[|text|](i requires 0 <= i < |text| => text[i]);
    assert fromStr[..] == text;
    buff.ImportFrom(fromStr);
  }

  /** One operation on the object. */
  method Perform(buff: BitBuff, op: Op) returns (report: Report)
    requires buff.Valid() && (op.Import? ==> |op.text| == buff.bitCount + 1)
    modifies buff.buffer
    ensures buff.buffer[..] == OnBuffer(old(buff.buffer[..]), buff.bitCount, op)
    ensures report == BufferReport(old(buff.buffer[..]), buff.bitCount, op)
  {
    match op
    case Set(i, v) =>
      var ok, before := buff.Set(i, v, false);
      report := if ok then Reported(before) else Failed;
    case Get(j) =>
      var ok, bit := buff.Get(j, false);
      report := if ok then Reported(bit) else Failed;
    case Import(text) =>
      ImportText(buff, text);
      report := Nothing;
  }

  /** Every sequence of calls behaves, and reports, as on an array of booleans. */
  method PerformAll(buff: BitBuff, ops: seq<Op>) returns (reports: seq<Report>)
    requires buff.Valid() && forall k :: 0 <= k < |ops| && ops[k].Import? ==> |ops[k].text| == buff.bitCount + 1
    modifies buff.buffer
    ensures buff.buffer[..] == AllOnBuffer(old(buff.buffer[..]), buff.bitCount, ops)
    ensures buff.Content() == AllOnBits(old(buff.Content()), ops)
    ensures reports == ReportsOnBits(old(buff.Content()), ops)
    decreases |ops|
  {
    BufferRefinesBits(buff.buffer[..], buff.bitCount, ops);
    reports := [];
    if ops != [] {
      OpRefines(buff.buffer[..], buff.bitCount, ops[0]);
      var report := Perform(buff, ops[0]);
      var rest := PerformAll(buff, ops[1..]);
      reports := [report] + rest;
    }
  }
}
