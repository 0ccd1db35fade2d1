/**
 The CRC of the sample code in section 8 of RFC 1952, which divides from the
 least significant bit with the reversed polynomial, and `crc_32_type`.
 */
module CrcRfc1952 {
  import opened Bits
  import opened CrcSpec
  import opened CrcWords
  import opened CrcEngines
  import opened HexWords

  /** `c & 1 ? p ^ (c >> 1) : c >> 1`. */
  function LsbStep(c: Word, p: Word): (c': Word)
    requires |c| == |p| > 0
    ensures |c'| == |c|
  {
    if c[|c| - 1] then Xor(p, Shr(c, 1)) else Shr(c, 1)
  }

  function LsbSteps(c: Word, k: nat, p: Word): (c': Word)
    requires |c| == |p| > 0
    ensures |c'| == |c|
    decreases k
  {
    if k == 0 then c else LsbSteps(LsbStep(c, p), k - 1, p)
  }

  /** `crc_table[index]` as `make_crc_table` computes it. */
  function LsbTable(index: Byte, p: Word): (c: Word)
    requires |p| >= 8
    ensures |c| == |p|
  {
    LsbSteps(Zeros(|p| - 8) + index, 8, p)
  }

  /** The loop of `update_crc`: `c = crc_table[(c ^ buf[n]) & 0xff] ^ (c >> 8)`. */
  function Update(c: Word, data: seq<Byte>, p: Word): (c': Word)
    requires |c| == |p| >= 8
    ensures |c'| == |c|
    decreases |data|
  {
    if data == [] then c
    else Update(Xor(LsbTable(Xor(Low(c, 8), data[0]), p), Shr(c, 8)), data[1..], p)
  }

  function Ones(n: nat): (c: Word)
    ensures |c| == n
  {
    seq(n, i => true)
  }

  /** `crc(buf, len)`: `update_crc(0, buf, len)`, complemented before and after. */
  function GzipCrc(data: seq<Byte>): (c: Word)
    ensures |c| == 32
  {
    Xor(Update(Xor(Zeros(32), Ones(32)), data, ToWord(0xEDB88320, 32)), Ones(32))
  }

  /** All bits are set: as a number, one less than the next power of two. */
  lemma {:induction false} OnesAreSet(n: nat)
    ensures forall i :: 0 <= i < n ==> Ones(n)[i]
    ensures ToWord(Pow2(n) - 1, n) == Ones(n)
  {
    if n > 0 {
      OnesAreSet(n - 1);
      assert (Pow2(n) - 1) / 2 == Pow2(n - 1) - 1 && (Pow2(n) - 1) % 2 == 1;
    }
  }

  /** Complementing changes every bit. */
  lemma Complements(w: Word)
    ensures forall i :: 0 <= i < |w| ==> Xor(w, Ones(|w|))[i] == !w[i]
  {
    OnesAreSet(|w|);
  }

  // ---------- Reflection conjugates the two divisions ----------

  lemma LsbStepReverses(r: Word, poly: Word)
    requires |r| == |poly| > 0
    ensures LsbStep(Reverse(r), Reverse(poly)) == Reverse(Step(r, false, poly))
  {
    var s := Shl(r, 1);
    assert Shr(Reverse(r), 1) == Reverse(s);
    ReverseXor(s, poly);
    XorComm(Reverse(poly), Reverse(s));
  }

  lemma {:induction false} LsbStepsReverse(r: Word, k: nat, poly: Word)
    requires |r| == |poly| > 0
    ensures LsbSteps(Reverse(r), k, Reverse(poly)) == Reverse(Steps(r, Zeros(k), poly))
    decreases k
  {
    if k > 0 {
      LsbStepReverses(r, poly);
      assert Zeros(k)[1..] == Zeros(k - 1);
      LsbStepsReverse(Step(r, false, poly), k - 1, poly);
    }
  }

  /**
   The table filled by most-significant-first division with both indices and
   entries reversed is the table of the least-significant-first division with
   the reversed polynomial.
   */
  lemma TablesAgree(index: Byte, poly: Word)
    requires |poly| >= 8
    ensures LsbTable(index, Reverse(poly)) == Reverse(Partial(index, poly, true))
  {
    var n := |poly|;
    var r := Reverse(index) + Zeros(n - 8);
    ReverseAppend(Reverse(index), Zeros(n - 8));
    ReverseTwice(index);
    ReverseZeros(n - 8);
    LsbStepsReverse(r, 8, poly);
    DivideZeros(r, 8, poly);
    StepsFromZero(Reverse(index), poly);
    AppendAssoc(Reverse(index), Zeros(n - 8), Zeros(8));
    ZerosAppend(n - 8, 8);
  }

  /** The two byte loops keep each other's register, reversed. */
  lemma {:induction false} UpdateReverses(r: Word, data: seq<Byte>, poly: Word)
    requires |r| == |poly| >= 8
    ensures Update(Reverse(r), data, Reverse(poly)) == Reverse(Steps(r, MessageBits(data, true), poly))
    decreases |data|
  {
    if data != [] {
      var c := Reverse(r);
      var index := Xor(data[0], Low(c, 8));
      var slot := LsbTable(index, Reverse(poly));
      TablesAgree(index, poly);
      assert Zeros(0) + c == c && Zeros(0) + slot == slot;
      ReflectedByteStep(c, r, data[0], slot, poly);
      var r' := Steps(r, Reverse(data[0]), poly);
      assert Zeros(0) + Reverse(r') == Reverse(r');
      XorComm(Low(c, 8), data[0]);
      XorComm(slot, Shr(c, 8));
      UpdateReverses(r', data[1..], poly);
      StepsAppend(r, Reverse(data[0]), MessageBits(data[1..], true), poly);
    }
  }

  // ---------- crc_32_type ----------

  lemma Numbers()
    ensures Number([0, 4, 0xC, 1, 1, 0xD, 0xB, 7]) == 0x04C11DB7
    ensures Number([0xE, 0xD, 0xB, 8, 8, 3, 2, 0]) == 0xEDB88320
  {
    EightDigits([0, 4, 0xC, 1], [1, 0xD, 0xB, 7]);
    EightDigits([0xE, 0xD, 0xB, 8], [8, 3, 2, 0]);
    assert [0, 4, 0xC, 1] + [1, 0xD, 0xB, 7] == [0, 4, 0xC, 1, 1, 0xD, 0xB, 7];
    assert [0xE, 0xD, 0xB, 8] + [8, 3, 2, 0] == [0xE, 0xD, 0xB, 8, 8, 3, 2, 0];
  }

  lemma MirroredDigits(d: seq<nat>, e: seq<nat>)
    requires d == [0, 4, 0xC, 1, 1, 0xD, 0xB, 7] && e == [0xE, 0xD, 0xB, 8, 8, 3, 2, 0]
    ensures forall i :: 0 <= i < 8 ==> d[i] < 16 && e[i] < 16 && e[7 - i] == Mirror(d[i])
  {}

  /** The two programs name one polynomial, written from opposite ends. */
  lemma PolynomialReversed()
    ensures Reverse(ToWord(0x04C11DB7, 32)) == ToWord(0xEDB88320, 32)
  {
    var d: seq<nat> := [0, 4, 0xC, 1, 1, 0xD, 0xB, 7];
    var e: seq<nat> := [0xE, 0xD, 0xB, 8, 8, 3, 2, 0];
    Numbers();
    MirroredDigits(d, e);
    HexNumber(d);
    HexNumber(e);
    HexReversed(d, e);
  }

  /** The mask of `crc_32_type`. */
  lemma OnesIs()
    ensures ToWord(0xFFFFFFFF, 32) == Ones(32)
  {
    OnesAreSet(32);
    PowOf32();
  }

  lemma GzipCrcWithOnes(data: seq<Byte>)
    ensures GzipCrc(data) == Checksum(ToWord(0x04C11DB7, 32), Ones(32), Ones(32), true, true, data)
  {
    var poly := ToWord(0x04C11DB7, 32);
    PolynomialReversed();
    assert Xor(Zeros(32), Ones(32)) == Ones(32) == Reverse(Ones(32));
    UpdateReverses(Ones(32), data, poly);
  }

  /** `crc_32_type` is the CRC of RFC 1952, on every message. */
  lemma GzipCrcIsCrc32(data: seq<Byte>)
    ensures var poly, mask := ToWord(0x04C11DB7, 32), ToWord(0xFFFFFFFF, 32);
      GzipCrc(data) == Checksum(poly, mask, mask, true, true, data)
  {
    OnesIs();
    GzipCrcWithOnes(data);
  }

  /** `crc_32_type` run over a message, in storage words of any width. */
  method Crc32(data: seq<Byte>, width: nat) returns (value: Word)
    requires width >= 32
    ensures value == Zeros(width - 32) + GzipCrc(data)
    ensures var poly, mask := ToWord(0x04C11DB7, 32), ToWord(0xFFFFFFFF, 32);
      Low(value, 32) == Checksum(poly, mask, mask, true, true, data)
  {
    var poly, mask := ToWord(0x04C11DB7, 32), ToWord(0xFFFFFFFF, 32);
    var widePoly, wideMask := Zeros(width - 32) + poly, Zeros(width - 32) + mask;
    LowExtended(width - 32, poly);
    LowExtended(width - 32, mask);
    var table := new CrcTable(32, widePoly, true);
    value := Crc(32, widePoly, wideMask, wideMask, true, true, table, data);
    GzipCrcIsCrc32(data);
    LowExtended(width - 32, GzipCrc(data));
  }

  // ---------- A known answer ----------

  lemma {:induction false} ZeroStays(k: nat, poly: Word)
    requires |poly| > 0
    ensures Steps(Zeros(|poly|), Zeros(k), poly) == Zeros(|poly|)
    decreases k
  {
    if k > 0 {
      assert Zeros(k)[1..] == Zeros(k - 1);
      assert Shl(Zeros(|poly|), 1) == Zeros(|poly|);
      ZeroStays(k - 1, poly);
    }
  }

  /** A message as wide as the register that equals it clears the register. */
  lemma {:induction false} Clears(r: Word, poly: Word)
    requires |r| == |poly| > 0
    ensures Steps(r, r, poly) == Zeros(|poly|)
  {
    StepsDivide(r, r, poly);
    XorAppend(r, Zeros(|r|), r, Zeros(|r|));
    XorZeros(r);
    XorZeros(Zeros(|r|));
    ZerosAppend(|r|, |r|);
    DivideZeros(Zeros(|r|), |r|, poly);
    ZeroStays(|r|, poly);
  }

  /** A single last bit leaves the divisor in a cleared register. */
  lemma LastBitLeavesPoly(poly: Word)
    requires |poly| > 0
    ensures Steps(Zeros(|poly|), Zeros(7) + [true], poly) == poly
  {
    StepsAppend(Zeros(|poly|), Zeros(7), [true], poly);
    ZeroStays(7, poly);
    OneStep(Zeros(|poly|), poly);
  }

  lemma OneStep(r: Word, poly: Word)
    requires |r| == |poly| > 0 && r == Zeros(|poly|)
    ensures Steps(r, [true], poly) == poly
  {
    assert Shl(r, 1) == Zeros(|poly|);
    XorZeros(poly);
    assert Steps(poly, [true][1..], poly) == poly;
  }

  lemma ComplementDigit(d: nat, e: nat)
    requires d < 16 && e == 15 - d
    ensures Xor(Digit(d), Ones(4)) == Digit(e)
  {
    assert e % 2 == 1 - d % 2 && e / 2 == 7 - d / 2;
    assert e / 2 / 2 == 3 - d / 2 / 2 && e / 2 / 2 / 2 == 1 - d / 2 / 2 / 2;
    Complements(Digit(d));
  }

  lemma OnesAppend(m: nat, n: nat)
    ensures Ones(m) + Ones(n) == Ones(m + n)
  {}

  lemma {:induction false} ComplementHex(d: seq<nat>, e: seq<nat>)
    requires |d| == |e| && forall i :: 0 <= i < |d| ==> d[i] < 16 && e[i] == 15 - d[i]
    ensures Xor(Hex(d), Ones(4 * |d|)) == Hex(e)
  {
    if d != [] {
      var n := |d| - 1;
      ComplementHex(d[..n], e[..n]);
      ComplementDigit(d[n], e[n]);
      OnesAppend(4 * n, 4);
      XorAppend(Hex(d[..n]), Digit(d[n]), Ones(4 * n), Ones(4));
    }
  }

  lemma DivisorDigits()
    ensures Hex([0xE, 0xD, 0xB, 8, 8, 3, 2, 0]) == ToWord(0xEDB88320, 32)
  {
    var d: seq<nat> := [0xE, 0xD, 0xB, 8, 8, 3, 2, 0];
    Numbers();
    HexNumber(d);
  }

  lemma AnswerDigits()
    ensures Hex([1, 2, 4, 7, 7, 0xC, 0xD, 0xF]) == ToWord(0x12477CDF, 32)
  {
    var d: seq<nat> := [1, 2, 4, 7, 7, 0xC, 0xD, 0xF];
    EightDigits([1, 2, 4, 7], [7, 0xC, 0xD, 0xF]);
    assert [1, 2, 4, 7] + [7, 0xC, 0xD, 0xF] == d;
    HexNumber(d);
  }

  lemma FourBytes(t: Word)
    ensures Ones(8) + (Ones(8) + (Ones(8) + (Ones(8) + t))) == Ones(32) + t
  {}

  lemma AnswerBits(data: seq<Byte>)
    requires var ff := HexByte(0xF, 0xF); data == [ff, ff, ff, ff, HexByte(8, 0)]
    ensures MessageBits(data, true) == Ones(32) + (Zeros(7) + [true])
  {
    var ff, last := HexByte(0xF, 0xF), HexByte(8, 0);
    assert Reverse(ff) == Ones(8) && Reverse(last) == Zeros(7) + [true];
    MessageTail(data, 0, true);
    MessageTail(data, 1, true);
    MessageTail(data, 2, true);
    MessageTail(data, 3, true);
    MessageTail(data, 4, true);
    assert data[0..] == data && data[5..] == [];
    assert MessageBits(data[4..], true) == Zeros(7) + [true];
    FourBytes(Zeros(7) + [true]);
  }

  /** A message that clears the register and ends with a single bit has the complement of the reversed divisor. */
  lemma ClearedAnswer(data: seq<Byte>, poly: Word)
    requires |poly| == 32 && MessageBits(data, true) == Ones(32) + (Zeros(7) + [true])
    ensures Checksum(poly, Ones(32), Ones(32), true, true, data) == Xor(Reverse(poly), Ones(32))
  {
    StepsAppend(Ones(32), Ones(32), Zeros(7) + [true], poly);
    Clears(Ones(32), poly);
    LastBitLeavesPoly(poly);
  }

  lemma AnswerMasked()
    ensures Xor(ToWord(0xEDB88320, 32), Ones(32)) == ToWord(0x12477CDF, 32)
  {
    DivisorDigits();
    AnswerDigits();
    ComplementHex([0xE, 0xD, 0xB, 8, 8, 3, 2, 0], [1, 2, 4, 7, 7, 0xC, 0xD, 0xF]);
  }

  /** The CRC of the message FF FF FF FF 80 is 0x12477CDF. */
  lemma KnownAnswer()
    ensures var ff := HexByte(0xF, 0xF);
      GzipCrc([ff, ff, ff, ff, HexByte(8, 0)]) == ToWord(0x12477CDF, 32)
  {
    var ff := HexByte(0xF, 0xF);
    var data: seq<Byte> := [ff, ff, ff, ff, HexByte(8, 0)];
    AnswerBits(data);
    GzipCrcWithOnes(data);
    ClearedAnswer(data, ToWord(0x04C11DB7, 32));
    PolynomialReversed();
    AnswerMasked();
  }
}
