/**
 Which transmission errors a CRC sees: the guarantee about error bursts that CRCs
 are used for, and exactly which divisors give it.
 */
module CrcBursts {
  import opened Bits
  import opened CrcSpec
  import opened CrcWords
  import opened CrcTheorems
  import opened HexWords

  // ---------- Registers, bit by bit ----------

  /** Two messages of one length differ, and only within some window of n consecutive bits. */
  ghost predicate Burst(a: Word, b: Word, n: nat) {
    |a| == |b| && exists i :: FirstDifference(a, b, i) && forall j :: i + n <= j < |a| ==> a[j] == b[j]
  }

  ghost predicate FirstDifference(a: Word, b: Word, i: int) {
    |a| == |b| && 0 <= i < |a| && a[i] != b[i] && forall j :: 0 <= j < i ==> a[j] == b[j]
  }

  lemma MeetLinear(r: Word, a: Word, b: Word)
    requires |a| == |b|
    ensures Xor(Meet(r, a), Meet(r, b)) == Xor(a, b) + Zeros(|r|)
  {
    var e := r + Zeros(|a|);
    XorSwap(e, a + Zeros(|r|), e, b + Zeros(|r|));
    XorZeros(e);
    XorAppend(a, Zeros(|r|), b, Zeros(|r|));
    XorZeros(Zeros(|r|));
    XorZeros(Xor(a, b) + Zeros(|r|));
  }

  /** Whatever the initial remainder, registers differ by the remainder of the messages' difference. */
  lemma StepsDifference(r: Word, a: Word, b: Word, poly: Word)
    requires |r| == |poly| > 0 && |a| == |b|
    ensures Xor(Steps(r, a, poly), Steps(r, b, poly)) == Steps(Zeros(|poly|), Xor(a, b), poly)
  {
    StepsDivide(r, a, poly);
    StepsDivide(r, b, poly);
    LongDivLinear(Meet(r, a), Meet(r, b), poly);
    MeetLinear(r, a, b);
    StepsFromZero(Xor(a, b), poly);
  }

  lemma XorIsZero(a: Word, b: Word)
    requires |a| == |b|
    ensures a == b <==> Xor(a, b) == Zeros(|a|)
  {
    XorZeros(b);
    XorCancel(a, b, b);
  }

  /** Zero bits never clear a register when the divisor has its constant term. */
  lemma {:induction false} NonzeroStays(r: Word, k: nat, poly: Word)
    requires |r| == |poly| > 0 && poly[|poly| - 1] && r != Zeros(|r|)
    ensures Steps(r, Zeros(k), poly) != Zeros(|r|)
    decreases k
  {
    if k > 0 {
      var s := Step(r, false, poly);
      if r[0] {
        assert s[|r| - 1];
      } else {
        NonzeroTail(r);
      }
      assert Zeros(k)[1..] == Zeros(k - 1);
      NonzeroStays(s, k - 1, poly);
    }
  }

  lemma NonzeroTail(r: Word)
    requires r != [] && !r[0] && r != Zeros(|r|)
    ensures Shl(r, 1) != Zeros(|r|)
  {
    var i :| 0 <= i < |r| && r[i];
    assert Shl(r, 1)[i - 1];
  }

  /** A divisor with a constant term sees every burst error of up to n bits, whatever the initial remainder. */
  lemma BurstIsSeen(r: Word, a: Word, b: Word, poly: Word)
    requires |r| == |poly| > 0 && poly[|poly| - 1] && Burst(a, b, |poly|)
    ensures Steps(r, a, poly) != Steps(r, b, poly)
  {
    var n := |poly|;
    var i :| FirstDifference(a, b, i) && forall j :: i + n <= j < |a| ==> a[j] == b[j];
    var d := Xor(a, b) + Zeros(n);
    var head, k := d[i..i + n], |a| - i;
    assert d == Zeros(i) + (head + Zeros(k));
    assert head[0];
    StepsDifference(r, a, b, poly);
    StepsFromZero(Xor(a, b), poly);
    LongDivPadded(i, head + Zeros(k), poly);
    DivideZeros(head, k, poly);
    NonzeroStays(head, k, poly);
    XorIsZero(Steps(r, a, poly), Steps(r, b, poly));
  }

  /** Without the constant term the divisor itself is a burst of n bits that no register sees. */
  lemma DivisorIsMissed(r: Word, poly: Word)
    requires |r| == |poly| > 0 && !poly[|poly| - 1]
    ensures var a, b := Zeros(|poly| + 1), [true] + poly;
      Burst(a, b, |poly|) && Steps(r, a, poly) == Steps(r, b, poly)
  {
    var n := |poly|;
    var a, b := Zeros(n + 1), [true] + poly;
    assert FirstDifference(a, b, 0);
    XorZeros(b);
    StepsDifference(r, a, b, poly);
    DivisorLeavesNothing(poly);
    XorIsZero(Steps(r, a, poly), Steps(r, b, poly));
  }

  lemma DivisorLeavesNothing(poly: Word)
    requires |poly| > 0
    ensures Steps(Zeros(|poly|), [true] + poly, poly) == Zeros(|poly|)
  {
    var n := |poly|;
    var d := [true] + poly + Zeros(n);
    StepsFromZero([true] + poly, poly);
    assert d[1..] == poly + Zeros(n);
    XorZeros(poly + Zeros(n));
    ZerosAppend(n, n);
    LongDivPadded(n, Zeros(n), poly);
    assert DivStep(d, poly) == Zeros(n) + Zeros(n);
  }

  ghost predicate SeesBursts(poly: Word)
    requires |poly| > 0
  {
    forall r: Word, a: Word, b: Word :: |r| == |poly| && Burst(a, b, |poly|) ==> Steps(r, a, poly) != Steps(r, b, poly)
  }

  /** An engine fed single bits sees every burst exactly when `truncated_polynominal` is odd. */
  lemma BurstsAreSeenIff(poly: Word)
    requires |poly| > 0
    ensures SeesBursts(poly) <==> poly[|poly| - 1]
  {
    if poly[|poly| - 1] {
      forall r: Word, a: Word, b: Word | |r| == |poly| && Burst(a, b, |poly|)
        ensures Steps(r, a, poly) != Steps(r, b, poly)
      {
        BurstIsSeen(r, a, b, poly);
      }
    } else {
      DivisorIsMissed(poly, poly);
    }
  }

  // ---------- Checksums of byte messages ----------

  lemma OutputIsInjective(r: Word, s: Word, finalXor: Word, reflectRem: bool)
    requires |r| == |s| == |finalXor|
    ensures Output(r, finalXor, reflectRem) == Output(s, finalXor, reflectRem) <==> r == s
  {
    var f := (w: Word) => if reflectRem then Reverse(w) else w;
    XorCancel(f(r), f(s), finalXor);
    ReverseTwice(r);
    ReverseTwice(s);
  }

  /** Equal bits in front of both messages change neither the burst nor that the register misses it. */
  lemma MissedBehindZeros(p: nat, r: Word, poly: Word)
    requires |r| == |poly| > 0 && !poly[|poly| - 1]
    ensures var a, b := Zeros(p) + Zeros(|poly| + 1), Zeros(p) + ([true] + poly);
      Burst(a, b, |poly|) && Steps(r, a, poly) == Steps(r, b, poly)
  {
    var n := |poly|;
    var z, d := Zeros(n + 1), [true] + poly;
    StepsAppend(r, Zeros(p), z, poly);
    StepsAppend(r, Zeros(p), d, poly);
    DivisorIsMissed(Steps(r, Zeros(p), poly), poly);
    assert FirstDifference(Zeros(p) + z, Zeros(p) + d, p);
  }

  /** Two byte messages that an even divisor cannot tell apart: the divisor as an error, aligned to whole bytes. */
  function MissedMessage(poly: Word, reflectIn: bool, withError: bool): (data: seq<Byte>)
    requires |poly| > 0
  {
    var p := 7 - |poly| % 8;
    BytesOf(Zeros(p) + (if withError then [true] + poly else Zeros(|poly| + 1)), reflectIn)
  }

  lemma MissedBits(poly: Word, reflectIn: bool)
    requires |poly| > 0
    ensures var p := 7 - |poly| % 8;
      && MessageBits(MissedMessage(poly, reflectIn, false), reflectIn) == Zeros(p) + Zeros(|poly| + 1)
      && MessageBits(MissedMessage(poly, reflectIn, true), reflectIn) == Zeros(p) + ([true] + poly)
  {
    var p := 7 - |poly| % 8;
    MessageOfBytes(Zeros(p) + Zeros(|poly| + 1), reflectIn);
    MessageOfBytes(Zeros(p) + ([true] + poly), reflectIn);
  }

  lemma MissedMessagesCollide(poly: Word, init: Word, finalXor: Word, reflectIn: bool, reflectRem: bool)
    requires |poly| == |init| == |finalXor| > 0 && !poly[|poly| - 1]
    ensures var data, data' := MissedMessage(poly, reflectIn, false), MissedMessage(poly, reflectIn, true);
      && Burst(MessageBits(data, reflectIn), MessageBits(data', reflectIn), |poly|)
      && Checksum(poly, init, finalXor, reflectIn, reflectRem, data) ==
         Checksum(poly, init, finalXor, reflectIn, reflectRem, data')
  {
    MissedBehindZeros(7 - |poly| % 8, init, poly);
    MissedBits(poly, reflectIn);
  }

  /** No two messages that differ by a burst of up to n bits have one checksum, whatever the other settings. */
  ghost predicate ChecksumsSeeBursts(poly: Word, reflectIn: bool)
    requires |poly| > 0
  {
    forall init: Word, finalXor: Word, reflectRem: bool, data: seq<Byte>, data': seq<Byte> ::
      |init| == |finalXor| == |poly| && Burst(MessageBits(data, reflectIn), MessageBits(data', reflectIn), |poly|) ==>
        Checksum(poly, init, finalXor, reflectIn, reflectRem, data) !=
        Checksum(poly, init, finalXor, reflectIn, reflectRem, data')
  }

  /** For every width and setting, byte messages show their bursts exactly when the divisor has its constant term. */
  lemma ChecksumsSeeBurstsIff(poly: Word, reflectIn: bool)
    requires |poly| > 0
    ensures ChecksumsSeeBursts(poly, reflectIn) <==> poly[|poly| - 1]
  {
    if poly[|poly| - 1] {
      forall init: Word, finalXor: Word, reflectRem: bool, data: seq<Byte>, data': seq<Byte>
        | |init| == |finalXor| == |poly| && Burst(MessageBits(data, reflectIn), MessageBits(data', reflectIn), |poly|)
        ensures Checksum(poly, init, finalXor, reflectIn, reflectRem, data) !=
                Checksum(poly, init, finalXor, reflectIn, reflectRem, data')
      {
        var m, m' := MessageBits(data, reflectIn), MessageBits(data', reflectIn);
        BurstIsSeen(init, m, m', poly);
        OutputIsInjective(Steps(init, m, poly), Steps(init, m', poly), finalXor, reflectRem);
      }
    } else {
      MissedMessagesCollide(poly, poly, poly, reflectIn, false);
    }
  }

  lemma LowestBit(v: nat, n: nat)
    requires n > 0
    ensures ToWord(v, n)[n - 1] <==> v % 2 == 1
  {}

  /**
   In terms of the number given as `truncated_polynominal`: of the header's four
   predefined divisors, 0x8005, 0x1021 and 0x04C11DB7 are odd, and the 0x8408 of
   `crc_xmodem_type` is even.
   */
  lemma OddDivisorsSeeBursts(v: nat, n: nat, reflectIn: bool)
    requires n > 0
    ensures ChecksumsSeeBursts(ToWord(v, n), reflectIn) <==> v % 2 == 1
  {
    ChecksumsSeeBurstsIff(ToWord(v, n), reflectIn);
    LowestBit(v, n);
  }

  /** The messages 00 00 00 and 80 21 10 differ by a burst of 16 bits and have one checksum under `crc_xmodem_type`. */
  lemma XmodemMissesABurst()
    ensures var poly, zero := ToWord(0x8408, 16), Zeros(16);
      var data: seq<Byte> := [HexByte(0, 0), HexByte(0, 0), HexByte(0, 0)];
      var data': seq<Byte> := [HexByte(8, 0), HexByte(2, 1), HexByte(1, 0)];
      && Burst(MessageBits(data, true), MessageBits(data', true), 16)
      && Checksum(poly, zero, zero, true, true, data) == Checksum(poly, zero, zero, true, true, data')
  {
    var poly := ToWord(0x8408, 16);
    LowestBit(0x8408, 16);
    MissedBehindZeros(7, Zeros(16), poly);
    XmodemPolynomial();
    XmodemMessages();
  }

  lemma XmodemPolynomial()
    ensures ToWord(0x8408, 16) == HexByte(8, 4) + HexByte(0, 8)
  {
    var d: seq<nat> := [8, 4, 0, 8];
    FourDigits([], d);
    assert [] + d == d;
    HexNumber(d);
    FourHexDigits(d);
  }

  lemma ReversedBytes()
    ensures Reverse(HexByte(0, 0)) == Zeros(8)
    ensures Reverse(HexByte(8, 0)) == Zeros(7) + [true]
    ensures Reverse(HexByte(2, 1)) == HexByte(8, 4)
    ensures Reverse(HexByte(1, 0)) == HexByte(0, 8)
  {}

  lemma XmodemMessages()
    ensures MessageBits([HexByte(0, 0), HexByte(0, 0), HexByte(0, 0)], true) == Zeros(7) + Zeros(17)
    ensures MessageBits([HexByte(8, 0), HexByte(2, 1), HexByte(1, 0)], true) ==
            Zeros(7) + ([true] + (HexByte(8, 4) + HexByte(0, 8)))
  {
    ReversedBytes();
    ThreeBytes(HexByte(0, 0), HexByte(0, 0), HexByte(0, 0));
    ThreeBytes(HexByte(8, 0), HexByte(2, 1), HexByte(1, 0));
    ZerosAppend(8, 8);
    ZerosAppend(8, 16);
    ZerosAppend(7, 17);
    AppendAssoc(Zeros(7), [true], HexByte(8, 4) + HexByte(0, 8));
  }

  lemma ThreeBytes(a: Byte, b: Byte, c: Byte)
    ensures MessageBits([a, b, c], true) == Reverse(a) + (Reverse(b) + Reverse(c))
  {
    assert [a, b, c][1..] == [b, c] && [b, c][1..] == [c] && [c][1..] == [];
    assert MessageBits([c], true) == Reverse(c);
  }
}
