/**
 How the storage words of crc.hpp carry the registers of CrcSpec. A word may be
 wider than the CRC; the register is its low bits, and the bits above them may
 hold anything, except in reflected engines, where they stay zero.
 */
module CrcWords {
  import opened Bits
  import opened CrcSpec

  /** `high_bit`: the bit that a register's leading coefficient occupies. */
  function HighBit(width: nat, n: nat): (w: Word)
    requires 0 < n <= width
    ensures |w| == width
  {
    Zeros(width - n) + [true] + Zeros(n - 1)
  }

  /** The result of `reflector<n>::reflect`: the low `n` bits reversed, nothing above them. */
  function Reflected(w: Word, n: nat): (c: Word)
    requires n <= |w|
    ensures |c| == |w|
  {
    Zeros(|w| - n) + Reverse(Low(w, n))
  }

  /**
   The storage word `w` holds the register `r`: in its low bits, or, in a
   reflected engine, back to front with zeros above.
   */
  predicate Holds(w: Word, r: Word, reflect: bool) {
    |r| <= |w| && if reflect then w == Zeros(|w| - |r|) + Reverse(r) else Low(w, |r|) == r
  }

  /** The stored register's leading byte, as `crc_helper::index` aligns it. */
  function ByteOf(w: Word, n: nat, reflect: bool): (b: Word)
    requires 0 < n <= |w| && 8 <= |w|
    ensures |b| == 8
  {
    if reflect then Low(w, 8) else Low(if n > 8 then Shr(w, n - 8) else Shl(w, 8 - n), 8)
  }

  /** The bits a message feeds into the division, each byte from its most or least significant bit. */
  function MessageBits(data: seq<Byte>, reflectIn: bool): (m: Word)
    ensures |m| == 8 * |data|
  {
    if data == [] then []
    else (if reflectIn then Reverse(data[0]) else data[0]) + MessageBits(data[1..], reflectIn)
  }

  lemma MessageTail(data: seq<Byte>, p: nat, reflectIn: bool)
    requires p < |data|
    ensures MessageBits(data[p..], reflectIn) ==
            (if reflectIn then Reverse(data[p]) else data[p]) + MessageBits(data[p + 1..], reflectIn)
  {
    assert data[p..][1..] == data[p + 1..];
  }

  /** What the n-bit register makes of the output settings. */
  function Output(r: Word, finalXor: Word, reflectRem: bool): (c: Word)
    requires |r| == |finalXor|
    ensures |c| == |r|
  {
    Xor(if reflectRem then Reverse(r) else r, finalXor)
  }

  /**
   The checksum of a message: reverse the input bytes if asked, divide with the
   initial remainder met, reverse the remainder if asked, and apply the final mask.
   */
  function Checksum(poly: Word, init: Word, finalXor: Word, reflectIn: bool, reflectRem: bool, data: seq<Byte>)
    : (c: Word)
    requires |poly| == |init| == |finalXor| > 0
    ensures |c| == |poly|
  {
    Output(Steps(init, MessageBits(data, reflectIn), poly), finalXor, reflectRem)
  }

  /** A message's bits, one by one: byte `i / 8`, from its most significant bit or from its least. */
  lemma {:induction false} MessageBitAt(data: seq<Byte>, reflectIn: bool, i: nat)
    requires i < 8 * |data|
    ensures MessageBits(data, reflectIn)[i] == data[i / 8][if reflectIn then 7 - i % 8 else i % 8]
    decreases |data|
  {
    var first := if reflectIn then Reverse(data[0]) else data[0];
    if i < 8 {
      assert i / 8 == 0 && MessageBits(data, reflectIn)[i] == first[i];
    } else {
      var k := i - 8;
      assert k / 8 == i / 8 - 1 && k % 8 == i % 8;
      MessageBitAt(data[1..], reflectIn, k);
      assert MessageBits(data, reflectIn)[i] == MessageBits(data[1..], reflectIn)[k];
    }
  }

  /** The output's bits, one by one: the register's, in the order that the setting asks for, under the final mask. */
  lemma OutputBitAt(r: Word, finalXor: Word, reflectRem: bool, i: nat)
    requires |r| == |finalXor| && i < |r|
    ensures Output(r, finalXor, reflectRem)[i] == (r[if reflectRem then |r| - 1 - i else i] != finalXor[i])
  {}

  lemma ChecksumBitAt(poly: Word, init: Word, finalXor: Word, reflectIn: bool, reflectRem: bool,
                      data: seq<Byte>, i: nat)
    requires |poly| == |init| == |finalXor| && i < |poly|
    ensures var r, n := Steps(init, MessageBits(data, reflectIn), poly), |poly|;
      Checksum(poly, init, finalXor, reflectIn, reflectRem, data)[i] ==
      (r[if reflectRem then n - 1 - i else i] != finalXor[i])
  {
    OutputBitAt(Steps(init, MessageBits(data, reflectIn), poly), finalXor, reflectRem, i);
  }

  /** The register that slot `index` of the table holds: the remainder of its byte. */
  function Partial(index: Byte, poly: Word, reflect: bool): (r: Word)
    requires |poly| > 0
    ensures |r| == |poly|
  {
    Steps(Zeros(|poly|), if reflect then Reverse(index) else index, poly)
  }

  // ---------- One bit ----------

  /** The bit step on storage words is the division step on their low bits. */
  lemma LowStep(w: Word, bit: bool, poly: Word, n: nat)
    requires 0 < n <= |w| == |poly|
    ensures var x := if bit then Xor(w, HighBit(|w|, n)) else w;
      var y := if x[|w| - n] then Xor(Shl(x, 1), poly) else Shl(x, 1);
      Low(y, n) == Step(Low(w, n), bit, Low(poly, n))
  {
    var x := if bit then Xor(w, HighBit(|w|, n)) else w;
    var s := Shl(Low(w, n), 1);
    LowShl(x, n, 1);
    assert Low(x, n)[1..] == Low(w, n)[1..];
    assert Shl(Low(x, n), 1) == Low(x, n)[1..] + [false];
    assert s == Low(w, n)[1..] + [false];
    LowXor(Shl(x, 1), poly, n);
  }

  // ---------- One byte, by table ----------

  lemma LowPlainIndex(w: Word, n: nat)
    requires 0 < n <= |w| && 8 <= |w|
    ensures ByteOf(w, n, false) == (Low(w, n) + Zeros(8))[..8]
  {
    var a := ByteOf(w, n, false);
    var b := (Low(w, n) + Zeros(8))[..8];
    forall i | 0 <= i < 8 ensures a[i] == b[i] {
      if n > 8 {
        assert a[i] == (Zeros(n - 8) + w)[|w| - 8 + i];
      } else {
        assert a[i] == (w + Zeros(8 - n))[|w| - n + i];
      }
    }
  }

  /** The byte step of an unreflected engine. */
  lemma PlainByteStep(w: Word, r: Word, byte: Byte, slot: Word, poly: Word)
    requires 0 < |r| == |poly| <= |w| == |slot| && 8 <= |w| && Holds(w, r, false)
    requires Holds(slot, Partial(Xor(byte, ByteOf(w, |r|, false)), poly, false), false)
    ensures Holds(Xor(Shl(w, 8), slot), Steps(r, byte, poly), false)
  {
    var n, e := |r|, r + Zeros(8);
    calc {
      Low(Xor(Shl(w, 8), slot), n);
      { LowXor(Shl(w, 8), slot, n); LowShl(w, n, 8); }
      Xor(e[8..], Low(slot, n));
      { LowPlainIndex(w, n); }
      Xor(e[8..], Steps(Zeros(n), Xor(byte, e[..8]), poly));
      { ChunkStep(r, byte, poly); }
      Steps(r, byte, poly);
    }
  }

  /** A zero-extended reversed register, met from the right. */
  lemma LowReflectedIndex(w: Word, r: Word)
    requires 8 <= |w| && Holds(w, r, true)
    ensures var e := r + Zeros(8);
      Low(w, 8) == Reverse(e[..8]) && Holds(Shr(w, 8), e[8..], true)
  {
    var n, width, e := |r|, |w|, r + Zeros(8);
    forall i | 0 <= i < 8 ensures Low(w, 8)[i] == Reverse(e[..8])[i] {
      assert Low(w, 8)[i] == w[width - 8 + i];
      assert Reverse(e[..8])[i] == e[7 - i];
    }
    var a, b := Shr(w, 8), Zeros(width - n) + Reverse(e[8..]);
    forall j | 0 <= j < width ensures a[j] == b[j] {
      if j >= width - n { assert b[j] == Reverse(e[8..])[j - (width - n)] == e[8 + (width - 1 - j)]; }
    }
  }

  lemma HoldsXor(a: Word, r: Word, b: Word, s: Word)
    requires |a| == |b| && |r| == |s| && Holds(a, r, true) && Holds(b, s, true)
    ensures Holds(Xor(a, b), Xor(r, s), true)
  {
    var z := Zeros(|a| - |r|);
    XorAppend(z, Reverse(r), z, Reverse(s));
    XorZeros(z);
    ReverseXor(r, s);
  }

  /** The byte step of a reflected engine is the plain step on the reversed register and the reversed byte. */
  lemma ReflectedByteStep(w: Word, r: Word, byte: Byte, slot: Word, poly: Word)
    requires 0 < |r| == |poly| <= |w| == |slot| && 8 <= |w| && Holds(w, r, true)
    requires Holds(slot, Partial(Xor(byte, Low(w, 8)), poly, true), true)
    ensures Holds(Xor(Shr(w, 8), slot), Steps(r, Reverse(byte), poly), true)
  {
    var e := r + Zeros(8);
    LowReflectedIndex(w, r);
    ReverseXor(byte, Reverse(e[..8]));
    ReverseTwice(e[..8]);
    HoldsXor(Shr(w, 8), e[8..], slot, Partial(Xor(byte, Low(w, 8)), poly, true));
    ChunkStep(r, Reverse(byte), poly);
  }

  /** One table lookup moves the register by one message byte, in either direction of storage. */
  lemma EngineByteStep(w: Word, r: Word, byte: Byte, slot: Word, poly: Word, reflect: bool)
    requires 0 < |r| == |poly| <= |w| == |slot| && 8 <= |w| && Holds(w, r, reflect)
    requires Holds(slot, Partial(Xor(byte, ByteOf(w, |r|, reflect)), poly, reflect), reflect)
    ensures Holds(Xor(if reflect then Shr(w, 8) else Shl(w, 8), slot),
                  Steps(r, if reflect then Reverse(byte) else byte, poly), reflect)
  {
    if reflect {
      ReflectedByteStep(w, r, byte, slot, poly);
    } else {
      PlainByteStep(w, r, byte, slot, poly);
    }
  }

  /** Reflecting moves a register between the two ways of storage. */
  lemma HoldsReflected(w: Word, n: nat)
    requires n <= |w|
    ensures Holds(Reflected(w, n), Low(w, n), true)
  {}

  lemma ReflectedHolds(w: Word, r: Word)
    requires Holds(w, r, true)
    ensures Low(w, |r|) == Reverse(r) && Reflected(w, |r|) == Zeros(|w| - |r|) + r
  {
    ReverseTwice(r);
  }

  lemma LowExtended(k: nat, r: Word)
    ensures Low(Zeros(k) + r, |r|) == r
  {}

  /** Undoing the reflection of the stored word gives the register at its low end. */
  lemma StoredRegister(w: Word, r: Word, reflect: bool)
    requires Holds(w, r, reflect)
    ensures Low(if reflect then Reflected(w, |r|) else w, |r|) == r
  {
    if reflect {
      ReflectedHolds(w, r);
      LowExtended(|w| - |r|, r);
    }
  }

  // ---------- The reflection loop ----------

  /** The reflection after `i` rounds: `i` bits are placed from the top of the register down. */
  function ReflectedUpTo(x: Word, n: nat, i: nat): (c: Word)
    requires i <= n <= |x|
    ensures |c| == |x|
  {
    Zeros(|x| - n) + Reverse(Low(x, i)) + Zeros(n - i)
  }

  lemma ReflectStart(x: Word, n: nat)
    requires n <= |x|
    ensures Shr(x, 0) == x && ReflectedUpTo(x, n, 0) == Zeros(|x|)
  {}

  lemma ReflectStep(x: Word, n: nat, i: nat)
    requires i < n <= |x|
    ensures Shr(Shr(x, i), 1) == Shr(x, i + 1)
    ensures ReflectedUpTo(x, n, i + 1) ==
            if Shr(x, i)[|x| - 1] then ReflectedUpTo(x, n, i)[|x| - n + i := true] else ReflectedUpTo(x, n, i)
  {
    assert Shr(x, i)[|x| - 1] == x[|x| - 1 - i];
    var a, b := ReflectedUpTo(x, n, i), ReflectedUpTo(x, n, i + 1);
    assert Reverse(Low(x, i + 1)) == Reverse(Low(x, i)) + [x[|x| - 1 - i]];
    assert Zeros(n - i) == [false] + Zeros(n - i - 1);
  }

  // ---------- Index permutation of a reflected table ----------

  /** The slot that round `d` of `init_table` fills. */
  function SlotOf(d: nat, reflect: bool): (k: nat)
    requires d < 256
  {
    Value(if reflect then Reverse(ToWord(d, 8)) else ToWord(d, 8))
  }

  lemma ByteValues(d: nat, b: Byte)
    ensures Value(b) < 256 && ToWord(Value(b), 8) == b
    ensures d < 256 ==> Value(ToWord(d, 8)) == d
  {
    assert Pow2(8) == 256 by {
      assert Pow2(4) == 16;
      assert Pow2(8) == 2 * (2 * (2 * (2 * Pow2(4))));
    }
    ValueBound(b);
    ToWordOfValue(b);
    if d < 256 { ValueOfToWord(d, 8); }
  }

  /** Bit reversal permutes the slots, being its own inverse. */
  lemma SlotOfTwice(d: nat, reflect: bool)
    requires d < 256
    ensures SlotOf(d, reflect) < 256 && SlotOf(SlotOf(d, reflect), reflect) == d
    ensures ToWord(SlotOf(d, reflect), 8) == if reflect then Reverse(ToWord(d, 8)) else ToWord(d, 8)
  {
    var b: Byte := ToWord(d, 8);
    ByteValues(d, b);
    ByteValues(d, Reverse(b));
    ReverseTwice(b);
  }

  /** The slots that the first `n` rounds fill, in the order of the rounds. */
  ghost predicate InRoundOrder(written: seq<nat>, n: nat, reflect: bool)
    requires n <= 256
  {
    |written| == n && forall d :: 0 <= d < n ==> written[d] == SlotOf(d, reflect)
  }

  lemma NextInRoundOrder(written: seq<nat>, reflect: bool)
    requires |written| < 256 && InRoundOrder(written, |written|, reflect)
    ensures InRoundOrder(written + [SlotOf(|written|, reflect)], |written| + 1, reflect)
  {}

  /** All 256 rounds fill slot `k` in round `SlotOf(k)` and in no other. */
  lemma FilledInOneRound(written: seq<nat>, k: nat, reflect: bool)
    requires InRoundOrder(written, 256, reflect) && k < 256
    ensures forall d :: 0 <= d < 256 ==> (written[d] == k <==> d == SlotOf(k, reflect))
    ensures k in written
  {
    SlotOfTwice(k, reflect);
    assert written[SlotOf(k, reflect)] == k;
    forall d | 0 <= d < 256 ensures written[d] == k <==> d == SlotOf(k, reflect) {
      SlotOfTwice(d, reflect);
    }
  }
}
