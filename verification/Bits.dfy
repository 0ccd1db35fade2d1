/** Words as bit sequences, most significant bit first, with the operators that crc.hpp applies to them. */
module Bits {

  type Word = seq<bool>

  /** `unsigned char`. */
  type Byte = b: seq<bool> | |b| == 8 witness [false, false, false, false, false, false, false, false]

  function Zeros(n: nat): (z: Word)
    ensures |z| == n
  {
    seq(n, i => false)
  }

  /** `^`. */
  function Xor(a: Word, b: Word): (c: Word)
    requires |a| == |b|
    ensures |c| == |a|
  {
    seq(|a|, i requires 0 <= i < |a| => a[i] != b[i])
  }

  /** The bits in the opposite order. */
  function Reverse(a: Word): (c: Word)
    ensures |c| == |a|
  {
    seq(|a|, i requires 0 <= i < |a| => a[|a| - 1 - i])
  }

  /** `w << k` within the width of `w`. */
  function Shl(w: Word, k: nat): (c: Word)
    ensures |c| == |w|
  {
    (w + Zeros(k))[k..]
  }

  /** `w >> k`. */
  function Shr(w: Word, k: nat): (c: Word)
    ensures |c| == |w|
  {
    (Zeros(k) + w)[..|w|]
  }

  /** The `n` least significant bits. */
  function Low(w: Word, n: nat): (c: Word)
    requires n <= |w|
    ensures |c| == n
  {
    w[|w| - n..]
  }

  /** `w & sig_bits`: only the `n` least significant bits survive. */
  function Mask(w: Word, n: nat): (c: Word)
    requires n <= |w|
    ensures |c| == |w|
  {
    Zeros(|w| - n) + Low(w, n)
  }

  // ---------- Laws ----------

  lemma XorAssoc(a: Word, b: Word, c: Word)
    requires |a| == |b| == |c|
    ensures Xor(Xor(a, b), c) == Xor(a, Xor(b, c))
  {}

  lemma XorComm(a: Word, b: Word)
    requires |a| == |b|
    ensures Xor(a, b) == Xor(b, a)
  {}

  lemma XorZeros(a: Word)
    ensures Xor(a, Zeros(|a|)) == a && Xor(Zeros(|a|), a) == a && Xor(a, a) == Zeros(|a|)
  {}

  /** `(a ^ b) ^ (c ^ d) == (a ^ c) ^ (b ^ d)`. */
  lemma XorSwap(a: Word, b: Word, c: Word, d: Word)
    requires |a| == |b| == |c| == |d|
    ensures Xor(Xor(a, b), Xor(c, d)) == Xor(Xor(a, c), Xor(b, d))
  {}

  lemma XorCancel(a: Word, b: Word, c: Word)
    requires |a| == |b| == |c|
    ensures Xor(a, c) == Xor(b, c) <==> a == b
  {
    if Xor(a, c) == Xor(b, c) {
      forall i | 0 <= i < |a| ensures a[i] == b[i] { assert Xor(a, c)[i] == Xor(b, c)[i]; }
    }
  }

  lemma XorAppend(a: Word, b: Word, c: Word, d: Word)
    requires |a| == |c| && |b| == |d|
    ensures Xor(a + b, c + d) == Xor(a, c) + Xor(b, d)
  {}

  lemma AppendAssoc(a: Word, b: Word, c: Word)
    ensures (a + b) + c == a + (b + c)
  {}

  lemma ZerosAppend(m: nat, n: nat)
    ensures Zeros(m) + Zeros(n) == Zeros(m + n)
  {}

  lemma ReverseXor(a: Word, b: Word)
    requires |a| == |b|
    ensures Reverse(Xor(a, b)) == Xor(Reverse(a), Reverse(b))
  {}

  lemma ReverseAppend(a: Word, b: Word)
    ensures Reverse(a + b) == Reverse(b) + Reverse(a)
  {}

  lemma ReverseTwice(a: Word)
    ensures Reverse(Reverse(a)) == a
  {}

  lemma ReverseZeros(n: nat)
    ensures Reverse(Zeros(n)) == Zeros(n)
  {}

  lemma LowXor(a: Word, b: Word, n: nat)
    requires |a| == |b| && n <= |a|
    ensures Low(Xor(a, b), n) == Xor(Low(a, n), Low(b, n))
  {}

  /** The significant bits shift among themselves: what lies above them never comes down. */
  lemma LowShl(w: Word, n: nat, k: nat)
    requires n <= |w|
    ensures Low(Shl(w, k), n) == Shl(Low(w, n), k)
  {
    var a, b := Low(Shl(w, k), n), Shl(Low(w, n), k);
    forall i | 0 <= i < n ensures a[i] == b[i] {
      assert a[i] == (w + Zeros(k))[|w| - n + i + k];
      assert b[i] == (Low(w, n) + Zeros(k))[i + k];
    }
  }

  lemma ShlPrefix(b: Word, i: nat)
    requires 0 < i <= |b|
    ensures b[..i][0] == b[0] && b[..i][1..] == Shl(b, 1)[..i - 1]
  {}

  // ---------- Numbers ----------

  /** The value of a word. */
  function Value(w: Word): (v: nat) {
    if w == [] then 0 else 2 * Value(w[..|w| - 1]) + (if w[|w| - 1] then 1 else 0)
  }

  /** The `n` low bits of a number. */
  function ToWord(v: nat, n: nat): (w: Word)
    ensures |w| == n
  {
    if n == 0 then [] else ToWord(v / 2, n - 1) + [v % 2 == 1]
  }

  function Pow2(n: nat): (p: nat)
    ensures p > 0
  {
    if n == 0 then 1 else 2 * Pow2(n - 1)
  }

  lemma {:induction false} ValueBound(w: Word)
    ensures Value(w) < Pow2(|w|)
  {
    if w != [] { ValueBound(w[..|w| - 1]); }
  }

  lemma {:induction false} ToWordOfValue(w: Word)
    ensures ToWord(Value(w), |w|) == w
  {
    if w != [] { ToWordOfValue(w[..|w| - 1]); }
  }

  lemma {:induction false} ValueOfToWord(v: nat, n: nat)
    requires v < Pow2(n)
    ensures Value(ToWord(v, n)) == v
  {
    if n > 0 {
      ValueOfToWord(v / 2, n - 1);
      assert ToWord(v, n)[..n - 1] == ToWord(v / 2, n - 1);
    }
  }

  lemma PowOf32()
    ensures Pow2(32) == 0x1_0000_0000
  {
    assert Pow2(8) == 256;
    assert Pow2(16) == 256 * Pow2(8);
    assert Pow2(24) == 256 * Pow2(16);
    assert Pow2(32) == 256 * Pow2(24);
  }
}
