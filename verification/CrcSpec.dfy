/**
 What a cyclic redundancy code is: the remainder of a polynomial division over
 GF(2). A word of n bits is a polynomial of degree below n, and the divisor is
 x^n + poly, with the leading term left out as `truncated_polynominal` does.
 */
module CrcSpec {
  import opened Bits

  /** One division step with one message bit. */
  function Step(r: Word, bit: bool, poly: Word): (r': Word)
    requires |r| == |poly| > 0
    ensures |r'| == |r|
  {
    var shifted := Shl(r, 1);
    if r[0] != bit then Xor(shifted, poly) else shifted
  }

  function Steps(r: Word, bits: Word, poly: Word): (r': Word)
    requires |r| == |poly| > 0
    ensures |r'| == |r|
    decreases |bits|
  {
    if bits == [] then r else Steps(Step(r, bits[0], poly), bits[1..], poly)
  }

  /** Schoolbook division: clear the leading bit by subtracting the divisor, until n bits are left. */
  function LongDiv(d: Word, poly: Word): (r: Word)
    requires |d| >= |poly| > 0
    ensures |r| == |poly|
    decreases |d|
  {
    if |d| == |poly| then d else LongDiv(DivStep(d, poly), poly)
  }

  function DivStep(d: Word, poly: Word): (d': Word)
    requires |d| > |poly| > 0
    ensures |d'| == |d| - 1
  {
    if d[0] then Xor(d[1..], poly + Zeros(|d| - 1 - |poly|)) else d[1..]
  }

  // ---------- Division is polynomial division ----------

  /** The product of a quotient and the divisor x^n + poly. */
  function Product(q: Word, poly: Word): (p: Word)
    ensures |p| == |q| + |poly|
  {
    if q == [] then Zeros(|poly|)
    else
      var rest := [false] + Product(q[1..], poly);
      if q[0] then Xor([true] + poly + Zeros(|q| - 1), rest) else rest
  }

  function Quotient(d: Word, poly: Word): (q: Word)
    requires |d| >= |poly| > 0
    ensures |q| == |d| - |poly|
    decreases |d|
  {
    if |d| == |poly| then [] else [d[0]] + Quotient(DivStep(d, poly), poly)
  }

  /** dividend == quotient * divisor + remainder. */
  ghost predicate Divides(d: Word, q: Word, r: Word, poly: Word)
    requires |d| == |q| + |poly| && |r| == |poly|
  {
    d == Xor(Product(q, poly), Zeros(|q|) + r)
  }

  /** The head of the quotient is the leading bit, and the tail divides what one step leaves. */
  lemma DividesStep(d: Word, q: Word, r: Word, poly: Word)
    requires |d| == |q| + |poly| && |r| == |poly| > 0 && q != []
    ensures Divides(d, q, r, poly) <==> q[0] == d[0] && Divides(DivStep(d, poly), q[1..], r, poly)
  {
    var n, k := |poly|, |q| - 1;
    var rest, tail := Product(q[1..], poly), Zeros(k) + r;
    var g := poly + Zeros(k);
    assert Zeros(|q|) + r == [false] + tail;
    assert [true] + poly + Zeros(k) == [true] + g;
    XorAppend([false], rest, [false], tail);
    if q[0] {
      XorAppend([true], g, [false], rest);
      XorAppend([true], Xor(g, rest), [false], tail);
      XorAssoc(g, rest, tail);
      assert Xor([true], [false]) == [true];
      assert Divides(d, q, r, poly) <==> d == [true] + Xor(g, Xor(rest, tail));
    } else {
      assert Xor([false], [false]) == [false];
      assert Divides(d, q, r, poly) <==> d == [false] + Xor(rest, tail);
    }
    assert d == [d[0]] + d[1..];
    XorComm(g, Xor(rest, tail));
    XorComm(g, d[1..]);
    XorAssoc(Xor(rest, tail), g, g);
    XorAssoc(d[1..], g, g);
    XorZeros(g);
    XorZeros(Xor(rest, tail));
    XorZeros(d[1..]);
  }

  /** Long division finds the one quotient and the one remainder that there are. */
  lemma {:induction false} LongDivIsTheRemainder(d: Word, q: Word, r: Word, poly: Word)
    requires |d| == |q| + |poly| && |r| == |poly| > 0
    ensures Divides(d, q, r, poly) <==> q == Quotient(d, poly) && r == LongDiv(d, poly)
    decreases |d|
  {
    if q == [] {
      assert Zeros(0) + r == r;
      XorZeros(r);
    } else {
      DividesStep(d, q, r, poly);
      LongDivIsTheRemainder(DivStep(d, poly), q[1..], r, poly);
      assert q == [q[0]] + q[1..];
      assert Quotient(d, poly)[1..] == Quotient(DivStep(d, poly), poly);
    }
  }

  // ---------- Linearity ----------

  lemma DivStepLinear(a: Word, b: Word, poly: Word)
    requires |a| == |b| > |poly| > 0
    ensures DivStep(Xor(a, b), poly) == Xor(DivStep(a, poly), DivStep(b, poly))
  {
    var g := poly + Zeros(|a| - 1 - |poly|);
    var z := Zeros(|a| - 1);
    assert Xor(a, b)[1..] == Xor(a[1..], b[1..]);
    XorSwap(a[1..], if a[0] then g else z, b[1..], if b[0] then g else z);
    XorZeros(a[1..]);
    XorZeros(b[1..]);
    XorZeros(Xor(a[1..], b[1..]));
    XorZeros(g);
  }

  lemma {:induction false} LongDivLinear(a: Word, b: Word, poly: Word)
    requires |a| == |b| >= |poly| > 0
    ensures LongDiv(Xor(a, b), poly) == Xor(LongDiv(a, poly), LongDiv(b, poly))
    decreases |a|
  {
    if |a| > |poly| {
      DivStepLinear(a, b, poly);
      LongDivLinear(DivStep(a, poly), DivStep(b, poly), poly);
    }
  }

  /** Leading zeros change nothing. */
  lemma {:induction false} LongDivPadded(k: nat, d: Word, poly: Word)
    requires |d| >= |poly| > 0
    ensures LongDiv(Zeros(k) + d, poly) == LongDiv(d, poly)
  {
    if k == 0 {
      assert Zeros(0) + d == d;
    } else {
      assert (Zeros(k) + d)[1..] == Zeros(k - 1) + d;
      LongDivPadded(k - 1, d, poly);
    }
  }

  /** Dividing a prefix first changes nothing. */
  lemma {:induction false} LongDivPrefix(d: Word, e: Word, poly: Word)
    requires |d| >= |poly| > 0
    ensures LongDiv(d + e, poly) == LongDiv(LongDiv(d, poly) + e, poly)
    decreases |d|
  {
    if |d| > |poly| {
      assert (d + e)[1..] == d[1..] + e;
      XorAppend(d[1..], e, poly + Zeros(|d| - 1 - |poly|), Zeros(|e|));
      ZerosAppend(|d| - 1 - |poly|, |e|);
      assert poly + Zeros(|d| - 1 - |poly|) + Zeros(|e|) == poly + Zeros(|d + e| - 1 - |poly|);
      XorZeros(e);
      assert DivStep(d + e, poly) == DivStep(d, poly) + e;
      LongDivPrefix(DivStep(d, poly), e, poly);
    }
  }

  // ---------- The bitwise engine is long division ----------

  /** A register meets the message: `r`, followed by room for the bits, plus the bits, followed by room for `r`. */
  function Meet(r: Word, bits: Word): (d: Word)
    ensures |d| == |r| + |bits|
  {
    Xor(r + Zeros(|bits|), bits + Zeros(|r|))
  }

  lemma MeetStep(r: Word, bits: Word, poly: Word)
    requires |r| == |poly| > 0 && bits != []
    ensures DivStep(Meet(r, bits), poly) == Meet(Step(r, bits[0], poly), bits[1..])
  {
    var n, k := |r|, |bits| - 1;
    var d := Meet(r, bits);
    var s := Shl(r, 1);
    var rest := bits[1..] + Zeros(n);
    assert d[0] == (r[0] != bits[0]);
    assert s == r[1..] + [false];
    assert (r + Zeros(k + 1))[1..] == s + Zeros(k);
    assert (bits + Zeros(n))[1..] == rest;
    assert d[1..] == Xor(s + Zeros(k), rest);
    if d[0] {
      var g := poly + Zeros(k);
      XorAppend(s, Zeros(k), poly, Zeros(k));
      XorZeros(Zeros(k));
      XorAssoc(s + Zeros(k), g, rest);
      XorComm(g, rest);
      XorAssoc(s + Zeros(k), rest, g);
    }
  }

  /** Processing bits one at a time divides the message that meets the register. */
  lemma {:induction false} StepsDivide(r: Word, bits: Word, poly: Word)
    requires |r| == |poly| > 0
    ensures Steps(r, bits, poly) == LongDiv(Meet(r, bits), poly)
    decreases |bits|
  {
    if bits == [] {
      assert r + Zeros(0) == r && bits + Zeros(|r|) == Zeros(|r|);
      XorZeros(r);
    } else {
      MeetStep(r, bits, poly);
      StepsDivide(Step(r, bits[0], poly), bits[1..], poly);
    }
  }

  lemma {:induction false} StepsAppend(r: Word, a: Word, b: Word, poly: Word)
    requires |r| == |poly| > 0
    ensures Steps(r, a + b, poly) == Steps(Steps(r, a, poly), b, poly)
    decreases |a|
  {
    if a == [] {
      assert a + b == b;
    } else {
      assert (a + b)[1..] == a[1..] + b;
      StepsAppend(Step(r, a[0], poly), a[1..], b, poly);
    }
  }

  lemma MeetZeros(n: nat, bits: Word)
    ensures Meet(Zeros(n), bits) == bits + Zeros(n)
  {
    ZerosAppend(n, |bits|);
    XorComm(Zeros(n + |bits|), bits + Zeros(n));
    XorZeros(bits + Zeros(n));
  }

  /** From a zero register the remainder is that of the message with n zero bits behind it. */
  lemma StepsFromZero(bits: Word, poly: Word)
    requires |poly| > 0
    ensures Steps(Zeros(|poly|), bits, poly) == LongDiv(bits + Zeros(|poly|), poly)
  {
    StepsDivide(Zeros(|poly|), bits, poly);
    MeetZeros(|poly|, bits);
  }

  /** A register followed by zeros is divided as the register run on zero bits. */
  lemma DivideZeros(r: Word, k: nat, poly: Word)
    requires |r| == |poly| > 0
    ensures LongDiv(r + Zeros(k), poly) == Steps(r, Zeros(k), poly)
  {
    StepsDivide(r, Zeros(k), poly);
    ZerosAppend(k, |r|);
    XorZeros(r + Zeros(k));
  }

  /** The register splits at the width of the bits: what meets them, and what shifts up. */
  lemma MeetSplits(r: Word, bits: Word)
    ensures var e, k, n := r + Zeros(|bits|), |bits|, |r|;
      Meet(r, bits) == Xor(Xor(bits, e[..k]) + Zeros(n), Zeros(k) + e[k..])
  {
    var n, k := |r|, |bits|;
    var e := r + Zeros(k);
    var a, b := e[..k], e[k..];
    assert e == a + b;
    XorAppend(a, b, bits, Zeros(n));
    XorComm(a, bits);
    XorZeros(b);
    XorAppend(Xor(bits, a), Zeros(n), Zeros(k), b);
    XorZeros(Xor(bits, a));
  }

  lemma DivideSplit(top: Word, rest: Word, poly: Word)
    requires |rest| == |poly| > 0
    ensures LongDiv(Xor(top + Zeros(|poly|), Zeros(|top|) + rest), poly) == Xor(rest, Steps(Zeros(|poly|), top, poly))
  {
    LongDivLinear(top + Zeros(|poly|), Zeros(|top|) + rest, poly);
    LongDivPadded(|top|, rest, poly);
    StepsFromZero(top, poly);
    XorComm(Steps(Zeros(|poly|), top, poly), rest);
  }

  /**
   The step of every table-driven engine: the top of the register, met with the
   incoming bits, selects a partial remainder, and the rest of the register
   shifts up. It holds for chunks of any length, longer than the register too.
   */
  lemma ChunkStep(r: Word, bits: Word, poly: Word)
    requires |r| == |poly| > 0
    ensures var e, k := r + Zeros(|bits|), |bits|;
      Steps(r, bits, poly) == Xor(e[k..], Steps(Zeros(|r|), Xor(bits, e[..k]), poly))
  {
    var e, k := r + Zeros(|bits|), |bits|;
    var top, rest := Xor(bits, e[..k]), e[k..];
    assert |top| == k && |rest| == |poly|;
    StepsDivide(r, bits, poly);
    MeetSplits(r, bits);
    DivideSplit(top, rest, poly);
  }
}
