/** ZIP_FFS32, which turns random bits into an entry's rank. */
module ZipRank {
  import opened Bits

  /** `v` is an odd multiple of 2^k: bit k of `v` is its lowest set bit. */
  ghost predicate LowestBit(v: nat, k: nat) {
    exists m: nat :: v == Pow2(k) * (2 * m + 1)
  }

  /**
   Finds the one-based position of the lowest set bit, or 0 when there is none.
   The probe `t` doubles until it meets a set bit of `v`; being a divisor of `v`
   it stays an unsigned int, and `v & t` is the parity of `v / t`.
   */
  method Ffs32(v: nat) returns (r: nat)
    requires v < 0x1_0000_0000
    ensures v == 0 <==> r == 0
    ensures r <= 32
    ensures v != 0 ==> LowestBit(v, r - 1)
    ensures v != 0 ==> v % Pow2(r - 1) == 0 && v / Pow2(r - 1) % 2 == 1
  {
    if v == 0 { return 0; }
    var t := 1;
    r := 1;
    ghost var q := v;
    while v / t % 2 == 0
      invariant r >= 1 && t == Pow2(r - 1) && v == t * q && q > 0
      decreases q
    {
      QuotientIs(v, t, q);
      Halve(t, q);
      t, r := 2 * t, r + 1;
      q := q / 2;
    }
    QuotientIs(v, t, q);
    assert v % t == 0 && v / t % 2 == 1;
    assert v == Pow2(r - 1) * (2 * (q / 2) + 1);
    FitsIn32(v, t, q, r - 1);
  }

  lemma MulMonotone(t: nat, a: nat, b: nat)
    requires a <= b
    ensures t * a <= t * b
  {}

  lemma MulGap(t: nat, a: nat, b: nat)
    ensures a < b ==> t * a + t <= t * b
  {
    if a < b {
      MulMonotone(t, a + 1, b);
      assert t * (a + 1) == t * a + t;
    }
  }

  lemma QuotientIs(v: nat, t: nat, q: nat)
    requires t > 0 && v == t * q
    ensures v / t == q
  {
    var d := v / t;
    assert v == t * d + v % t;
    MulGap(t, d, q);
    MulGap(t, q, d);
  }

  lemma Halve(t: nat, q: nat)
    requires q % 2 == 0
    ensures t * q == (2 * t) * (q / 2)
  {}

  lemma FitsIn32(v: nat, t: nat, q: nat, k: nat)
    requires v == t * q && q > 0 && t == Pow2(k) && v < 0x1_0000_0000
    ensures k < 32
  {
    assert t <= v;
    if k >= 32 { PowGrows(32, k); PowOf32(); }
  }

  lemma {:induction false} PowGrows(a: nat, b: nat)
    requires a <= b
    ensures Pow2(a) <= Pow2(b)
  {
    if a < b { PowGrows(a, b - 1); }
  }
}
