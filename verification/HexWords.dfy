/** Words written in hexadecimal digits, to compute with the constants of crc.hpp. */
module HexWords {
  import opened Bits

  /** The four bits of a hexadecimal digit. */
  function Digit(d: nat): (w: Word)
    ensures |w| == 4
  {
    [d / 2 / 2 / 2 % 2 == 1, d / 2 / 2 % 2 == 1, d / 2 % 2 == 1, d % 2 == 1]
  }

  function Hex(d: seq<nat>): (w: Word)
    ensures |w| == 4 * |d|
  {
    if d == [] then [] else Hex(d[..|d| - 1]) + Digit(d[|d| - 1])
  }

  function HexByte(high: nat, low: nat): Byte {
    Digit(high) + Digit(low)
  }

  function Number(d: seq<nat>): nat {
    if d == [] then 0 else 16 * Number(d[..|d| - 1]) + d[|d| - 1]
  }

  /** The digit with its four bits in the opposite order. */
  function Mirror(d: nat): nat {
    8 * (d % 2) + 4 * (d / 2 % 2) + 2 * (d / 2 / 2 % 2) + d / 2 / 2 / 2
  }

  lemma LastBit(x: nat, d: nat, n: nat)
    ensures ToWord(2 * x + d, n + 1) == ToWord(x + d / 2, n) + [d % 2 == 1]
  {}

  lemma LastTwo(x: nat, d: nat, n: nat)
    ensures ToWord(4 * x + d, n + 2) == ToWord(x + d / 2 / 2, n) + [d / 2 % 2 == 1, d % 2 == 1]
  {
    LastBit(2 * x, d, n + 1);
    LastBit(x, d / 2, n);
  }

  lemma LastDigit(q: nat, d: nat, n: nat)
    requires d < 16
    ensures ToWord(16 * q + d, n + 4) == ToWord(q, n) + Digit(d)
  {
    var e := d / 2 / 2;
    LastTwo(4 * q, d, n + 2);
    LastTwo(q, e, n);
    AppendAssoc(ToWord(q, n), [e / 2 % 2 == 1, e % 2 == 1], [d / 2 % 2 == 1, d % 2 == 1]);
  }

  lemma {:induction false} HexNumber(d: seq<nat>)
    requires forall i :: 0 <= i < |d| ==> d[i] < 16
    ensures ToWord(Number(d), 4 * |d|) == Hex(d)
  {
    if d != [] {
      HexNumber(d[..|d| - 1]);
      LastDigit(Number(d[..|d| - 1]), d[|d| - 1], 4 * |d| - 4);
    }
  }

  lemma FourDigits(c: seq<nat>, a: seq<nat>)
    requires |a| == 4
    ensures Number(c + a) == 0x1_0000 * Number(c) + 0x1000 * a[0] + 0x100 * a[1] + 0x10 * a[2] + a[3]
  {
    var d, n := c + a, |c|;
    assert d[..n] == c && d[..n + 1][..n] == c;
    assert d[..n + 2][..n + 1] == d[..n + 1] && d[..n + 3][..n + 2] == d[..n + 2];
    assert Number(d[..n + 1]) == 16 * Number(c) + a[0];
    assert Number(d[..n + 2]) == 16 * Number(d[..n + 1]) + a[1];
    assert Number(d[..n + 3]) == 16 * Number(d[..n + 2]) + a[2];
  }

  lemma EightDigits(a: seq<nat>, b: seq<nat>)
    requires |a| == |b| == 4
    ensures Number(a + b) == 0x1000_0000 * a[0] + 0x100_0000 * a[1] + 0x10_0000 * a[2] + 0x1_0000 * a[3]
                           + 0x1000 * b[0] + 0x100 * b[1] + 0x10 * b[2] + b[3]
  {
    FourDigits([], a);
    FourDigits(a, b);
    assert [] + a == a;
  }

  lemma {:induction false} HexCons(e: seq<nat>)
    requires e != []
    ensures Hex(e) == Digit(e[0]) + Hex(e[1..])
    decreases |e|
  {
    if |e| == 1 {
      assert Hex(e[..0]) == [] && Hex(e[1..]) == [];
    } else {
      var f := e[..|e| - 1];
      HexCons(f);
      assert f[1..] == e[1..][..|e| - 2];
      AppendAssoc(Digit(e[0]), Hex(f[1..]), Digit(e[|e| - 1]));
    }
  }

  lemma FourHexDigits(s: seq<nat>)
    requires |s| == 4
    ensures Hex(s) == HexByte(s[0], s[1]) + HexByte(s[2], s[3])
  {
    assert s[..3][..2] == s[..2] && s[..2][..1] == s[..1] && s[..1][..0] == [];
    assert Hex(s[..1]) == Digit(s[0]);
    assert Hex(s[..2]) == HexByte(s[0], s[1]);
    assert Hex(s[..3]) == HexByte(s[0], s[1]) + Digit(s[2]);
    AppendAssoc(HexByte(s[0], s[1]), Digit(s[2]), Digit(s[3]));
  }

  lemma MirrorReverses(d: nat)
    requires d < 16
    ensures Digit(Mirror(d)) == Reverse(Digit(d))
  {
    var a, b, c, e := d % 2, d / 2 % 2, d / 2 / 2 % 2, d / 2 / 2 / 2;
    assert Mirror(d) == 2 * (2 * (2 * a + b) + c) + e && a < 2 && b < 2 && c < 2 && e < 2;
    assert Mirror(d) / 2 == 2 * (2 * a + b) + c && Mirror(d) / 2 / 2 == 2 * a + b && Mirror(d) / 2 / 2 / 2 == a;
  }

  lemma {:induction false} HexReversed(d: seq<nat>, e: seq<nat>)
    requires |d| == |e| && forall i :: 0 <= i < |d| ==> d[i] < 16 && e[|d| - 1 - i] == Mirror(d[i])
    ensures Reverse(Hex(d)) == Hex(e)
    decreases |d|
  {
    if d != [] {
      var d', e' := d[..|d| - 1], e[1..];
      HexReversed(d', e');
      MirrorReverses(d[|d| - 1]);
      ReverseAppend(Hex(d'), Digit(d[|d| - 1]));
      HexCons(e);
    }
  }
}
