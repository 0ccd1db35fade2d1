/** The three engines of crc.hpp, each proved against the polynomial division of CrcSpec. */
module CrcEngines {
  import opened Bits
  import opened CrcSpec
  import opened CrcWords

  /** `reflector<n>::reflect`. */
  method Reflect(x: Word, n: nat) returns (reflection: Word)
    requires n <= |x|
    ensures reflection == Reflected(x, n)
  {
    var y := x;
    reflection := Zeros(|x|);
    ReflectStart(x, n);
    for i := 0 to n
      invariant y == Shr(x, i) && reflection == ReflectedUpTo(x, n, i)
    {
      ReflectStep(x, n, i);
      if y[|x| - 1] {
        reflection := reflection[|x| - 1 - (n - 1 - i) := true];
      }
      y := Shr(y, 1);
    }
    assert Zeros(|x| - n) + Reverse(Low(x, n)) + Zeros(0) == Reflected(x, n);
  }

  /** `crc_helper<n, doReflect>::reflect`. */
  method HelperReflect(doReflect: bool, x: Word, n: nat) returns (y: Word)
    requires n <= |x|
    ensures y == if doReflect then Reflected(x, n) else x
  {
    if doReflect {
      y := Reflect(x, n);
    } else {
      y := x;
    }
  }

  // ---------- crc_basic ----------

  class CrcBasic {
    const bits: nat
    const poly: Word
    const init: Word
    const finalXor: Word
    const reflectIn: bool
    const reflectRem: bool
    var rem: Word

    ghost predicate Valid()
      reads this
    {
      0 < bits <= |rem| == |poly| == |init| == |finalXor|
    }

    /** The register: the interim remainder. */
    ghost function Register(): (r: Word)
      requires Valid()
      reads this
      ensures |r| == bits
    {
      Low(rem, bits)
    }

    ghost function Divisor(): (p: Word)
      requires Valid()
      reads this
      ensures |p| == bits
    {
      Low(poly, bits)
    }

    constructor (bits: nat, poly: Word, init: Word, finalXor: Word, reflectIn: bool, reflectRem: bool)
      requires 0 < bits <= |poly| == |init| == |finalXor|
      ensures Valid() && Register() == Low(init, bits)
      ensures this.bits == bits && this.poly == poly && this.init == init && this.finalXor == finalXor
      ensures this.reflectIn == reflectIn && this.reflectRem == reflectRem
    {
      this.bits, this.poly, this.init, this.finalXor := bits, poly, init, finalXor;
      this.reflectIn, this.reflectRem := reflectIn, reflectRem;
      rem := init;
    }

    method Reset(newRem: Word)
      requires Valid() && |newRem| == |rem|
      modifies this
      ensures Valid() && Register() == Low(newRem, bits)
    {
      rem := newRem;
    }

    method ProcessBit(bit: bool)
      requires Valid()
      modifies this
      ensures Valid() && |rem| == |old(rem)| && Register() == Step(old(Register()), bit, Divisor())
    {
      LowStep(rem, bit, poly, bits);
      if bit {
        rem := Xor(rem, HighBit(|rem|, bits));
      }
      var doPolyDiv := rem[|rem| - bits];
      rem := Shl(rem, 1);
      if doPolyDiv {
        rem := Xor(rem, poly);
      }
    }

    /** Feeds the `count` low bits of a byte, the upper ones first. */
    method ProcessBits(byte: Byte, count: nat)
      requires Valid() && count <= 8
      modifies this
      ensures Valid() && Register() == Steps(old(Register()), Low(byte, count), Divisor())
    {
      var b := Shl(byte, 8 - count);
      assert b[..count] == Low(byte, count);
      ghost var before, p := Register(), Divisor();
      var i := count;
      while i > 0
        invariant Valid() && |b| == 8 && i <= count
        invariant Divisor() == p && Steps(Register(), b[..i], p) == Steps(before, Low(byte, count), p)
      {
        ShlPrefix(b, i);
        ProcessBit(b[0]);
        i, b := i - 1, Shl(b, 1);
      }
    }

    method ProcessByte(byte: Byte)
      requires Valid()
      modifies this
      ensures Valid()
      ensures Register() == Steps(old(Register()), if reflectIn then Reverse(byte) else byte, Divisor())
    {
      if reflectIn {
        var reflected := Reflect(byte, 8);
        assert reflected == Zeros(0) + Reverse(byte);
        ProcessBits(reflected, 8);
      } else {
        ProcessBits(byte, 8);
      }
    }

    /** `process_block`, and `process_bytes` which calls it. */
    method ProcessBytes(data: seq<Byte>)
      requires Valid()
      modifies this
      ensures Valid()
      ensures Register() == Steps(old(Register()), MessageBits(data, reflectIn), Divisor())
    {
      var p := 0;
      while p < |data|
        invariant Valid() && p <= |data|
        invariant Steps(Register(), MessageBits(data[p..], reflectIn), Divisor()) ==
                  Steps(old(Register()), MessageBits(data, reflectIn), Divisor())
      {
        StepsAppend(Register(), if reflectIn then Reverse(data[p]) else data[p],
                    MessageBits(data[p + 1..], reflectIn), Divisor());
        MessageTail(data, p, reflectIn);
        ProcessByte(data[p]);
        p := p + 1;
      }
    }

    method GetInterimRemainder() returns (value: Word)
      requires Valid()
      ensures value == Zeros(|rem| - bits) + Register()
    {
      value := Mask(rem, bits);
    }

    method Checksum() returns (value: Word)
      requires Valid()
      ensures value == Zeros(|rem| - bits) + Output(Register(), Low(finalXor, bits), reflectRem)
    {
      var out := rem;
      if reflectRem {
        out := Reflect(rem, bits);
      }
      LowXor(out, finalXor, bits);
      value := Mask(Xor(out, finalXor), bits);
    }
  }

  // ---------- crc_table_t ----------

  /** One lookup table per width, polynomial and reflection, filled on first use. */
  class CrcTable {
    const bits: nat
    const poly: Word
    const reflect: bool
    const slots: array<Word>
    var didInit: bool

    ghost predicate Valid()
      reads this, slots
    {
      && 0 < bits <= |poly| && 8 <= |poly| && slots.Length == 256
      && (didInit ==> forall k :: 0 <= k < 256 ==> Filled(slots[..], k))
    }

    /** Slot `k` holds the remainder of byte `k`. */
    ghost predicate SlotHolds(w: Word, k: nat)
      requires 0 < bits <= |poly|
    {
      |w| == |poly| && Holds(w, Partial(ToWord(k, 8), Low(poly, bits), reflect), reflect)
    }

    constructor (bits: nat, poly: Word, reflect: bool)
      requires 0 < bits <= |poly| && 8 <= |poly|
      ensures Valid() && !didInit && fresh(slots)
      ensures this.bits == bits && this.poly == poly && this.reflect == reflect
    {
      this.bits, this.poly, this.reflect, didInit := bits, poly, reflect, false;
      slots := new Word[256](i => Zeros(|poly|));
    }

    method DivideBit(dividend: Word, bit: bool) returns (remainder: Word)
      requires Valid() && |dividend| == |poly|
      ensures |remainder| == |poly|
      ensures Low(remainder, bits) == Step(Low(dividend, bits), bit, Low(poly, bits))
    {
      LowStep(dividend, bit, poly, bits);
      remainder := dividend;
      if bit {
        remainder := Xor(remainder, HighBit(|poly|, bits));
      }
      if remainder[|poly| - bits] {
        remainder := Xor(Shl(remainder, 1), poly);
      } else {
        remainder := Shl(remainder, 1);
      }
    }

    /** The remainder of one dividend byte, one bit at a time. */
    method DivideByte(dividend: Byte) returns (remainder: Word)
      requires Valid()
      ensures |remainder| == |poly|
      ensures Low(remainder, bits) == Steps(Zeros(bits), dividend, Low(poly, bits))
    {
      remainder := Zeros(|poly|);
      assert Low(remainder, bits) == Zeros(bits) && dividend[0..] == dividend;
      for i := 0 to 8
        invariant |remainder| == |poly|
        invariant Steps(Low(remainder, bits), dividend[i..], Low(poly, bits)) ==
                  Steps(Zeros(bits), dividend, Low(poly, bits))
      {
        assert dividend[i..][1..] == dividend[i + 1..];
        remainder := DivideBit(remainder, dividend[i]);
      }
    }

    /** What one round of the outer loop stores, and where. */
    method DivideDividend(dividend: nat) returns (k: nat, value: Word)
      requires Valid() && dividend < 256
      ensures k == SlotOf(dividend, reflect) < 256 && SlotHolds(value, k)
    {
      var remainder := DivideByte(ToWord(dividend, 8));
      var slot := HelperReflect(reflect, ToWord(dividend, 8), 8);
      value := HelperReflect(reflect, remainder, bits);
      SlotFor(dividend, slot, remainder, value);
      k := Value(slot);
    }

    /** A round fills the slot of its dividend and touches no other. */
    method FillSlot(dividend: nat, ghost written: seq<nat>) returns (ghost written': seq<nat>)
      requires Valid() && !didInit && dividend < 256
      requires AllFilled(slots[..], written) && InRoundOrder(written, dividend, reflect)
      modifies slots
      ensures AllFilled(slots[..], written') && InRoundOrder(written', dividend + 1, reflect)
      ensures forall k :: 0 <= k < 256 && k != SlotOf(dividend, reflect) ==> slots[k] == old(slots[k])
    {
      var k, value := DivideDividend(dividend);
      ghost var before := slots[..];
      slots[k] := value;
      OneMoreFilled(before, slots[..], written, k);
      NextInRoundOrder(written, reflect);
      written' := written + [k];
    }

    /**
     Fills the table once. The counter is an `unsigned char` that wraps to zero,
     which happens after exactly 256 rounds. `written` lists the slots in the
     order in which the rounds fill them, which is each slot once.
     */
    method InitTable() returns (ghost written: seq<nat>)
      requires Valid()
      modifies `didInit, slots
      ensures Valid() && didInit
      ensures old(didInit) ==> slots[..] == old(slots[..]) && written == []
      ensures !old(didInit) ==> InRoundOrder(written, 256, reflect)
    {
      written := [];
      if didInit { return; }
      var dividend, more := 0, true;
      while more
        invariant !didInit && |written| <= 256 && dividend == |written| % 256 && (more <==> |written| < 256)
        invariant AllFilled(slots[..], written) && InRoundOrder(written, |written|, reflect)
        decreases 256 - |written|
      {
        written := FillSlot(dividend, written);
        dividend := (dividend + 1) % 256;
        more := dividend != 0;
      }
      EverySlotFilled(slots[..], written);
      didInit := true;
    }

    ghost predicate Filled(table: seq<Word>, k: nat)
      requires 0 < bits <= |poly|
    {
      k < |table| && SlotHolds(table[k], k)
    }

    ghost predicate AllFilled(table: seq<Word>, written: seq<nat>)
      requires 0 < bits <= |poly|
    {
      forall k :: k in written ==> Filled(table, k)
    }

    lemma OneMoreFilled(before: seq<Word>, after: seq<Word>, written: seq<nat>, k: nat)
      requires 0 < bits <= |poly| && |before| == |after|
      requires AllFilled(before, written) && Filled(after, k)
      requires forall j :: 0 <= j < |after| && j != k ==> after[j] == before[j]
      ensures AllFilled(after, written + [k])
    {
      forall j | j in written + [k] ensures Filled(after, j) {
        if j != k { assert Filled(before, j); }
      }
    }

    /** Every slot is the slot of some round, bit reversal being a permutation. */
    lemma EverySlotFilled(table: seq<Word>, written: seq<nat>)
      requires 0 < bits <= |poly|
      requires AllFilled(table, written) && InRoundOrder(written, 256, reflect)
      ensures forall k :: 0 <= k < 256 ==> Filled(table, k)
    {
      forall k | 0 <= k < 256 ensures Filled(table, k) {
        FilledInOneRound(written, k, reflect);
      }
    }

    lemma SlotFor(dividend: nat, slot: Word, remainder: Word, value: Word)
      requires Valid() && dividend < 256 && |remainder| == |poly|
      requires slot == if reflect then Reflected(ToWord(dividend, 8), 8) else ToWord(dividend, 8)
      requires value == if reflect then Reflected(remainder, bits) else remainder
      requires Low(remainder, bits) == Steps(Zeros(bits), ToWord(dividend, 8), Low(poly, bits))
      ensures Value(slot) == SlotOf(dividend, reflect) < 256 && SlotHolds(value, SlotOf(dividend, reflect))
    {
      SlotOfTwice(dividend, reflect);
      if reflect {
        assert Low(ToWord(dividend, 8), 8) == ToWord(dividend, 8);
        assert slot == Reverse(ToWord(dividend, 8));
        ReverseTwice(ToWord(dividend, 8));
        HoldsReflected(remainder, bits);
      }
    }

    method Lookup(index: Byte) returns (w: Word)
      requires Valid() && didInit
      ensures |w| == |poly| && Holds(w, Partial(index, Low(poly, bits), reflect), reflect)
    {
      ByteValues(0, index);
      assert Filled(slots[..], Value(index));
      w := slots[Value(index)];
    }
  }

  // ---------- crc_optimal ----------

  class CrcOptimal {
    const bits: nat
    const poly: Word
    const init: Word
    const finalXor: Word
    const reflectIn: bool
    const reflectRem: bool
    const table: CrcTable
    var rem: Word
    /** The interim remainder, which a reflected engine stores back to front. */
    ghost var register: Word

    ghost predicate Valid()
      reads this, table, table.slots
    {
      && 0 < bits <= |rem| == |poly| == |init| == |finalXor|
      && table.Valid() && table.didInit
      && table.bits == bits && table.poly == poly && table.reflect == reflectIn
      && |register| == bits && Holds(rem, register, reflectIn)
    }

    ghost function Divisor(): (p: Word)
      requires bits <= |poly|
      ensures |p| == bits
    {
      Low(poly, bits)
    }

    constructor (bits: nat, poly: Word, init: Word, finalXor: Word, reflectIn: bool, reflectRem: bool, table: CrcTable)
      requires 0 < bits <= |poly| == |init| == |finalXor| && table.Valid()
      requires table.bits == bits && table.poly == poly && table.reflect == reflectIn
      modifies table`didInit, table.slots
      ensures Valid() && register == Low(init, bits)
      ensures this.bits == bits && this.poly == poly && this.init == init && this.finalXor == finalXor
      ensures this.reflectIn == reflectIn && this.reflectRem == reflectRem && this.table == table
    {
      this.bits, this.poly, this.init, this.finalXor := bits, poly, init, finalXor;
      this.reflectIn, this.reflectRem, this.table := reflectIn, reflectRem, table;
      rem, register := init, Low(init, bits);
      new;
      rem := HelperReflect(reflectIn, init, bits);
      HoldsReflected(init, bits);
      ghost var _ := table.InitTable();
    }

    method Reset(newRem: Word)
      requires Valid() && |newRem| == |rem|
      modifies `rem, `register
      ensures Valid() && register == Low(newRem, bits)
    {
      rem := HelperReflect(reflectIn, newRem, bits);
      register := Low(newRem, bits);
      HoldsReflected(newRem, bits);
    }

    /** `crc_helper::index`: the byte meets the register's leading byte. */
    function Index(byte: Byte): (index: Byte)
      requires 0 < bits <= |rem| && 8 <= |rem|
      reads `rem
    {
      Xor(byte, ByteOf(rem, bits, reflectIn))
    }

    method ProcessByte(byte: Byte)
      requires Valid()
      modifies `rem, `register
      ensures Valid()
      ensures register == Steps(old(register), if reflectIn then Reverse(byte) else byte, Divisor())
    {
      var slot := table.Lookup(Index(byte));
      EngineByteStep(rem, register, byte, slot, Divisor(), reflectIn);
      rem := Xor(if reflectIn then Shr(rem, 8) else Shl(rem, 8), slot);
      register := Steps(register, if reflectIn then Reverse(byte) else byte, Divisor());
    }

    method ProcessBytes(data: seq<Byte>)
      requires Valid()
      modifies `rem, `register
      ensures Valid()
      ensures register == Steps(old(register), MessageBits(data, reflectIn), Divisor())
    {
      var p := 0;
      while p < |data|
        invariant Valid() && p <= |data|
        invariant Steps(register, MessageBits(data[p..], reflectIn), Divisor()) ==
                  Steps(old(register), MessageBits(data, reflectIn), Divisor())
      {
        StepsAppend(register, if reflectIn then Reverse(data[p]) else data[p],
                    MessageBits(data[p + 1..], reflectIn), Divisor());
        MessageTail(data, p, reflectIn);
        ProcessByte(data[p]);
        p := p + 1;
      }
    }

    method GetInterimRemainder() returns (value: Word)
      requires Valid()
      ensures value == Zeros(|rem| - bits) + register
    {
      var w := HelperReflect(reflectIn, rem, bits);
      StoredRegister(rem, register, reflectIn);
      value := Mask(w, bits);
    }

    /** The stored register is already reversed in a reflected engine, so only a disagreement reflects. */
    method Checksum() returns (value: Word)
      requires Valid()
      ensures value == Zeros(|rem| - bits) + Output(register, Low(finalXor, bits), reflectRem)
    {
      var w := HelperReflect(reflectRem != reflectIn, rem, bits);
      if reflectIn { ReflectedHolds(rem, register); LowExtended(|rem| - bits, register); }
      LowExtended(|rem| - bits, Reverse(Low(rem, bits)));
      LowXor(w, finalXor, bits);
      value := Mask(Xor(w, finalXor), bits);
    }
  }

  // ---------- crc and augmented_crc ----------

  /** The function template `crc`. */
  method Crc(bits: nat, poly: Word, init: Word, finalXor: Word, reflectIn: bool, reflectRem: bool,
             table: CrcTable, data: seq<Byte>) returns (value: Word)
    requires 0 < bits <= |poly| == |init| == |finalXor| && table.Valid()
    requires table.bits == bits && table.poly == poly && table.reflect == reflectIn
    modifies table`didInit, table.slots
    ensures table.Valid() && table.didInit
    ensures value == Zeros(|poly| - bits) +
            CrcWords.Checksum(Low(poly, bits), Low(init, bits), Low(finalXor, bits), reflectIn, reflectRem, data)
  {
    var computer := new CrcOptimal(bits, poly, init, finalXor, reflectIn, reflectRem, table);
    computer.ProcessBytes(data);
    value := computer.Checksum();
  }

  /** `augmented_crc`, for widths of a byte and more, which its shift by `Bits - CHAR_BIT` needs. */
  method AugmentedCrc(table: CrcTable, data: seq<Byte>, initial: Word) returns (value: Word)
    requires table.Valid() && !table.reflect && |initial| == |table.poly| && table.bits >= 8
    modifies table`didInit, table.slots
    ensures table.Valid() && table.didInit
    ensures value == Zeros(|table.poly| - table.bits) +
            LongDiv(Low(initial, table.bits) + MessageBits(data, false), Low(table.poly, table.bits))
  {
    ghost var _ := table.InitTable();
    value := AugmentedLoop(table, data, initial);
  }

  method AugmentedLoop(table: CrcTable, data: seq<Byte>, initial: Word) returns (value: Word)
    requires table.Valid() && table.didInit && !table.reflect && |initial| == |table.poly| && table.bits >= 8
    ensures value == Zeros(|table.poly| - table.bits) +
            LongDiv(Low(initial, table.bits) + MessageBits(data, false), Low(table.poly, table.bits))
  {
    var bits, width := table.bits, |table.poly|;
    ghost var poly := Low(table.poly, bits);
    var rem := initial;
    var p := 0;
    while p < |data|
      invariant p <= |data| && |rem| == width
      invariant LongDiv(Low(rem, bits) + MessageBits(data[p..], false), poly) ==
                LongDiv(Low(initial, bits) + MessageBits(data, false), poly)
    {
      MessageTail(data, p, false);
      rem := AugmentedByte(table, rem, data[p], MessageBits(data[p + 1..], false));
      p := p + 1;
    }
    assert Low(rem, bits) + [] == Low(rem, bits);
    value := Mask(rem, bits);
  }

  /** The loop body of `augmented_crc`. */
  method AugmentedByte(table: CrcTable, w: Word, byte: Byte, ghost rest: Word) returns (rem: Word)
    requires table.Valid() && table.didInit && !table.reflect && |w| == |table.poly| && table.bits >= 8
    ensures |rem| == |w|
    ensures var n, poly := table.bits, Low(table.poly, table.bits);
      LongDiv(Low(rem, n) + rest, poly) == LongDiv(Low(w, n) + (byte + rest), poly)
  {
    var byteIndex := Low(Shr(w, table.bits - 8), 8);
    var slot := table.Lookup(byteIndex);
    AugmentedLow(w, table.bits, byte, slot, Low(table.poly, table.bits));
    DivideOn(Low(w, table.bits), byte, rest, Low(table.poly, table.bits));
    rem := Or(Shl(w, 8), Zeros(|w| - 8) + byte);
    rem := Xor(rem, slot);
  }

  /** `|`. */
  function Or(a: Word, b: Word): (c: Word)
    requires |a| == |b|
    ensures |c| == |a|
  {
    seq(|a|, i requires 0 <= i < |a| => a[i] || b[i])
  }

  /** A division may stop after `r + byte` and go on from its remainder. */
  lemma DivideOn(r: Word, byte: Word, rest: Word, poly: Word)
    requires |r| >= |poly| > 0
    ensures LongDiv(LongDiv(r + byte, poly) + rest, poly) == LongDiv(r + (byte + rest), poly)
  {
    LongDivPrefix(r + byte, rest, poly);
    AppendAssoc(r, byte, rest);
  }

  /** The byte that leaves at the top selects what its division leaves in the rest. */
  lemma AugmentedLow(rem: Word, n: nat, byte: Byte, slot: Word, poly: Word)
    requires 8 <= n == |poly| <= |rem| == |slot|
    requires Low(slot, n) == Partial(Low(Shr(rem, n - 8), 8), poly, false)
    ensures Low(Xor(Or(Shl(rem, 8), Zeros(|rem| - 8) + byte), slot), n) == LongDiv(Low(rem, n) + byte, poly)
  {
    var r, shifted := Low(rem, n), Or(Shl(rem, 8), Zeros(|rem| - 8) + byte);
    calc {
      Low(Xor(shifted, slot), n);
      { LowXor(shifted, slot, n); LowOr(rem, n, byte); }
      Xor(r[8..] + byte, Low(slot, n));
      { LowPlainTop(rem, n); }
      Xor(r[8..] + byte, Steps(Zeros(n), r[..8], poly));
      { AugmentedStep(r, byte, poly); }
      LongDiv(r + byte, poly);
    }
  }

  lemma LowPlainTop(w: Word, n: nat)
    requires 8 <= n <= |w|
    ensures Low(Shr(w, n - 8), 8) == Low(w, n)[..8]
  {
    var a, b := Low(Shr(w, n - 8), 8), Low(w, n)[..8];
    forall i | 0 <= i < 8 ensures a[i] == b[i] {
      assert a[i] == (Zeros(n - 8) + w)[|w| - 8 + i];
    }
  }

  lemma LowOr(w: Word, n: nat, byte: Byte)
    requires 8 <= n <= |w|
    ensures Low(Or(Shl(w, 8), Zeros(|w| - 8) + byte), n) == Low(w, n)[8..] + byte
  {
    var a, b := Low(Or(Shl(w, 8), Zeros(|w| - 8) + byte), n), Low(w, n)[8..] + byte;
    forall i | 0 <= i < n ensures a[i] == b[i] {
      assert Shl(w, 8)[|w| - n + i] == (w + Zeros(8))[|w| - n + i + 8];
      assert (Zeros(|w| - 8) + byte)[|w| - n + i] == (i >= n - 8 && byte[i - (n - 8)]);
    }
  }

  /** Dividing n + 8 bits: the top byte's remainder meets what is below it. */
  lemma AugmentedStep(r: Word, byte: Byte, poly: Word)
    requires 8 <= |r| == |poly|
    ensures LongDiv(r + byte, poly) == Xor(r[8..] + byte, Steps(Zeros(|r|), r[..8], poly))
  {
    var n, below := |r|, r[8..] + byte;
    assert r + byte == r[..8] + below;
    XorAppend(r[..8], Zeros(n), Zeros(8), below);
    XorZeros(r[..8]);
    XorZeros(below);
    DivideSplit(r[..8], below, poly);
  }
}
