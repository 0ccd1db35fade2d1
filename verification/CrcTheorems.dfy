/** What the three engines promise together, for every message, divisor and setting. */
module CrcTheorems {
  import opened Bits
  import opened CrcSpec
  import opened CrcWords
  import opened CrcEngines

  // ---------- crc_basic and crc_optimal ----------

  /** The bitwise and the table-driven engine agree, on the interim remainder and on the checksum. */
  method RunBoth(bits: nat, poly: Word, init: Word, finalXor: Word, reflectIn: bool, reflectRem: bool,
                 table: CrcTable, data: seq<Byte>)
    returns (slow: (Word, Word), fast: (Word, Word))
    requires 0 < bits <= |poly| == |init| == |finalXor| && table.Valid()
    requires table.bits == bits && table.poly == poly && table.reflect == reflectIn
    modifies table`didInit, table.slots
    ensures table.Valid() && table.didInit
    ensures slow == fast
    ensures fast.1 == Zeros(|poly| - bits) +
            CrcWords.Checksum(Low(poly, bits), Low(init, bits), Low(finalXor, bits), reflectIn, reflectRem, data)
  {
    var basic := new CrcBasic(bits, poly, init, finalXor, reflectIn, reflectRem);
    basic.ProcessBytes(data);
    var interim := basic.GetInterimRemainder();
    var checksum := basic.Checksum();
    slow := (interim, checksum);

    var optimal := new CrcOptimal(bits, poly, init, finalXor, reflectIn, reflectRem, table);
    optimal.ProcessBytes(data);
    interim := optimal.GetInterimRemainder();
    checksum := optimal.Checksum();
    fast := (interim, checksum);
  }

  /**
   From a zero register, the register after a message is the one remainder of the
   message polynomial, times x^n, divided by x^n + poly.
   */
  lemma RegisterIsTheRemainder(bits: Word, q: Word, r: Word, poly: Word)
    requires |q| == |bits| && |r| == |poly| > 0
    ensures Divides(bits + Zeros(|poly|), q, r, poly) ==> r == Steps(Zeros(|poly|), bits, poly)
    ensures var d := bits + Zeros(|poly|); Divides(d, Quotient(d, poly), Steps(Zeros(|poly|), bits, poly), poly)
  {
    var d := bits + Zeros(|poly|);
    StepsFromZero(bits, poly);
    LongDivIsTheRemainder(d, q, r, poly);
    LongDivIsTheRemainder(d, Quotient(d, poly), LongDiv(d, poly), poly);
  }

  // ---------- augmented_crc ----------

  lemma {:induction false} MessageAppend(a: seq<Byte>, b: seq<Byte>, reflectIn: bool)
    ensures MessageBits(a + b, reflectIn) == MessageBits(a, reflectIn) + MessageBits(b, reflectIn)
    decreases |a|
  {
    if a == [] {
      assert a + b == b;
    } else {
      assert (a + b)[1..] == a[1..] + b;
      MessageAppend(a[1..], b, reflectIn);
    }
  }

  /** The bytes that feed the bits of a word, in their order. */
  function BytesOf(w: Word, reflectIn: bool): (b: seq<Byte>)
    requires |w| % 8 == 0
    ensures 8 * |b| == |w|
  {
    if w == [] then [] else [if reflectIn then Reverse(w[..8]) else w[..8]] + BytesOf(w[8..], reflectIn)
  }

  lemma {:induction false} MessageOfBytes(w: Word, reflectIn: bool)
    requires |w| % 8 == 0
    ensures MessageBits(BytesOf(w, reflectIn), reflectIn) == w
  {
    if w != [] {
      MessageOfBytes(w[8..], reflectIn);
      ReverseTwice(w[..8]);
      assert BytesOf(w, reflectIn)[1..] == BytesOf(w[8..], reflectIn);
      assert w == w[..8] + w[8..];
    }
  }

  /** The remainder of a message with n further bits behind it is the difference of those bits and its CRC. */
  lemma AugmentedRemainder(m: Word, c: Word, poly: Word)
    requires |c| == |poly| > 0
    ensures LongDiv(Zeros(|poly|) + (m + c), poly) == Xor(Steps(Zeros(|poly|), m, poly), c)
  {
    LongDivPadded(|poly|, m + c, poly);
    XorAppend(m, Zeros(|poly|), Zeros(|m|), c);
    XorZeros(m);
    XorZeros(c);
    DivideSplit(m, c, poly);
    XorComm(c, Steps(Zeros(|poly|), m, poly));
  }

  /**
   A received message with check bytes behind it leaves remainder zero exactly
   when the check bytes are the plain CRC of the message; zero check bytes leave
   that CRC itself.
   */
  lemma AugmentedCheck(data: seq<Byte>, check: Word, poly: Word)
    requires |check| == |poly| > 0 && |check| % 8 == 0
    ensures var n := |poly|; var crc := Checksum(poly, Zeros(n), Zeros(n), false, false, data);
      var residue := LongDiv(Zeros(n) + MessageBits(data + BytesOf(check, false), false), poly);
      && (residue == Zeros(n) <==> check == crc)
      && (check == Zeros(n) ==> residue == crc)
  {
    var n := |poly|;
    var m := MessageBits(data, false);
    var r := Steps(Zeros(n), m, poly);
    MessageAppend(data, BytesOf(check, false), false);
    MessageOfBytes(check, false);
    AugmentedRemainder(m, check, poly);
    XorZeros(r);
    XorZeros(check);
    XorCancel(r, check, check);
  }

  /** A plain checksum in a storage word of any width, and the residue of its message with its bytes behind it. */
  lemma OwnChecksum(data: seq<Byte>, crc: Word, poly: Word, n: nat)
    requires 0 < n <= |poly| && n % 8 == 0
    requires var p, z := Low(poly, n), Low(Zeros(|poly|), n);
      crc == Zeros(|poly| - n) + Checksum(p, z, z, false, false, data)
    ensures Low(Zeros(|poly|), n) == Zeros(n)
    ensures Low(crc, n) == Checksum(Low(poly, n), Zeros(n), Zeros(n), false, false, data)
    ensures var message := MessageBits(data + BytesOf(Low(crc, n), false), false);
      Zeros(|poly| - n) + LongDiv(Low(Zeros(|poly|), n) + message, Low(poly, n)) == Zeros(|poly|)
  {
    assert Low(Zeros(|poly|), n) == Zeros(n);
    LowExtended(|poly| - n, Low(crc, n));
    AugmentedCheck(data, Low(crc, n), Low(poly, n));
    ZerosAppend(|poly| - n, n);
  }

  /** `augmented_crc` accepts what the engines produce: message plus checksum bytes leave zero. */
  method CheckOwnChecksum(table: CrcTable, data: seq<Byte>) returns (crc: Word, residue: Word)
    requires table.Valid() && !table.reflect && table.bits >= 8 && table.bits % 8 == 0
    modifies table`didInit, table.slots
    ensures table.Valid() && table.didInit
    ensures residue == Zeros(|table.poly|) && |crc| == |table.poly|
    ensures var p, z := Low(table.poly, table.bits), Zeros(table.bits);
      Low(crc, table.bits) == Checksum(p, z, z, false, false, data)
  {
    var n, zero := table.bits, Zeros(|table.poly|);
    crc := Crc(n, table.poly, zero, zero, false, false, table, data);
    OwnChecksum(data, crc, table.poly, n);
    residue := AugmentedCrc(table, data + BytesOf(Low(crc, n), false), zero);
  }
}
