/** Node addresses: the text "namespace:identifier" of opcua_tool.hpp and the numbers it names. */
module NodeAddress {

  /**
   What stream extraction leaves in a number of the type below a limit, for text
   that is not a decimal numeral within it. It belongs to the library and stays open.
   */
  type Leftover = (string, nat) -> nat

  const NAMESPACE_LIMIT := 0x1_0000
  const IDENTIFIER_LIMIT := 0x1_0000_0000

  predicate IsDigit(c: char) {
    '0' <= c <= '9'
  }

  predicate IsNumeral(s: string) {
    s != [] && forall i :: 0 <= i < |s| ==> IsDigit(s[i])
  }

  function Value(s: string): nat
    requires forall i :: 0 <= i < |s| ==> IsDigit(s[i])
  {
    if s == [] then 0
    else
      assert IsDigit(s[|s| - 1]);
      10 * Value(s[..|s| - 1]) + (s[|s| - 1] as int - '0' as int)
  }

  function Decimal(n: nat): (s: string) {
    if n < 10 then ['0' + n as char] else Decimal(n / 10) + ['0' + (n % 10) as char]
  }

  /** `StringToNum` for an unsigned type that holds the numbers below `limit`. */
  function StringToNum(s: string, limit: nat, leftover: Leftover): (n: nat)
    requires limit > 0
    ensures n < limit
  {
    if IsNumeral(s) && Value(s) < limit then Value(s) else leftover(s, limit) % limit
  }

  // ---------- What numerals mean ----------

  function Power(base: nat, k: nat): nat {
    if k == 0 then 1 else base * Power(base, k - 1)
  }

  /** One character is a numeral when it is a digit, whose value is its distance from '0'. */
  lemma DigitValue(c: char)
    ensures IsNumeral([c]) <==> '0' <= c <= '9'
    ensures IsNumeral([c]) ==> Value([c]) == c as int - '0' as int
  {
    assert [c][0] == c && [c][..0] == [];
  }

  /** Appending adds a numeral to the digits that it starts with. */
  lemma NumeralAppend(a: string, c: char)
    ensures IsNumeral(a + [c]) <==> (a == [] || IsNumeral(a)) && '0' <= c <= '9'
  {
    var t := a + [c];
    assert t[|a|] == c && forall i :: 0 <= i < |a| ==> t[i] == a[i];
  }

  /** The positional law: digits in front of a numeral count for the power of ten that its length gives. */
  lemma {:induction false} ValueOfAppend(a: string, b: string)
    requires IsNumeral(a + b)
    ensures (forall i :: 0 <= i < |a| ==> IsDigit(a[i])) && (forall i :: 0 <= i < |b| ==> IsDigit(b[i]))
    ensures Value(a + b) == Value(a) * Power(10, |b|) + Value(b)
    ensures Power(10, |b| + 1) == 10 * Power(10, |b|) && Power(10, 0) == 1
    decreases |b|
  {
    var t := a + b;
    forall i | 0 <= i < |a| ensures IsDigit(a[i]) { assert a[i] == t[i]; }
    forall i | 0 <= i < |b| ensures IsDigit(b[i]) { assert b[i] == t[|a| + i]; }
    if b == [] {
      assert t == a;
    } else {
      var n := |b| - 1;
      assert t[..|t| - 1] == a + b[..n];
      if a + b[..n] != [] {
        ValueOfAppend(a, b[..n]);
        TenTimes(Value(a), Power(10, n), Value(b[..n]));
      }
    }
  }

  lemma TenTimes(a: nat, p: nat, b: nat)
    ensures 10 * (a * p + b) == a * (10 * p) + 10 * b
  {}

  /** A number's decimal numeral does not start with 0 unless it is the numeral 0. */
  lemma {:induction false} NoLeadingZero(n: nat)
    ensures Decimal(n) != [] && (Decimal(n)[0] == '0' ==> n == 0 && Decimal(n) == "0")
  {
    if n >= 10 { NoLeadingZero(n / 10); }
  }

  lemma {:induction false} DecimalRoundTrip(n: nat)
    ensures IsNumeral(Decimal(n)) && Value(Decimal(n)) == n
  {
    var s := Decimal(n);
    if n >= 10 {
      DecimalRoundTrip(n / 10);
      assert s[..|s| - 1] == Decimal(n / 10);
    } else {
      assert s[..|s| - 1] == [];
    }
  }

  /** The position of the first colon, if any: where "(.*?):(.*)" splits a text. */
  function FirstColon(s: string): (i: nat)
    ensures i <= |s|
    ensures i < |s| ==> s[i] == ':'
    ensures forall j :: 0 <= j < i ==> s[j] != ':'
  {
    if s == [] || s[0] == ':' then 0 else 1 + FirstColon(s[1..])
  }

  /** `GetNamespaceIdAndIdentifier`; the last two parameters are its reference parameters before the call. */
  method GetNamespaceIdAndIdentifier(text: string, namespaceBefore: string, identifierBefore: string)
    returns (namespaceId: string, identifier: string)
    ensures ':' in text ==> text == namespaceId + ":" + identifier && ':' !in namespaceId
    ensures ':' !in text ==> namespaceId == namespaceBefore && identifier == identifierBefore
  {
    namespaceId, identifier := namespaceBefore, identifierBefore;
    var colon := FirstColon(text);
    if colon == |text| {
      return;
    }
    namespaceId := text[..colon];
    identifier := text[colon + 1..];
  }

  /** `TransferNamespaceIdAndIdentifier`, for a 16-bit and a 32-bit unsigned number. */
  method TransferNamespaceIdAndIdentifier(namespaceText: string, identifierText: string, leftover: Leftover)
    returns (namespaceIndex: nat, identifier: nat)
    ensures IsNumeral(namespaceText) && Value(namespaceText) < 0x1_0000 ==> namespaceIndex == Value(namespaceText)
    ensures IsNumeral(identifierText) && Value(identifierText) < 0x1_0000_0000 ==> identifier == Value(identifierText)
    ensures !IsNumeral(namespaceText) || Value(namespaceText) >= 0x1_0000 ==>
              namespaceIndex == leftover(namespaceText, 0x1_0000) % 0x1_0000
    ensures !IsNumeral(identifierText) || Value(identifierText) >= 0x1_0000_0000 ==>
              identifier == leftover(identifierText, 0x1_0000_0000) % 0x1_0000_0000
    ensures namespaceIndex == StringToNum(namespaceText, 0x1_0000, leftover) < 0x1_0000
    ensures identifier == StringToNum(identifierText, 0x1_0000_0000, leftover) < 0x1_0000_0000
    ensures forall n :: 0 <= n < 0x1_0000 && namespaceText == Decimal(n) ==> namespaceIndex == n
    ensures forall i :: 0 <= i < 0x1_0000_0000 && identifierText == Decimal(i) ==> identifier == i
  {
    forall n: nat ensures IsNumeral(Decimal(n)) && Value(Decimal(n)) == n { DecimalRoundTrip(n); }
    namespaceIndex := StringToNum(namespaceText, NAMESPACE_LIMIT, leftover);
    identifier := StringToNum(identifierText, IDENTIFIER_LIMIT, leftover);
  }

  /** The node that a text names, as the write loop finds it: two empty texts when there is no colon. */
  function Address(text: string, leftover: Leftover): (nat, nat) {
    var i := FirstColon(text);
    if i == |text| then (StringToNum("", NAMESPACE_LIMIT, leftover), StringToNum("", IDENTIFIER_LIMIT, leftover))
    else (StringToNum(text[..i], NAMESPACE_LIMIT, leftover), StringToNum(text[i + 1..], IDENTIFIER_LIMIT, leftover))
  }

  /** The two calls of the write loop, on fresh strings. */
  method FindNode(text: string, leftover: Leftover) returns (node: (nat, nat))
    ensures node == Address(text, leftover)
    ensures ':' !in text ==>
              node == (leftover("", 0x1_0000) % 0x1_0000, leftover("", 0x1_0000_0000) % 0x1_0000_0000)
    ensures forall a, b :: text == a + ":" + b && ':' !in a ==>
              && (IsNumeral(a) && Value(a) < 0x1_0000 ==> node.0 == Value(a))
              && (IsNumeral(b) && Value(b) < 0x1_0000_0000 ==> node.1 == Value(b))
  {
    var namespaceText, identifierText := GetNamespaceIdAndIdentifier(text, "", "");
    var namespaceIndex, identifier := TransferNamespaceIdAndIdentifier(namespaceText, identifierText, leftover);
    if ':' in text { SplitIsUnique(namespaceText, identifierText); }
    node := (namespaceIndex, identifier);
    forall a, b | text == a + ":" + b && ':' !in a ensures a == namespaceText && b == identifierText {
      SplitIsUnique(a, b);
      assert text[|a|] == ':';
    }
  }

  /** Only the first colon splits: further ones belong to the identifier. */
  lemma {:induction false} SplitIsUnique(a: string, b: string)
    requires ':' !in a
    ensures var t := a + ":" + b; FirstColon(t) == |a| && t[..|a|] == a && t[|a| + 1..] == b
  {
    var t := a + ":" + b;
    assert t[|a|] == ':';
    forall j | 0 <= j < |a| ensures t[j] != ':' { assert t[j] == a[j]; }
    assert FirstColon(t) == |a|;
  }

  /** Every node address survives printing as "namespace:identifier" and parsing. */
  lemma AddressRoundTrip(namespaceIndex: nat, identifier: nat, leftover: Leftover)
    requires namespaceIndex < 0x1_0000 && identifier < 0x1_0000_0000
    ensures Address(Decimal(namespaceIndex) + ":" + Decimal(identifier), leftover) == (namespaceIndex, identifier)
  {
    var a, b := Decimal(namespaceIndex), Decimal(identifier);
    DecimalRoundTrip(namespaceIndex);
    DecimalRoundTrip(identifier);
    assert ':' !in a by {
      assert forall i :: 0 <= i < |a| ==> IsDigit(a[i]) && a[i] != ':';
    }
    SplitIsUnique(a, b);
  }

  /** The address that the repository links first. */
  lemma LinkedAddress(leftover: Leftover)
    ensures Address("2:6005", leftover) == (2, 6005)
  {
    assert "2:6005" == "2" + ":" + "6005";
    assert ['0' + 2 as char] == "2" && ['0' + 6 as char, '0' + 0 as char, '0' + 0 as char, '0' + 5 as char] == "6005";
    assert Decimal(2) == "2" && Decimal(6005) == "6005";
    AddressRoundTrip(2, 6005, leftover);
  }
}
