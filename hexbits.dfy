/** The hexadecimal-to-binary conversion inside the worker's get_final_hash
    (instance.py:12): the hex digest gets a sentinel digit "1" in front, is
    parsed as a base-16 integer, rendered with Python's bin(), and the first
    three characters ("0b" and the sentinel bit) are dropped. */
module HexBinary {

  /** Lower-case hexadecimal digits, as produced by hashlib's hexdigest(). */
  predicate IsHexChar(c: char) {
    '0' <= c <= '9' || 'a' <= c <= 'f'
  }

  predicate IsHex(s: string) {
    forall j :: 0 <= j < |s| ==> IsHexChar(s[j])
  }

  predicate IsBinary(s: string) {
    forall j :: 0 <= j < |s| ==> s[j] == '0' || s[j] == '1'
  }

  function HexDigitValue(c: char): (v: nat)
    requires IsHexChar(c)
    ensures v < 16
  {
    if '0' <= c <= '9' then c as int - '0' as int else c as int - 'a' as int + 10
  }

  /** int(s, 16): digits are read left to right, each one multiplying the
      value so far by 16. */
  function HexValue(s: string): nat
    requires IsHex(s)
  {
    if s == [] then 0 else 16 * HexValue(s[..|s| - 1]) + HexDigitValue(s[|s| - 1])
  }

  function BitChar(b: nat): char
    requires b < 2
  {
    if b == 0 then '0' else '1'
  }

  function BitValue(c: char): nat {
    if c == '1' then 1 else 0
  }

  /** The binary digits of v, most significant first, without leading zeros
      ("0" for zero), which is what bin() writes after its "0b" prefix. */
  function BinDigits(v: nat): string {
    if v < 2 then [BitChar(v)] else BinDigits(v / 2) + [BitChar(v % 2)]
  }

  /** Python's bin() on a non-negative integer. */
  function PyBin(v: nat): string {
    "0b" + BinDigits(v)
  }

  /** Python's slice s[k:], which is empty when s is shorter than k. */
  function SliceFrom(s: string, k: nat): string {
    if |s| >= k then s[k..] else []
  }

  /** str(bin(int("1" + hex, 16))[3:]), the conversion of get_final_hash. */
  function SentinelBinary(hex: string): string
    requires IsHex(hex)
  {
    assert IsHex("1" + hex) by {
      forall j | 0 <= j < |"1" + hex| ensures IsHexChar(("1" + hex)[j]) {
        if j > 0 { assert ("1" + hex)[j] == hex[j - 1]; }
      }
    }
    SliceFrom(PyBin(HexValue("1" + hex)), 3)
  }

  /** The four zero-padded bits of one hex digit, most significant first. */
  function Nibble(c: char): (r: string)
    requires IsHexChar(c)
    ensures |r| == 4 && IsBinary(r)
  {
    var d := HexDigitValue(c);
    [BitChar(d / 8), BitChar(d / 4 % 2), BitChar(d / 2 % 2), BitChar(d % 2)]
  }

  /** Reference definition: every hex digit replaced by its four bits, in order. */
  function Expand(hex: string): string
    requires IsHex(hex)
  {
    if hex == [] then [] else Expand(hex[..|hex| - 1]) + Nibble(hex[|hex| - 1])
  }

  /** The value of a string of binary digits, read left to right. */
  function BinValue(s: string): nat {
    if s == [] then 0 else 2 * BinValue(s[..|s| - 1]) + BitValue(s[|s| - 1])
  }

  function Pow2(n: nat): (r: nat)
    ensures r >= 1
  {
    if n == 0 then 1 else 2 * Pow2(n - 1)
  }

  // ---------------------------------------------------------------------
  // The sentinel trick equals the digit-by-digit expansion.

  /** Appending one bit to a number of at least one bit appends its digit. */
  lemma BinDigitsAppendBit(w: nat, b: nat)
    requires w >= 1 && b < 2
    ensures BinDigits(2 * w + b) == BinDigits(w) + [BitChar(b)]
  {
    assert (2 * w + b) / 2 == w;
    assert (2 * w + b) % 2 == b;
  }

  /** The four bits of a digit below 16, most significant first. */
  lemma DigitBits(d: nat)
    requires d < 16
    ensures d / 8 < 2 && d / 4 % 2 < 2 && d / 2 % 2 < 2 && d % 2 < 2
    ensures d == 8 * (d / 8) + 4 * (d / 4 % 2) + 2 * (d / 2 % 2) + d % 2
  {
  }

  /** Appending four bits b3 b2 b1 b0 to a number of at least one bit. */
  lemma BinDigitsAppend4(w: nat, b3: nat, b2: nat, b1: nat, b0: nat)
    requires w >= 1 && b3 < 2 && b2 < 2 && b1 < 2 && b0 < 2
    ensures BinDigits(16 * w + 8 * b3 + 4 * b2 + 2 * b1 + b0) ==
      BinDigits(w) + [BitChar(b3), BitChar(b2), BitChar(b1), BitChar(b0)]
  {
    var w1 := 2 * w + b3;
    var w2 := 2 * w1 + b2;
    var w3 := 2 * w2 + b1;
    BinDigitsAppendBit(w, b3);
    BinDigitsAppendBit(w1, b2);
    BinDigitsAppendBit(w2, b1);
    BinDigitsAppendBit(w3, b0);
    assert 16 * w + 8 * b3 + 4 * b2 + 2 * b1 + b0 == 2 * w3 + b0;
  }

  /** Multiplying by 16 and adding a digit appends that digit's four bits. */
  lemma BinDigitsAppendNibble(w: nat, c: char)
    requires w >= 1 && IsHexChar(c)
    ensures BinDigits(16 * w + HexDigitValue(c)) == BinDigits(w) + Nibble(c)
  {
    var d := HexDigitValue(c);
    DigitBits(d);
    BinDigitsAppend4(w, d / 8, d / 4 % 2, d / 2 % 2, d % 2);
  }

  lemma SentinelPrefix(hex: string)
    requires IsHex(hex) && hex != []
    ensures IsHex("1" + hex)
    ensures ("1" + hex)[..|"1" + hex| - 1] == "1" + hex[..|hex| - 1]
    ensures ("1" + hex)[|"1" + hex| - 1] == hex[|hex| - 1]
  {
    forall j | 0 <= j < |"1" + hex| ensures IsHexChar(("1" + hex)[j]) {
      if j > 0 { assert ("1" + hex)[j] == hex[j - 1]; }
    }
  }

  /** Parsing "1" + hex digit by digit. */
  lemma SentinelValue(hex: string)
    requires IsHex(hex) && hex != []
    ensures IsHex("1" + hex) && IsHex(hex[..|hex| - 1]) && IsHex("1" + hex[..|hex| - 1])
    ensures HexValue("1" + hex) == 16 * HexValue("1" + hex[..|hex| - 1]) + HexDigitValue(hex[|hex| - 1])
  {
    SentinelPrefix(hex);
    var init := hex[..|hex| - 1];
    assert IsHex(init);
    if init != [] {
      SentinelPrefix(init);
    } else {
      assert IsHex("1");
    }
  }

  lemma {:induction false} SentinelDigits(hex: string)
    requires IsHex(hex)
    ensures IsHex("1" + hex)
    ensures HexValue("1" + hex) >= 1
    ensures BinDigits(HexValue("1" + hex)) == "1" + Expand(hex)
  {
    if hex == [] {
      assert "1" + hex == "1";
      assert HexValue("1") == 16 * HexValue([]) + 1;
    } else {
      var init := hex[..|hex| - 1];
      var last := hex[|hex| - 1];
      SentinelValue(hex);
      SentinelDigits(init);
      BinDigitsAppendNibble(HexValue("1" + init), last);
      assert Expand(hex) == Expand(init) + Nibble(last);
    }
  }

  /** The conversion of get_final_hash is exactly the digit-by-digit
      expansion: the sentinel keeps the leading zero bits. */
  lemma SentinelBinaryIsExpansion(hex: string)
    requires IsHex(hex)
    ensures SentinelBinary(hex) == Expand(hex)
  {
    SentinelDigits(hex);
    var v := HexValue("1" + hex);
    assert PyBin(v) == "0b1" + Expand(hex);
    assert PyBin(v)[3..] == Expand(hex);
  }

  // ---------------------------------------------------------------------
  // Properties of the expansion.

  lemma {:induction false} ExpandShape(hex: string)
    requires IsHex(hex)
    ensures |Expand(hex)| == 4 * |hex|
    ensures IsBinary(Expand(hex))
  {
    if hex != [] {
      var init := hex[..|hex| - 1];
      assert IsHex(init);
      ExpandShape(init);
      var e := Expand(hex);
      forall j | 0 <= j < |e| ensures e[j] == '0' || e[j] == '1' {
        if j < |Expand(init)| {
          assert e[j] == Expand(init)[j];
        } else {
          assert e[j] == Nibble(hex[|hex| - 1])[j - |Expand(init)|];
        }
      }
    }
  }

  /** Digit j of the hex string becomes bits 4j .. 4j+3 of the expansion. */
  lemma {:induction false} ExpandAt(hex: string, j: nat)
    requires IsHex(hex) && j < |hex|
    ensures |Expand(hex)| == 4 * |hex|
    ensures Expand(hex)[4 * j .. 4 * j + 4] == Nibble(hex[j])
  {
    ExpandShape(hex);
    var init := hex[..|hex| - 1];
    assert IsHex(init);
    ExpandShape(init);
    if j == |hex| - 1 {
      assert Expand(hex)[4 * j .. 4 * j + 4] == Nibble(hex[|hex| - 1]);
    } else {
      ExpandAt(init, j);
      assert Expand(hex)[4 * j .. 4 * j + 4] == Expand(init)[4 * j .. 4 * j + 4];
    }
  }

  lemma BinValueAppendBit(s: string, c: char)
    ensures BinValue(s + [c]) == 2 * BinValue(s) + BitValue(c)
  {
    assert (s + [c])[..|s + [c]| - 1] == s;
  }

  lemma BinValueAppend4(s: string, c3: char, c2: char, c1: char, c0: char)
    ensures BinValue(s + [c3, c2, c1, c0]) ==
      16 * BinValue(s) + 8 * BitValue(c3) + 4 * BitValue(c2) + 2 * BitValue(c1) + BitValue(c0)
  {
    var s1 := s + [c3];
    var s2 := s1 + [c2];
    var s3 := s2 + [c1];
    BinValueAppendBit(s, c3);
    BinValueAppendBit(s1, c2);
    BinValueAppendBit(s2, c1);
    BinValueAppendBit(s3, c0);
    assert s + [c3, c2, c1, c0] == s3 + [c0];
  }

  lemma BinValueAppendNibble(s: string, c: char)
    requires IsHexChar(c)
    ensures BinValue(s + Nibble(c)) == 16 * BinValue(s) + HexDigitValue(c)
  {
    var d := HexDigitValue(c);
    DigitBits(d);
    var n := Nibble(c);
    BinValueAppend4(s, n[0], n[1], n[2], n[3]);
    assert n == [n[0], n[1], n[2], n[3]];
  }

  /** Read in base 2, the expansion has the value of the hex string. */
  lemma {:induction false} ExpandValue(hex: string)
    requires IsHex(hex)
    ensures BinValue(Expand(hex)) == HexValue(hex)
  {
    if hex != [] {
      var init := hex[..|hex| - 1];
      assert IsHex(init);
      ExpandValue(init);
      BinValueAppendNibble(Expand(init), hex[|hex| - 1]);
    }
  }

  /** Width and value of the get_final_hash conversion: exactly four bits per
      hex digit whatever the number of leading zero digits, the bits of each
      digit in order, and the base-2 value equal to the base-16 value. */
  lemma SentinelBinaryCorrect(hex: string)
    requires IsHex(hex)
    ensures |SentinelBinary(hex)| == 4 * |hex|
    ensures IsBinary(SentinelBinary(hex))
    ensures BinValue(SentinelBinary(hex)) == HexValue(hex)
    ensures forall j :: 0 <= j < |hex| ==> SentinelBinary(hex)[4 * j .. 4 * j + 4] == Nibble(hex[j])
  {
    SentinelBinaryIsExpansion(hex);
    ExpandShape(hex);
    ExpandValue(hex);
    forall j | 0 <= j < |hex| ensures SentinelBinary(hex)[4 * j .. 4 * j + 4] == Nibble(hex[j]) {
      ExpandAt(hex, j);
    }
  }

  // ---------------------------------------------------------------------
  // Leading zero characters and the value of a binary string.

  lemma {:induction false} BinValueBound(s: string)
    ensures BinValue(s) < Pow2(|s|)
  {
    if s != [] {
      BinValueBound(s[..|s| - 1]);
    }
  }

  lemma {:induction false} BinValueFront(s: string)
    requires s != []
    ensures BinValue(s) == BitValue(s[0]) * Pow2(|s| - 1) + BinValue(s[1..])
  {
    if |s| > 1 {
      var init := s[..|s| - 1];
      BinValueFront(init);
      assert init[0] == s[0];
      assert init[1..] == s[1..][..|s| - 2];
    } else {
      assert s[1..] == [];
    }
  }

  lemma {:induction false} Pow2Monotone(a: nat, b: nat)
    requires a <= b
    ensures Pow2(a) <= Pow2(b)
  {
    if a < b {
      Pow2Monotone(a, b - 1);
    }
  }

  /** A binary string starts with d zero characters exactly when its value is
      below 2^(|s| - d): the difficulty counts leading zero bits. */
  lemma {:induction false} LeadingZeros(s: string, d: nat)
    requires IsBinary(s) && d <= |s|
    ensures (forall j :: 0 <= j < d ==> s[j] == '0') <==> BinValue(s) < Pow2(|s| - d)
  {
    if d == 0 {
      BinValueBound(s);
    } else {
      var t := s[1..];
      assert IsBinary(t) by {
        forall j | 0 <= j < |t| ensures t[j] == '0' || t[j] == '1' {
          assert t[j] == s[j + 1];
        }
      }
      BinValueFront(s);
      LeadingZeros(t, d - 1);
      if s[0] == '1' {
        Pow2Monotone(|s| - d, |t|);
      } else {
        assert (forall j :: 0 <= j < d ==> s[j] == '0') <==> (forall j :: 0 <= j < d - 1 ==> t[j] == '0') by {
          if forall j :: 0 <= j < d - 1 ==> t[j] == '0' {
            forall j | 0 <= j < d ensures s[j] == '0' {
              if j > 0 { assert s[j] == t[j - 1]; }
            }
          }
        }
      }
    }
  }
}
