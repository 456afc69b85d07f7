/**
 * Int32.ToString("X"): uppercase hexadecimal of the 32-bit two's-complement
 * bit pattern, without leading zeros, as used to show a service fault's
 * error code.
 */
module HexFormat {

  /** The range of a .NET `int`. */
  newtype int32 = x: int | -0x8000_0000 <= x < 0x8000_0000

  const TwoTo32: int := 0x1_0000_0000

  predicate IsUpperHexDigit(c: char)
  {
    '0' <= c <= '9' || 'A' <= c <= 'F'
  }

  predicate AllUpperHexDigits(s: string)
  {
    forall k :: 0 <= k < |s| ==> IsUpperHexDigit(s[k])
  }

  /** The uppercase digit of a value below 16. */
  function Digit(d: nat): (c: char)
    requires d < 16
    ensures IsUpperHexDigit(c)
  {
    if d < 10 then ('0' as int + d) as char else ('A' as int + d - 10) as char
  }

  /** The value of an uppercase hexadecimal digit. */
  function DigitValue(c: char): (v: nat)
    requires IsUpperHexDigit(c)
    ensures v < 16 && Digit(v) == c
  {
    if c <= '9' then c as int - '0' as int else c as int - 'A' as int + 10
  }

  lemma DigitValueOfDigit(d: nat)
    requires d < 16
    ensures DigitValue(Digit(d)) == d
  {
  }

  /** The hexadecimal digits of `n`, most significant first. */
  function Hex(n: nat): string
  {
    if n < 16 then [Digit(n)] else Hex(n / 16) + [Digit(n % 16)]
  }

  /** The value of a string of hexadecimal digits (the empty string is 0). */
  function ParseHex(s: string): nat
    requires AllUpperHexDigits(s)
  {
    if s == [] then 0 else ParseHex(s[..|s| - 1]) * 16 + DigitValue(s[|s| - 1])
  }

  /** What "X" prints: at least one digit, and no leading zero unless the value is 0. */
  predicate Canonical(s: string)
  {
    |s| > 0 && AllUpperHexDigits(s) && (s[0] == '0' ==> |s| == 1)
  }

  lemma {:induction false} HexIsCanonical(n: nat)
    ensures Canonical(Hex(n))
    ensures n > 0 ==> Hex(n)[0] != '0'
    decreases n
  {
    if n >= 16 {
      HexIsCanonical(n / 16);
    }
  }

  /** Parsing the digits gives back the number. */
  lemma {:induction false} ParseHexOfHex(n: nat)
    ensures AllUpperHexDigits(Hex(n)) && ParseHex(Hex(n)) == n
    decreases n
  {
    HexIsCanonical(n);
    var h := Hex(n);
    if n < 16 {
      DigitValueOfDigit(n);
      assert h[..0] == [];
    } else {
      ParseHexOfHex(n / 16);
      DigitValueOfDigit(n % 16);
      assert h[..|h| - 1] == Hex(n / 16);
    }
  }

  lemma {:induction false} ParsePositive(s: string)
    requires Canonical(s) && s[0] != '0'
    ensures ParseHex(s) >= 1
    decreases |s|
  {
    if |s| > 1 {
      ParsePositive(s[..|s| - 1]);
    } else {
      assert s[..0] == [];
    }
  }

  /** Every canonical digit string is what "X" prints for its value. */
  lemma {:induction false} HexOfParseHex(s: string)
    requires Canonical(s)
    ensures Hex(ParseHex(s)) == s
    decreases |s|
  {
    var last := s[|s| - 1];
    if |s| == 1 {
      assert s[..0] == [];
      assert s == [last];
    } else {
      var init := s[..|s| - 1];
      ParsePositive(init);
      HexOfParseHex(init);
      var n := ParseHex(s);
      assert n == ParseHex(init) * 16 + DigitValue(last);
      assert n / 16 == ParseHex(init) && n % 16 == DigitValue(last);
      assert s == init + [last];
    }
  }

  function Pow16(k: nat): nat
  {
    if k == 0 then 1 else 16 * Pow16(k - 1)
  }

  lemma {:induction false} HexLengthAtMost(n: nat, k: nat)
    requires k >= 1 && n < Pow16(k)
    ensures |Hex(n)| <= k
    decreases k
  {
    assert Pow16(1) == 16;
    if n >= 16 {
      assert k >= 2;
      assert n / 16 < Pow16(k - 1);
      HexLengthAtMost(n / 16, k - 1);
    }
  }

  lemma {:induction false} HexLengthAtLeast(n: nat, k: nat)
    requires n >= Pow16(k)
    ensures |Hex(n)| > k
    decreases k
  {
    if k > 0 {
      assert Pow16(k) >= 16 by {
        PowAtLeastOne(k - 1);
      }
      PowAtLeastOne(k - 1);
      assert n / 16 >= Pow16(k - 1);
      HexLengthAtLeast(n / 16, k - 1);
    }
  }

  lemma {:induction false} PowAtLeastOne(k: nat)
    ensures Pow16(k) >= 1
  {
    if k > 0 {
      PowAtLeastOne(k - 1);
    }
  }

  lemma PowValues()
    ensures Pow16(7) == 0x1000_0000 && Pow16(8) == TwoTo32
  {
    assert Pow16(1) == 0x10;
    assert Pow16(2) == 0x100;
    assert Pow16(3) == 0x1000;
    assert Pow16(4) == 0x1_0000;
    assert Pow16(5) == 0x10_0000;
    assert Pow16(6) == 0x100_0000;
  }

  /** The unsigned 32-bit value with the same bit pattern as `code`. */
  function Unsigned(code: int32): (u: nat)
    ensures u < TwoTo32
    ensures (u - code as int) % TwoTo32 == 0
  {
    if code < 0 then code as int + TwoTo32 else code as int
  }

  /** "0x" + code.ToString("X"): the prefix and the uppercase digits of the unsigned bit pattern. */
  function ErrorCodeText(code: int32): string
  {
    "0x" + Hex(Unsigned(code))
  }

  /**
   * The error-code text is the prefix, then canonical uppercase digits that
   * parse back to the code modulo 2^32; at most eight digits, and exactly
   * eight for a negative code.
   */
  lemma ErrorCodeTextShape(code: int32)
    ensures var r := ErrorCodeText(code);
      && |r| >= 3 && r[..2] == "0x"
      && Canonical(r[2..]) && ParseHex(r[2..]) == Unsigned(code)
      && Hex(ParseHex(r[2..])) == r[2..]
      && |r| <= 10 && (code < 0 ==> |r| == 10)
  {
    var u := Unsigned(code);
    var digits := Hex(u);
    HexIsCanonical(u);
    ParseHexOfHex(u);
    PowValues();
    HexLengthAtMost(u, 8);
    assert code < 0 ==> |digits| >= 8 by {
      if code < 0 {
        HexLengthAtLeast(u, 7);
      }
    }
    var r := "0x" + digits;
    assert r[2..] == digits;
  }
}
