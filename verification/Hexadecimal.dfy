/** Hexadecimal numerals: the printer behind `%x` and `std::hex`, zero padding, and reading. */
module Hexadecimal {

  predicate IsHex(c: char) {
    '0' <= c <= '9' || 'a' <= c <= 'f' || 'A' <= c <= 'F'
  }

  predicate AllHex(s: string) {
    forall i | 0 <= i < |s| :: IsHex(s[i])
  }

  function HexDigit(c: char): (d: nat)
    requires IsHex(c)
    ensures d < 16
  {
    if '0' <= c <= '9' then c as int - '0' as int
    else if 'a' <= c <= 'f' then c as int - 'a' as int + 10
    else c as int - 'A' as int + 10
  }

  function HexValue(g: string): (n: nat)
    requires AllHex(g)
  {
    if g == "" then 0 else 16 * HexValue(g[..|g| - 1]) + HexDigit(g[|g| - 1])
  }

  function Pow16(k: nat): nat {
    if k == 0 then 1 else 16 * Pow16(k - 1)
  }

  lemma {:induction false} HexBound(g: string)
    requires AllHex(g)
    ensures HexValue(g) < Pow16(|g|)
  {
    if g != "" { HexBound(g[..|g| - 1]); }
  }

  function HexChar(d: nat): (c: char)
    requires d < 16
    ensures IsHex(c) && HexDigit(c) == d && !('A' <= c <= 'F')
  {
    if d < 10 then '0' + d as char else 'a' + (d - 10) as char
  }

  function PrintHex(n: nat): (s: string)
    ensures s != "" && AllHex(s)
  {
    if n < 16 then [HexChar(n)] else PrintHex(n / 16) + [HexChar(n % 16)]
  }

  lemma {:induction false} ValueOfPrintHex(n: nat)
    ensures HexValue(PrintHex(n)) == n
  {
    if n < 16 {
      assert PrintHex(n)[..0] == "";
    } else {
      ValueOfPrintHex(n / 16);
      assert PrintHex(n)[..|PrintHex(n)| - 1] == PrintHex(n / 16);
    }
  }

  lemma {:induction false} PrintHexLength(n: nat, k: nat)
    requires k >= 1
    ensures |PrintHex(n)| <= k <==> n < Pow16(k)
  {
    if k == 1 {
      assert Pow16(1) == 16;
    } else if n >= 16 {
      PrintHexLength(n / 16, k - 1);
    } else {
      Pow16Grows(k);
    }
  }

  lemma {:induction false} Pow16Grows(k: nat)
    requires k >= 1
    ensures Pow16(k) >= 16
  {
    if k > 1 { Pow16Grows(k - 1); }
  }

  /** Zeros in front, up to a width. */
  function Fill(s: string, width: nat): (r: string)
    ensures AllHex(s) ==> AllHex(r)
    ensures |r| == if |s| < width then width else |s|
  {
    if |s| >= width then s else "0" + Fill(s, width - 1)
  }

  lemma {:induction false} LeadingZero(s: string)
    requires AllHex(s)
    ensures HexValue("0" + s) == HexValue(s)
  {
    if s == "" {
      assert ("0" + s)[..0] == "";
    } else {
      LeadingZero(s[..|s| - 1]);
      assert ("0" + s)[..|s|] == "0" + s[..|s| - 1];
    }
  }

  lemma {:induction false} FillKeepsValue(s: string, width: nat)
    requires AllHex(s)
    ensures HexValue(Fill(s, width)) == HexValue(s)
  {
    if |s| < width {
      FillKeepsValue(s, width - 1);
      LeadingZero(Fill(s, width - 1));
    }
  }

  function Padded(n: nat, width: nat): (s: string)
    ensures AllHex(s)
  {
    Fill(PrintHex(n), width)
  }

  /** A number that fits has exactly the width, and reads back. */
  lemma PaddedReads(n: nat, width: nat)
    requires width >= 1
    ensures HexValue(Padded(n, width)) == n
    ensures |Padded(n, width)| == width <==> n < Pow16(width)
  {
    FillKeepsValue(PrintHex(n), width);
    ValueOfPrintHex(n);
    PrintHexLength(n, width);
  }

  // ---------- digit by digit ----------

  /** The digit of weight 16^k. */
  function Nibble(n: nat, k: nat): (d: nat)
    ensures d < 16
  {
    if k == 0 then n % 16 else Nibble(n / 16, k - 1)
  }

  lemma {:induction false} PrintHexDigits(n: nat, k: nat)
    ensures k < |PrintHex(n)| ==> PrintHex(n)[|PrintHex(n)| - 1 - k] == HexChar(Nibble(n, k))
    ensures k >= |PrintHex(n)| ==> Nibble(n, k) == 0
  {
    if k > 0 {
      if n >= 16 { PrintHexDigits(n / 16, k - 1); } else { NoNibble(k - 1); }
    }
  }

  lemma {:induction false} NoNibble(k: nat)
    ensures Nibble(0, k) == 0
  {
    if k > 0 { NoNibble(k - 1); }
  }

  lemma {:induction false} FillDigits(s: string, width: nat, k: nat)
    requires k < |Fill(s, width)|
    ensures Fill(s, width)[|Fill(s, width)| - 1 - k] == if k < |s| then s[|s| - 1 - k] else '0'
  {
    if |s| < width {
      var r := Fill(s, width - 1);
      if k < |r| { FillDigits(s, width - 1, k); }
      assert ("0" + r)[|r| - k] == if k < |r| then r[|r| - 1 - k] else '0';
    }
  }

  /** A padded numeral, digit by digit and in lower case, the most significant digit first. */
  lemma PaddedDigits(n: nat, width: nat, i: nat)
    requires width >= 1 && n < Pow16(width) && i < width
    ensures |Padded(n, width)| == width && Padded(n, width)[i] == HexChar(Nibble(n, width - 1 - i))
    ensures var c := Padded(n, width)[i]; '0' <= c <= '9' || 'a' <= c <= 'f'
  {
    PaddedReads(n, width);
    FillDigits(PrintHex(n), width, width - 1 - i);
    PrintHexDigits(n, width - 1 - i);
  }
}
