/** Numerals: what digit runs stand for and how numbers are printed. */
module Numerals {

  const WORD32: nat := 0x1_0000_0000

  // ----- numerals and what they mean ---------------------------------------------------

  predicate IsDigit(c: char) { '0' <= c <= '9' }

  function DigitValue(c: char): (d: nat)
    requires IsDigit(c)
    ensures d < 10
  {
    (c - '0') as nat
  }

  predicate IsHex(c: char) { IsDigit(c) || 'a' <= c <= 'f' || 'A' <= c <= 'F' }

  function HexValue(c: char): (d: nat)
    requires IsHex(c)
    ensures d < 16
  {
    if IsDigit(c) then DigitValue(c) else if 'a' <= c <= 'f' then (c - 'a') as nat + 10 else (c - 'A') as nat + 10
  }

  predicate AllDigits(s: string) { forall k | 0 <= k < |s| :: IsDigit(s[k]) }

  predicate AllHex(s: string) { forall k | 0 <= k < |s| :: IsHex(s[k]) }

  /** The number a run of decimal digits stands for, however long. */
  function Natural(s: string): nat
    requires AllDigits(s)
  {
    if s == [] then 0 else 10 * Natural(s[..|s| - 1]) + DigitValue(s[|s| - 1])
  }

  function HexNatural(s: string): nat
    requires AllHex(s)
  {
    if s == [] then 0 else 16 * HexNatural(s[..|s| - 1]) + HexValue(s[|s| - 1])
  }

  function DigitOf(d: nat): (c: char)
    requires d < 10
    ensures IsDigit(c) && DigitValue(c) == d
  {
    '0' + d as char
  }

  /** A number as std::to_string prints it. */
  function Decimal(n: nat): (s: string)
    ensures s != [] && AllDigits(s)
  {
    if n < 10 then [DigitOf(n)] else Decimal(n / 10) + [DigitOf(n % 10)]
  }

  /** A digit run without its leading zeros; a lone zero if there is nothing else. */
  function Stripped(s: string): string {
    if s == [] then "0" else if s[0] == '0' then Stripped(s[1..]) else s
  }

  // ----- the canonical numeral ------------------------------------------------------------

  lemma {:induction false} ZeroHead(s: string)
    requires AllDigits(s) && s != [] && s[0] == '0'
    ensures Natural(s) == Natural(s[1..])
  {
    if |s| > 1 {
      ZeroHead(s[..|s| - 1]);
      assert s[1..][..|s[1..]| - 1] == s[..|s| - 1][1..];
    }
  }

  lemma {:induction false} NonzeroHead(s: string)
    requires AllDigits(s) && s != [] && s[0] != '0'
    ensures Natural(s) > 0 && Decimal(Natural(s)) == s
  {
    var init, c := s[..|s| - 1], s[|s| - 1];
    assert s == init + [c];
    if init == [] {
      assert Natural(init) == 0;
      DigitPrints(c);
    } else {
      NonzeroHead(init);
      TenTimes(Natural(init), DigitValue(c));
      DigitPrints(c);
    }
  }

  lemma {:induction false} DigitPrints(c: char)
    requires IsDigit(c)
    ensures DigitOf(DigitValue(c)) == c
  {}

  lemma {:induction false} TenTimes(q: nat, d: nat)
    requires d < 10
    ensures (10 * q + d) / 10 == q && (10 * q + d) % 10 == d
  {}

  /** Printing a number's value gives back the digits it was written with, less leading zeros. */
  lemma {:induction false} PrintedIsStripped(s: string)
    requires AllDigits(s)
    ensures Stripped(s) == Decimal(Natural(s))
    decreases |s|
  {
    if s == [] {
    } else if s[0] == '0' {
      ZeroHead(s);
      PrintedIsStripped(s[1..]);
    } else {
      NonzeroHead(s);
    }
  }

  /** Reading a printed number gives it back. */
  lemma {:induction false} ReadsBack(n: nat)
    ensures Natural(Decimal(n)) == n
  {
    if n < 10 {
      assert Decimal(n)[..0] == [];
    } else {
      ReadsBack(n / 10);
      assert Decimal(n)[..|Decimal(n)| - 1] == Decimal(n / 10);
      assert n == 10 * (n / 10) + n % 10;
    }
  }

  /** A printed number has no leading zero. */
  lemma {:induction false} NoLeadingZero(n: nat)
    ensures |Decimal(n)| == 1 || Decimal(n)[0] != '0'
    ensures n > 0 ==> Decimal(n)[0] != '0'
  {
    if n >= 10 {
      NoLeadingZero(n / 10);
      assert Decimal(n)[0] == Decimal(n / 10)[0];
    }
  }

  // ----- hexadecimal ------------------------------------------------------------------------

  lemma {:induction false} HexFits(s: string)
    requires AllHex(s)
    ensures HexNatural(s) < Pow16(|s|)
  {
    if s != [] {
      HexFits(s[..|s| - 1]);
    }
  }

  function Pow16(n: nat): nat { if n == 0 then 1 else 16 * Pow16(n - 1) }

  lemma {:induction false} Pow16Monotone(m: nat, n: nat)
    requires m <= n
    ensures Pow16(m) <= Pow16(n)
  {
    if m < n {
      Pow16Monotone(m, n - 1);
    }
  }

  lemma {:induction false} EightHexDigits(s: string)
    requires AllHex(s) && |s| <= 8
    ensures HexNatural(s) < WORD32
  {
    HexFits(s);
    Pow16Monotone(|s|, 8);
    EightDigits();
  }

  lemma {:induction false} EightDigits()
    ensures Pow16(8) == WORD32
  {
    assert Pow16(2) == 256;
    assert Pow16(4) == 0x1_0000;
    assert Pow16(6) == 0x100_0000;
  }

  const LOWER := "0123456789abcdef"
  const UPPER := "0123456789ABCDEF"

  /** The value of a hexadecimal digit is its place among the sixteen, in either case. */
  lemma {:induction false} HexValueIsPlace(c: char)
    requires IsHex(c)
    ensures LOWER[HexValue(c)] == c || UPPER[HexValue(c)] == c
  {}

  /** A number's last n digits, written with the given sixteen. */
  function HexWith(digits: string, h: nat, n: nat): (s: string)
    requires |digits| == 16
    ensures |s| == n
  {
    if n == 0 then [] else HexWith(digits, h / 16, n - 1) + [digits[h % 16]]
  }

  /** Digits of either case read as the number they were written for. */
  lemma {:induction false} EitherCaseReads(digits: string, h: nat, n: nat)
    requires digits == LOWER || digits == UPPER
    requires h < Pow16(n)
    ensures AllHex(HexWith(digits, h, n)) && HexNatural(HexWith(digits, h, n)) == h
  {
    if n > 0 {
      EitherCaseReads(digits, h / 16, n - 1);
      DigitReads(digits, h % 16);
      assert HexWith(digits, h, n)[..n - 1] == HexWith(digits, h / 16, n - 1);
      assert h == 16 * (h / 16) + h % 16;
    }
  }

  lemma {:induction false} DigitReads(digits: string, d: nat)
    requires digits == LOWER || digits == UPPER
    requires d < 16
    ensures IsHex(digits[d]) && HexValue(digits[d]) == d
  {}

  function HexDigitOf(d: nat): (c: char)
    requires d < 16
    ensures IsHex(c) && HexValue(c) == d
  {
    if d < 10 then DigitOf(d) else 'a' + (d - 10) as char
  }

  /** A number's last n hexadecimal digits. */
  function HexText(h: nat, n: nat): (s: string)
    ensures |s| == n && AllHex(s)
  {
    if n == 0 then [] else HexText(h / 16, n - 1) + [HexDigitOf(h % 16)]
  }

  /** Reading fixed-width hexadecimal text gives the number back. */
  lemma {:induction false} HexReadsBack(h: nat, n: nat)
    requires h < Pow16(n)
    ensures HexNatural(HexText(h, n)) == h
  {
    if n > 0 {
      HexReadsBack(h / 16, n - 1);
      assert HexText(h, n)[..n - 1] == HexText(h / 16, n - 1);
      assert h == 16 * (h / 16) + h % 16;
    }
  }
}
