/**
 * Text conventions of the server's file I/O and messages: the newline
 * translation that `Path.read_text` applies when it opens a file in text
 * mode, and the decimal rendering of an integer inside an f-string.
 */
module Text {

  /**
   * Universal-newline reading: "\r\n" and a lone "\r" both come back as
   * "\n"; every other character is kept.
   */
  function UniversalNewlines(s: string): (r: string)
    ensures '\r' !in r
    ensures |r| <= |s|
    decreases |s|
  {
    if s == [] then []
    else if s[0] == '\r' then
      "\n" + UniversalNewlines(if |s| > 1 && s[1] == '\n' then s[2..] else s[1..])
    else [s[0]] + UniversalNewlines(s[1..])
  }

  /** Reading changes the text exactly when it holds a carriage return. */
  lemma {:induction false} UniversalNewlinesIdentity(s: string)
    ensures UniversalNewlines(s) == s <==> '\r' !in s
    decreases |s|
  {
    if s != [] && s[0] != '\r' {
      UniversalNewlinesIdentity(s[1..]);
      assert s == [s[0]] + s[1..];
      assert '\r' !in s <==> '\r' !in s[1..];
    } else if s != [] {
      assert s[0] in s;
      assert '\r' !in UniversalNewlines(s);
    }
  }

  /** Writing back text already read and reading it again changes nothing. */
  lemma UniversalNewlinesIdempotent(s: string)
    ensures UniversalNewlines(UniversalNewlines(s)) == UniversalNewlines(s)
  {
    UniversalNewlinesIdentity(UniversalNewlines(s));
  }

  // ---------------------------------------------------------------------------
  // Decimal numerals
  // ---------------------------------------------------------------------------

  function DigitChar(d: nat): char
    requires d < 10
  {
    "0123456789"[d]
  }

  function DigitValue(c: char): nat {
    if '0' <= c <= '9' then (c as int) - ('0' as int) else 0
  }

  predicate IsDigit(c: char) {
    '0' <= c <= '9'
  }

  /** `str(n)` for a non-negative integer. */
  function Decimal(n: nat): (s: string)
    ensures |s| >= 1
    ensures forall i :: 0 <= i < |s| ==> IsDigit(s[i])
    ensures n > 0 ==> s[0] != '0'
    decreases n
  {
    if n < 10 then [DigitChar(n)] else Decimal(n / 10) + [DigitChar(n % 10)]
  }

  /** The value of a string of decimal digits. */
  function ParseDecimal(s: string): nat
    decreases |s|
  {
    if s == [] then 0 else ParseDecimal(s[..|s| - 1]) * 10 + DigitValue(s[|s| - 1])
  }

  /** Reading back the numeral gives the number. */
  lemma {:induction false} ParseDecimalInverse(n: nat)
    ensures ParseDecimal(Decimal(n)) == n
    decreases n
  {
    var s := Decimal(n);
    if n < 10 {
      assert s[..0] == [];
    } else {
      ParseDecimalInverse(n / 10);
      assert s[..|s| - 1] == Decimal(n / 10);
    }
  }

  /** Different numbers are written differently. */
  lemma DecimalInjective(m: nat, n: nat)
    requires Decimal(m) == Decimal(n)
    ensures m == n
  {
    ParseDecimalInverse(m);
    ParseDecimalInverse(n);
  }
}
