/** Python's "%x" rendering of an integer: lowercase hexadecimal digits
    without leading zeros, with a leading '-' for a negative value; and
    its parser, which undoes it. */
module HexFormat {

  predicate IsHexDigit(c: char) {
    ('0' <= c <= '9') || ('a' <= c <= 'f')
  }

  function HexDigit(d: nat): (c: char)
    requires d < 16
    ensures IsHexDigit(c)
  {
    if d < 10 then ('0' as int + d) as char else ('a' as int + d - 10) as char
  }

  function DigitValue(c: char): nat
    requires IsHexDigit(c)
  {
    if '0' <= c <= '9' then c as int - '0' as int else c as int - 'a' as int + 10
  }

  /** "%x" % n for n >= 0 */
  function HexNat(n: nat): (r: string)
    ensures |r| >= 1
    ensures forall i :: 0 <= i < |r| ==> IsHexDigit(r[i])
    ensures r[0] == '0' ==> n == 0 && |r| == 1
    decreases n
  {
    if n < 16 then [HexDigit(n)] else HexNat(n / 16) + [HexDigit(n % 16)]
  }

  /** digits without a leading zero, unless the number is zero itself */
  predicate CanonicalDigits(s: string) {
    && |s| > 0 && (forall i :: 0 <= i < |s| ==> IsHexDigit(s[i]))
    && (s[0] == '0' ==> |s| == 1)
  }

  /** the shape "%x" produces: canonical digits, or '-' and canonical
      digits of a non-zero number */
  predicate CanonicalHex(s: string) {
    if |s| > 0 && s[0] == '-' then CanonicalDigits(s[1..]) && s[1] != '0' else CanonicalDigits(s)
  }

  /** "%x" % v */
  function FormatHex(v: int): (r: string)
    ensures |r| >= 1
    ensures forall i :: 0 <= i < |r| ==> IsHexDigit(r[i]) || (i == 0 && r[i] == '-' && v < 0)
    ensures CanonicalHex(r)
  {
    if v < 0 then
      assert ("-" + HexNat(-v))[1..] == HexNat(-v);
      "-" + HexNat(-v)
    else HexNat(v)
  }

  /** the value of a string of hexadecimal digits */
  function ParseDigits(s: string): nat
    requires forall i :: 0 <= i < |s| ==> IsHexDigit(s[i])
  {
    if s == [] then 0 else ParseDigits(s[..|s| - 1]) * 16 + DigitValue(s[|s| - 1])
  }

  /** the value of an optionally negated string of hexadecimal digits */
  function ParseHex(s: string): int
    requires |s| > 0
    requires forall i :: 0 <= i < |s| ==> IsHexDigit(s[i]) || (i == 0 && s[i] == '-')
  {
    if s[0] == '-' then 0 - ParseDigits(s[1..]) as int else ParseDigits(s)
  }

  lemma {:induction false} ParseHexNat(n: nat)
    ensures ParseDigits(HexNat(n)) == n
    decreases n
  {
    var r := HexNat(n);
    if n >= 16 {
      ParseHexNat(n / 16);
      assert r[..|r| - 1] == HexNat(n / 16);
    }
  }

  /** Parsing undoes the rendering: the hexadecimal text of `v` denotes `v`. */
  lemma ParseFormat(v: int)
    ensures ParseHex(FormatHex(v)) == v
  {
    if v < 0 {
      ParseHexNat(-v);
      assert FormatHex(v)[1..] == HexNat(-v);
    } else {
      ParseHexNat(v);
    }
  }

  lemma {:induction false} ParseDigitsPositive(s: string)
    requires CanonicalDigits(s) && s[0] != '0'
    ensures ParseDigits(s) > 0
    decreases |s|
  {
    if |s| > 1 {
      ParseDigitsPositive(s[..|s| - 1]);
    }
  }

  /** Canonical digits are the rendering of their own value. */
  lemma {:induction false} HexNatParse(s: string)
    requires CanonicalDigits(s)
    ensures HexNat(ParseDigits(s)) == s
    decreases |s|
  {
    var init := s[..|s| - 1];
    var c := s[|s| - 1];
    if |s| == 1 {
      assert ParseDigits(s) == ParseDigits(init) * 16 + DigitValue(c);
      assert init == [];
    } else {
      HexNatParse(init);
      ParseDigitsPositive(init);
      var n := ParseDigits(s);
      assert n == ParseDigits(init) * 16 + DigitValue(c);
      assert n / 16 == ParseDigits(init) && n % 16 == DigitValue(c);
      assert s == init + [c];
    }
  }

  /** "%x" is the only canonical text that denotes `v`: a value renders
      one way. */
  lemma FormatUnique(s: string, v: int)
    requires CanonicalHex(s) && ParseHex(s) == v
    ensures s == FormatHex(v)
  {
    if s[0] == '-' {
      HexNatParse(s[1..]);
      ParseDigitsPositive(s[1..]);
      assert s == "-" + s[1..];
    } else {
      HexNatParse(s);
    }
  }
}
