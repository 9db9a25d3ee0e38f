/** The two string operations the rules rely on: Python's substring test
    (`needle in hay`) and Python's decimal rendering of an integer
    (`str(n)`, which is what an f-string does with an `int`). */
module Text {
  import opened Optional

  // ---------------------------------------------------------------- substring

  /** `needle` sits in `hay` starting at position `i`. */
  predicate OccursAt(hay: string, needle: string, i: int)
  {
    0 <= i && i + |needle| <= |hay| && hay[i..i + |needle|] == needle
  }

  /** The meaning of Python's `needle in hay`: some position of `hay` holds `needle`. */
  ghost predicate IsSubstring(needle: string, hay: string)
  {
    exists i :: OccursAt(hay, needle, i)
  }

  /** Left-to-right scan for `needle` in `hay`, starting at position `from`. */
  function ContainsFrom(needle: string, hay: string, from: nat): (found: bool)
    requires from <= |hay|
    ensures found <==> exists i :: from <= i && OccursAt(hay, needle, i)
    decreases |hay| - from
  {
    if OccursAt(hay, needle, from) then true
    else if from == |hay| then false
    else ContainsFrom(needle, hay, from + 1)
  }

  /** Python's `needle in hay` for strings. */
  function Contains(needle: string, hay: string): (found: bool)
    ensures found <==> IsSubstring(needle, hay)
  {
    ContainsFrom(needle, hay, 0)
  }

  // ---------------------------------------------------------------- decimals

  predicate IsDigit(c: char)
  {
    '0' <= c <= '9'
  }

  predicate AllDigits(s: string)
  {
    forall i :: 0 <= i < |s| ==> IsDigit(s[i])
  }

  function DigitChar(d: nat): (c: char)
    requires d < 10
  {
    ('0' as int + d) as char
  }

  function DigitValue(c: char): (d: nat)
    requires IsDigit(c)
  {
    c as int - '0' as int
  }

  /** Python's `str(n)` for a non-negative `n`: decimal digits, no leading zero. */
  function NatToDecimal(n: nat): (s: string)
    ensures |s| > 0 && AllDigits(s)
    ensures s[0] == '0' <==> n == 0
    ensures n == 0 ==> s == "0"
    decreases n
  {
    if n < 10 then [DigitChar(n)]
    else NatToDecimal(n / 10) + [DigitChar(n % 10)]
  }

  /** Python's `str(n)` for any `int`: a minus sign in front of negative numbers. */
  function IntToDecimal(n: int): (s: string)
    ensures |s| > 0
    ensures s[0] == '-' <==> n < 0
    ensures n >= 0 ==> AllDigits(s) && (s[0] == '0' <==> n == 0)
    ensures n < 0 ==> |s| > 1 && AllDigits(s[1..]) && s[1] != '0'
    ensures n == 0 ==> s == "0"
  {
    if n < 0 then "-" + NatToDecimal(-n) else NatToDecimal(n)
  }

  /** The value of a string of decimal digits (the empty string reads as 0). */
  function ParseNat(s: string): nat
    requires AllDigits(s)
  {
    if |s| == 0 then 0 else ParseNat(s[..|s| - 1]) * 10 + DigitValue(s[|s| - 1])
  }

  /** Python's `int(s)` restricted to an optional minus sign followed by digits;
      `None` for anything else. */
  function ParseDecimal(s: string): Option<int>
  {
    if |s| > 1 && s[0] == '-' && AllDigits(s[1..]) then Some(0 - ParseNat(s[1..]) as int)
    else if |s| > 0 && AllDigits(s) then Some(ParseNat(s))
    else None
  }

  lemma {:induction false} ParseNatOfNatToDecimal(n: nat)
    ensures ParseNat(NatToDecimal(n)) == n
    decreases n
  {
    var s := NatToDecimal(n);
    if n < 10 {
      assert s[..0] == [];
    } else {
      var prefix := NatToDecimal(n / 10);
      assert s[..|s| - 1] == prefix;
      assert s[|s| - 1] == DigitChar(n % 10);
      ParseNatOfNatToDecimal(n / 10);
    }
  }

  /** Reading back the rendering of any integer gives that integer. */
  lemma DecimalRoundTrip(n: int)
    ensures ParseDecimal(IntToDecimal(n)) == Some(n)
  {
    var s := IntToDecimal(n);
    if n < 0 {
      assert s[1..] == NatToDecimal(-n);
      ParseNatOfNatToDecimal(-n);
    } else {
      ParseNatOfNatToDecimal(n);
    }
  }

  /** Distinct integers render as distinct strings. */
  lemma IntToDecimalInjective(m: int, n: int)
    ensures IntToDecimal(m) == IntToDecimal(n) ==> m == n
  {
    DecimalRoundTrip(m);
    DecimalRoundTrip(n);
  }
}
