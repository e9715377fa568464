/** A concrete text-to-number parser for plain decimal literals: an optional
    sign, digits, and at most one decimal point. It stands in for the
    library's numeric coercion wherever a concrete parser is wanted; the
    pipeline itself takes the parser as a parameter. */
module DecimalText {
  import opened Records

  predicate IsDigit(c: char) {
    '0' <= c <= '9'
  }

  /** The characters a decimal literal is made of. */
  predicate IsNumeralChar(c: char) {
    IsDigit(c) || c == '.' || c == '+' || c == '-'
  }

  predicate AllDigits(s: string) {
    forall i :: 0 <= i < |s| ==> IsDigit(s[i])
  }

  function DigitValue(c: char): (v: nat)
    requires IsDigit(c)
  {
    (c as int) - ('0' as int)
  }

  function DigitChar(d: nat): (c: char)
    requires d < 10
    ensures IsDigit(c) && DigitValue(c) == d
  {
    (('0' as int) + d) as char
  }

  /** The value of a string of decimal digits, read left to right. */
  function DigitsValue(s: string): (v: nat)
    requires AllDigits(s)
    decreases |s|
  {
    if s == [] then 0 else 10 * DigitsValue(s[..|s| - 1]) + DigitValue(s[|s| - 1])
  }

  function Pow10(n: nat): (p: nat)
    ensures p >= 1
  {
    if n == 0 then 1 else 10 * Pow10(n - 1)
  }

  /** The position of the first `c` in `s`, or `|s|` when there is none. */
  function IndexOf(s: string, c: char): (k: nat)
    ensures k <= |s|
    ensures k < |s| ==> s[k] == c
    ensures forall i :: 0 <= i < k ==> s[i] != c
  {
    if s == [] then 0 else if s[0] == c then 0 else 1 + IndexOf(s[1..], c)
  }

  /** Digits with at most one decimal point and at least one digit. */
  function UnsignedValue(s: string): (r: Option<real>)
    ensures r.Some? ==> |s| > 0 && forall i :: 0 <= i < |s| ==> IsNumeralChar(s[i])
  {
    var k := IndexOf(s, '.');
    var whole := s[..k];
    var frac := if k < |s| then s[k + 1..] else "";
    if AllDigits(whole) && AllDigits(frac) && |whole| + |frac| > 0 then
      Some(DigitsValue(whole) as real + DigitsValue(frac) as real / Pow10(|frac|) as real)
    else
      None
  }

  function Negate(v: Option<real>): (r: Option<real>)
    ensures r.Some? <==> v.Some?
  {
    match v
    case None => None
    case Some(x) => Some(-x)
  }

  /** The number a text denotes, or unknown when it is not a decimal literal:
      the empty text, and any text holding a character no decimal literal
      holds, are unknown, never a number (in particular never zero). */
  function ParseDecimal(s: string): (r: Option<real>)
    ensures r.Some? ==> |s| > 0
    ensures r.Some? ==> forall i :: 0 <= i < |s| ==> IsNumeralChar(s[i])
  {
    if |s| > 0 && s[0] == '-' then Negate(UnsignedValue(s[1..]))
    else if |s| > 0 && s[0] == '+' then UnsignedValue(s[1..])
    else UnsignedValue(s)
  }

  /** The decimal digits of a natural number, without leading zeros. */
  function NatText(n: nat): (t: string)
    decreases n
  {
    if n < 10 then [DigitChar(n)] else NatText(n / 10) + [DigitChar(n % 10)]
  }

  /** The usual text of an integer: a minus sign for negative values. */
  function IntText(n: int): (t: string) {
    if n < 0 then "-" + NatText(-n) else NatText(n)
  }

  lemma {:induction false} NatTextValue(n: nat)
    ensures |NatText(n)| > 0 && AllDigits(NatText(n)) && '.' !in NatText(n)
    ensures DigitsValue(NatText(n)) == n
    decreases n
  {
    if n >= 10 {
      NatTextValue(n / 10);
      var s := NatText(n);
      assert s[..|s| - 1] == NatText(n / 10);
    }
  }

  lemma UnsignedOfDigits(s: string)
    requires |s| > 0 && AllDigits(s)
    ensures UnsignedValue(s) == Some(DigitsValue(s) as real)
  {
    var k := IndexOf(s, '.');
    assert k == |s|;
    assert s[..k] == s;
    assert DigitsValue("") == 0 && Pow10(0) == 1;
    assert 0 as real / 1 as real == 0.0;
  }

  /** Every integer survives rendering and parsing, negative ones included. */
  lemma ParseIntText(n: int)
    ensures ParseDecimal(IntText(n)) == Some(n as real)
  {
    if n < 0 {
      NatTextValue(-n);
      var t := NatText(-n);
      assert IntText(n)[1..] == t;
      UnsignedOfDigits(t);
    } else {
      NatTextValue(n);
      UnsignedOfDigits(NatText(n));
    }
  }

  /** A leading minus negates the value of any unsigned text, so "-.5" is
      the negation of ".5". */
  lemma ParseNegative(t: string)
    requires |t| == 0 || (t[0] != '-' && t[0] != '+')
    ensures ParseDecimal("-" + t) == Negate(ParseDecimal(t))
  {
    assert ("-" + t)[1..] == t;
  }
}
