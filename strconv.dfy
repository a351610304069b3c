/**
 * The decimal conversions the key space relies on, as Go's strconv
 * package defines them for a 64-bit `int`: Atoi (an optional sign, then
 * decimal digits only) and Itoa.
 */
module StrConv {
  const MinInt := -0x8000_0000_0000_0000
  const MaxInt := 0x7fff_ffff_ffff_ffff

  /** Whether n fits Go's 64-bit `int`. */
  predicate IsInt(n: int)
  {
    MinInt <= n <= MaxInt
  }

  /**
   * Go's `n - 1` on a 64-bit `int`: the true difference reduced into the
   * range, so that MinInt - 1 wraps around to MaxInt.
   */
  function Decrement(n: int): (r: int)
    ensures IsInt(n) ==> IsInt(r) && (r - (n - 1)) % 0x1_0000_0000_0000_0000 == 0
    ensures n != MinInt ==> r == n - 1
  {
    if n == MinInt then MaxInt else n - 1
  }

  predicate IsDigit(c: char)
  {
    '0' <= c <= '9'
  }

  predicate AllDigits(s: string)
  {
    forall i :: 0 <= i < |s| ==> IsDigit(s[i])
  }

  /** The value of a string of decimal digits, most significant first. */
  function DigitsValue(s: string): (n: nat)
    requires AllDigits(s)
  {
    if s == [] then 0 else DigitsValue(s[..|s| - 1]) * 10 + (s[|s| - 1] as int - '0' as int)
  }

  /** The digits after an optional leading sign. */
  function Unsigned(s: string): string
  {
    if |s| > 0 && (s[0] == '+' || s[0] == '-') then s[1..] else s
  }

  /** Text Atoi accepts as a number: an optional sign and at least one digit. */
  predicate Numeral(s: string)
  {
    Unsigned(s) != [] && AllDigits(Unsigned(s))
  }

  /** The value a numeral spells, before any range check. */
  function NumeralValue(s: string): int
    requires Numeral(s)
  {
    var v: int := DigitsValue(Unsigned(s));
    if s[0] == '-' then -v else v
  }

  /** Atoi's result: the value and whether the error was nil. */
  datatype Parsed = Parsed(value: int, ok: bool)

  /**
   * strconv.Atoi: a numeral within the 64-bit range parses to its value; a
   * numeral out of range gives the nearest bound with a range error; any
   * other text gives 0 with a syntax error.
   */
  function Atoi(s: string): (r: Parsed)
    ensures r.ok <==> Numeral(s) && MinInt <= NumeralValue(s) <= MaxInt
    ensures r.ok ==> r.value == NumeralValue(s)
    ensures !Numeral(s) ==> r.value == 0
    ensures Numeral(s) && NumeralValue(s) > MaxInt ==> r.value == MaxInt
    ensures Numeral(s) && NumeralValue(s) < MinInt ==> r.value == MinInt
    ensures MinInt <= r.value <= MaxInt
  {
    if !Numeral(s) then Parsed(0, false)
    else
      var n := NumeralValue(s);
      if n < MinInt then Parsed(MinInt, false)
      else if n > MaxInt then Parsed(MaxInt, false)
      else Parsed(n, true)
  }

  function DigitChar(d: int): (c: char)
    requires 0 <= d < 10
    ensures IsDigit(c) && c as int - '0' as int == d
  {
    ('0' as int + d) as char
  }

  /** The shortest decimal digits of n. */
  function Digits(n: nat): (s: string)
    ensures s != [] && AllDigits(s) && DigitsValue(s) == n
    ensures s[0] == '0' ==> n == 0
  {
    if n < 10 then [DigitChar(n)]
    else
      var p := Digits(n / 10);
      var s := p + [DigitChar(n % 10)];
      assert s[..|s| - 1] == p;
      s
  }

  /** strconv.Itoa: the decimal text of n, with a minus sign when negative. */
  function Itoa(n: int): (s: string)
    ensures Numeral(s) && NumeralValue(s) == n
    ensures forall i :: 0 <= i < |s| ==> IsDigit(s[i]) || (i == 0 && s[i] == '-')
  {
    if n < 0 then "-" + Digits(-n) else Digits(n)
  }

  /** Atoi reads back what Itoa writes, for every 64-bit value. */
  lemma AtoiItoa(n: int)
    requires MinInt <= n <= MaxInt
    ensures Atoi(Itoa(n)) == Parsed(n, true)
  {
  }

  /** Different values have different texts. */
  lemma ItoaInjective(a: int, b: int)
    requires Itoa(a) == Itoa(b)
    ensures a == b
  {
  }
}
