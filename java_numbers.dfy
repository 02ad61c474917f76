/**
 * Java's decimal conversions between integers and strings, as the overlay
 * layer uses them: `toString()` of a boxed integer when an overlay is stored,
 * and `Integer.valueOf`, `Short.valueOf` and `Long.valueOf` when it is read back.
 *
 * Parsing follows `Integer.parseInt(s, 10)` of Java SE 7 and later: an optional
 * ASCII `-` or `+`, then at least one decimal digit, then a range check on the
 * value. Anything else is a NumberFormatException, modelled here as `None`.
 */
module JavaNumbers {

  datatype Option<T> = None | Some(value: T)

  const SHORT_MIN: int := -0x8000
  const SHORT_MAX: int := 0x7fff
  const INT_MIN: int := -0x8000_0000
  const INT_MAX: int := 0x7fff_ffff
  const LONG_MIN: int := -0x8000_0000_0000_0000
  const LONG_MAX: int := 0x7fff_ffff_ffff_ffff

  /** Java `short`, `int` and `long` values. */
  type Int16 = x: int | -0x8000 <= x <= 0x7fff
  type Int32 = x: int | -0x8000_0000 <= x <= 0x7fff_ffff
  type Int64 = x: int | -0x8000_0000_0000_0000 <= x <= 0x7fff_ffff_ffff_ffff

  predicate IsDigit(c: char) {
    '0' <= c <= '9'
  }

  predicate AllDigits(s: string) {
    forall i :: 0 <= i < |s| ==> IsDigit(s[i])
  }

  /** The value of a run of decimal digits, most significant first. */
  function DigitsValue(s: string): nat
    requires AllDigits(s)
  {
    if s == [] then 0 else DigitsValue(s[..|s| - 1]) * 10 + (s[|s| - 1] as int - '0' as int)
  }

  function DigitChar(d: nat): (c: char)
    requires d < 10
    ensures IsDigit(c) && c as int - '0' as int == d
  {
    ('0' as int + d) as char
  }

  /** The shortest decimal digits of `n`, as `Integer.toString` writes them. */
  function NatDigits(n: nat): (s: string)
    ensures |s| > 0 && AllDigits(s)
    ensures |s| > 1 ==> s[0] != '0'
    decreases n
  {
    if n < 10 then [DigitChar(n)] else NatDigits(n / 10) + [DigitChar(n % 10)]
  }

  /** `toString()` of a boxed Short, Integer or Long: a minus sign for negatives, then digits. */
  function ToDecimal(n: int): (s: string)
    ensures |s| > 0 && (s[0] == '-' <==> n < 0)
    ensures n < 0 ==> |s| > 1 && AllDigits(s[1..])
    ensures n >= 0 ==> AllDigits(s)
  {
    if n < 0 then "-" + NatDigits(-n) else NatDigits(n)
  }

  /**
   * `Integer.parseInt(s, 10)` without its range check: the mathematical value
   * of an optionally signed run of at least one digit, or `None`.
   */
  function ParseDecimal(s: string): (r: Option<int>)
    ensures r.Some? ==> |s| > 0 && (IsDigit(s[0]) || (|s| > 1 && (s[0] == '-' || s[0] == '+')))
    ensures r.Some? && r.value < 0 ==> s[0] == '-'
    ensures r.Some? && s[0] != '-' ==> r.value >= 0
    ensures r.Some? ==> AllDigits(if s[0] == '-' || s[0] == '+' then s[1..] else s)
    ensures |s| > 0 && AllDigits(s) ==> r == Some(DigitsValue(s) as int)
    ensures |s| > 1 && (s[0] == '-' || s[0] == '+') && AllDigits(s[1..]) ==>
              r == Some(if s[0] == '-' then -(DigitsValue(s[1..]) as int) else DigitsValue(s[1..]) as int)
  {
    if |s| == 0 then None
    else if s[0] == '-' || s[0] == '+' then
      if |s| == 1 || !AllDigits(s[1..]) then None
      else if s[0] == '-' then Some(-(DigitsValue(s[1..]) as int))
      else Some(DigitsValue(s[1..]))
    else if AllDigits(s) then Some(DigitsValue(s))
    else None
  }

  /** `Integer.valueOf(s)`: a 32-bit parse; a value outside `int` fails. */
  function IntegerValueOf(s: string): (r: Option<Int32>)
    ensures r.Some? ==> ParseDecimal(s) == Some(r.value as int)
    ensures r.None? ==> ParseDecimal(s).None? || !(INT_MIN <= ParseDecimal(s).value <= INT_MAX)
  {
    match ParseDecimal(s)
    case Some(n) => if INT_MIN <= n <= INT_MAX then Some(n as Int32) else None
    case None => None
  }

  /** `Short.valueOf(s)`: `Integer.parseInt` first, then the 16-bit range check. */
  function ShortValueOf(s: string): (r: Option<Int16>)
    ensures r.Some? ==> IntegerValueOf(s) == Some(r.value as Int32)
    ensures r.None? ==> IntegerValueOf(s).None? || !(SHORT_MIN <= IntegerValueOf(s).value <= SHORT_MAX)
  {
    match IntegerValueOf(s)
    case Some(n) => if SHORT_MIN <= n <= SHORT_MAX then Some(n as Int16) else None
    case None => None
  }

  /** `Long.valueOf(s)`: the same grammar with the 64-bit range check. */
  function LongValueOf(s: string): (r: Option<Int64>)
    ensures r.Some? ==> ParseDecimal(s) == Some(r.value as int)
    ensures r.None? ==> ParseDecimal(s).None? || !(LONG_MIN <= ParseDecimal(s).value <= LONG_MAX)
  {
    match ParseDecimal(s)
    case Some(n) => if LONG_MIN <= n <= LONG_MAX then Some(n as Int64) else None
    case None => None
  }

  /** The digit run of `n` reads back as `n`. */
  lemma {:induction false} NatDigitsValue(n: nat)
    ensures DigitsValue(NatDigits(n)) == n
    decreases n
  {
    var s := NatDigits(n);
    if n >= 10 {
      var prefix := NatDigits(n / 10);
      assert s[..|s| - 1] == prefix;
      NatDigitsValue(n / 10);
    }
  }

  /** Parsing undoes `toString()` for every integer, before any range check. */
  lemma DecimalRoundTrip(n: int)
    ensures ParseDecimal(ToDecimal(n)) == Some(n)
  {
    var digits := NatDigits(if n < 0 then -n else n);
    NatDigitsValue(if n < 0 then -n else n);
    if n < 0 {
      assert ToDecimal(n)[1..] == digits;
    } else {
      assert IsDigit(digits[0]);
    }
  }

  /** `Integer.valueOf(Integer.toString(n)) == n` for every `int`. */
  lemma IntegerValueOfRoundTrip(n: Int32)
    ensures IntegerValueOf(ToDecimal(n)) == Some(n)
  {
    DecimalRoundTrip(n);
  }

  /** `Short.valueOf(Short.toString(n)) == n` for every `short`. */
  lemma ShortValueOfRoundTrip(n: Int16)
    ensures ShortValueOf(ToDecimal(n)) == Some(n)
  {
    DecimalRoundTrip(n);
  }

  /** `Long.valueOf(Long.toString(n)) == n` for every `long`. */
  lemma LongValueOfRoundTrip(n: Int64)
    ensures LongValueOf(ToDecimal(n)) == Some(n)
  {
    DecimalRoundTrip(n);
  }

  /** The decimal form of a number outside `int` is refused by `Integer.valueOf`. */
  lemma IntegerValueOfRejectsWide(n: int)
    requires n < INT_MIN || INT_MAX < n
    ensures IntegerValueOf(ToDecimal(n)) == None
  {
    DecimalRoundTrip(n);
  }

  /** The decimal form of a number outside `short` is refused by `Short.valueOf`. */
  lemma ShortValueOfRejectsWide(n: int)
    requires n < SHORT_MIN || SHORT_MAX < n
    ensures ShortValueOf(ToDecimal(n)) == None
  {
    DecimalRoundTrip(n);
  }

  /** Every string that starts with a character other than a sign or a digit is malformed. */
  lemma MalformedLead(s: string)
    requires |s| > 0 && s[0] != '-' && s[0] != '+' && !IsDigit(s[0])
    ensures ParseDecimal(s) == None && IntegerValueOf(s) == None && ShortValueOf(s) == None
  {
    assert !AllDigits(s) by { assert !IsDigit(s[0]); }
  }

  /**
   * A non-digit anywhere after the optional leading sign is malformed, as
   * `"1a"`, `"-1x"` and `"12 "` are for `Integer.parseInt`.
   */
  lemma MalformedAt(s: string, i: int)
    requires 0 <= i < |s| && !IsDigit(s[i])
    requires i > 0 || (s[0] != '-' && s[0] != '+')
    ensures ParseDecimal(s) == None && IntegerValueOf(s) == None
    ensures ShortValueOf(s) == None && LongValueOf(s) == None
  {
    if i > 0 && (s[0] == '-' || s[0] == '+') {
      assert s[1..][i - 1] == s[i];
    }
  }
}
