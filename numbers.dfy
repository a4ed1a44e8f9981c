/** The integers of the lip REPL: the C `long` it stores (64-bit two's complement),
    the text `printf("%li")` produces for one, and the value `strtol(s, NULL, 10)`
    reads back from the text the grammar's `number` rule accepts. */
module Numbers {

  const LONG_MIN: int := -0x8000_0000_0000_0000
  const LONG_MAX: int := 0x7FFF_FFFF_FFFF_FFFF

  /** A C `long` on an LP64 platform. */
  newtype Long = x: int | -0x8000_0000_0000_0000 <= x <= 0x7FFF_FFFF_FFFF_FFFF

  predicate InLongRange(x: int) {
    LONG_MIN <= x <= LONG_MAX
  }

  predicate IsDigit(c: char) {
    '0' <= c <= '9'
  }

  /** Zero or more decimal digits. */
  predicate AllDigits(s: string) {
    forall i :: 0 <= i < |s| ==> IsDigit(s[i])
  }

  /** The text matched by the grammar rule `number : /-?[0-9]+/`. */
  predicate IsNumberText(s: string) {
    (|s| > 0 && AllDigits(s)) || (|s| > 1 && s[0] == '-' && AllDigits(s[1..]))
  }

  /** Number text without superfluous leading zeros and without "-0":
      exactly the texts `%li` produces. */
  predicate IsCanonical(s: string) {
    IsNumberText(s) &&
    if s[0] == '-' then s[1] != '0' else (|s| == 1 || s[0] != '0')
  }

  function DigitValue(c: char): (d: nat)
    requires IsDigit(c)
    ensures d < 10
  {
    c as int - '0' as int
  }

  function DigitChar(d: nat): (c: char)
    requires d < 10
    ensures IsDigit(c) && DigitValue(c) == d
    ensures c == '0' <==> d == 0
  {
    ('0' as int + d) as char
  }

  /** The value of a run of decimal digits, most significant digit first. */
  function DigitsValue(s: string): nat
    requires AllDigits(s)
  {
    if |s| == 0 then 0 else DigitsValue(s[..|s| - 1]) * 10 + DigitValue(s[|s| - 1])
  }

  /** The mathematical value of number text, before `strtol`'s range check. */
  function TextValue(s: string): int
    requires IsNumberText(s)
  {
    if s[0] == '-' then -(DigitsValue(s[1..]) as int) else DigitsValue(s)
  }

  /** What `strtol(s, NULL, 10)` returns for number text, paired with whether it sets
      `errno` to `ERANGE`: an out-of-range value is clamped to LONG_MIN or LONG_MAX. */
  function Strtol(s: string): (r: (Long, bool))
    requires IsNumberText(s)
    ensures r.1 <==> !InLongRange(TextValue(s))
    ensures !r.1 ==> r.0 as int == TextValue(s)
    ensures r.1 ==> r.0 as int == if TextValue(s) < 0 then LONG_MIN else LONG_MAX
  {
    var x := TextValue(s);
    if x < LONG_MIN then (LONG_MIN as Long, true)
    else if x > LONG_MAX then (LONG_MAX as Long, true)
    else (x as Long, false)
  }

  /** The digits `%li` prints for a non-negative value. */
  function Digits(n: nat): (s: string)
    ensures |s| > 0 && AllDigits(s)
    decreases n
  {
    if n < 10 then [DigitChar(n)] else Digits(n / 10) + [DigitChar(n % 10)]
  }

  /** The text `printf("%li", n)` prints. */
  function DecimalLiteral(n: int): (s: string)
    ensures IsNumberText(s)
  {
    if n < 0 then "-" + Digits(-n) else Digits(n)
  }

  lemma {:induction false} DigitsRoundTrip(n: nat)
    ensures DigitsValue(Digits(n)) == n
    ensures (Digits(n)[0] == '0') <==> n == 0
    decreases n
  {
    var s := Digits(n);
    if n >= 10 {
      DigitsRoundTrip(n / 10);
      assert s[..|s| - 1] == Digits(n / 10);
    }
  }

  /** Reading back what `%li` printed gives the same number, and the text is canonical. */
  lemma LiteralRoundTrip(n: int)
    ensures IsCanonical(DecimalLiteral(n))
    ensures TextValue(DecimalLiteral(n)) == n
  {
    var s := DecimalLiteral(n);
    if n < 0 {
      DigitsRoundTrip(-n);
      assert s[1..] == Digits(-n);
    } else {
      DigitsRoundTrip(n);
    }
  }

  lemma {:induction false} LeadingDigitPositive(s: string)
    requires |s| > 0 && AllDigits(s) && s[0] != '0'
    ensures DigitsValue(s) >= 1
    decreases |s|
  {
    if |s| > 1 {
      LeadingDigitPositive(s[..|s| - 1]);
    }
  }

  lemma {:induction false} CanonicalDigitsRoundTrip(s: string)
    requires |s| > 0 && AllDigits(s) && (|s| == 1 || s[0] != '0')
    ensures Digits(DigitsValue(s)) == s
    decreases |s|
  {
    if |s| > 1 {
      var init := s[..|s| - 1];
      LeadingDigitPositive(init);
      CanonicalDigitsRoundTrip(init);
      var v := DigitsValue(s);
      assert v / 10 == DigitsValue(init) && v % 10 == DigitValue(s[|s| - 1]);
      assert s == init + [s[|s| - 1]];
    }
  }

  /** Printing the value of canonical number text gives back that text. */
  lemma TextRoundTrip(s: string)
    requires IsCanonical(s)
    ensures DecimalLiteral(TextValue(s)) == s
  {
    if s[0] == '-' {
      var ds := s[1..];
      assert ds[0] == s[1];
      CanonicalDigitsRoundTrip(ds);
      LeadingDigitPositive(ds);
      assert s == "-" + ds;
    } else {
      CanonicalDigitsRoundTrip(s);
    }
  }
}
