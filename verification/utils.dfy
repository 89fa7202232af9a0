/**
 * Validation and formatting applied to an expense before it is stored:
 * rounding an amount to cents, checking a date against the admissible
 * window, and rendering a date as MM/DD/YYYY.
 */
module Utils {
  import opened Calendar
  import opened Wrappers
  import Config

  type Positive = n: int | n > 0 witness 1

  /**
   * An exact rational quantity `num / den`. Every finite binary
   * floating-point value is one (with `den` a power of two), so a finite
   * amount as Python holds it is one of these.
   */
  datatype Quantity = Quantity(num: int, den: Positive)

  function Abs(x: int): nat {
    if x < 0 then -x else x
  }

  /**
   * `cents` is `q` rounded to two fractional digits, half to even: no
   * multiple of 1/100 lies closer to `q`, and on an exact tie the even
   * number of cents wins.
   */
  ghost predicate IsRoundedCents(q: Quantity, cents: int) {
    var miss := Abs(q.num * 100 - cents * q.den);
    2 * miss < q.den || (2 * miss == q.den && cents % 2 == 0)
  }

  /** The amount `cents / 100` as a quantity. */
  function CentsQuantity(cents: int): Quantity {
    Quantity(cents, 100)
  }

  /**
   * `round(float(amount), 2)`, with the result counted in whole cents, so
   * it has at most two fractional digits by construction.
   */
  function FormatAmount(q: Quantity): (cents: int)
    ensures IsRoundedCents(q, cents)
  {
    var scaled := q.num * 100;
    var whole := scaled / q.den;
    var rest := scaled % q.den;
    assert scaled == whole * q.den + rest;
    assert scaled - (whole + 1) * q.den == rest - q.den;
    if 2 * rest < q.den then whole
    else if 2 * rest > q.den then whole + 1
    else if whole % 2 == 0 then whole
    else whole + 1
  }

  /** There is only one correctly rounded number of cents. */
  lemma RoundedCentsUnique(q: Quantity, a: int, b: int)
    requires IsRoundedCents(q, a) && IsRoundedCents(q, b)
    ensures a == b
  {
    var n, d := q.num * 100, q.den;
    // The two misses differ by a whole number of cents; both are at most half
    // a cent, so the gap is zero or one cent, and a gap of one cent would be
    // a tie won by both an odd and an even number.
    assert (n - a * d) - (n - b * d) == (b - a) * d by {
      assert b * d - a * d == (b - a) * d;
    }
    MultipleBounds(b - a, d);
  }

  lemma MultipleBounds(k: int, d: int)
    requires d > 0
    ensures k == 1 ==> k * d == d
    ensures k == -1 ==> k * d == -d
    ensures k >= 2 ==> k * d >= 2 * d
    ensures k <= -2 ==> k * d <= -2 * d
  {
    if k >= 2 {
      assert k * d == 2 * d + (k - 2) * d;
    } else if k <= -2 {
      assert k * d == -2 * d + (k + 2) * d;
    }
  }

  /** An amount already in whole cents is left as it is. */
  lemma FormatAmountExact(cents: int)
    ensures FormatAmount(CentsQuantity(cents)) == cents
  {
    var q := CentsQuantity(cents);
    assert Abs(q.num * 100 - cents * q.den) == 0;
    RoundedCentsUnique(q, FormatAmount(q), cents);
  }

  /** Formatting an amount twice gives the same amount as formatting it once. */
  lemma FormatAmountIdempotent(q: Quantity)
    ensures FormatAmount(CentsQuantity(FormatAmount(q))) == FormatAmount(q)
  {
    FormatAmountExact(FormatAmount(q));
  }

  // ---- Dates ----------------------------------------------------------------

  /**
   * `validate_date`: a date before the earliest admissible date is refused
   * first; otherwise a date after `maxDate` ("today") is refused; otherwise
   * the date is accepted with an empty message.
   */
  function ValidateDate(d: Date, maxDate: Date): (r: (bool, string))
    ensures r.0 <==> OnOrBefore(Config.MinDate, d) && OnOrBefore(d, maxDate)
    ensures r.0 <==> r.1 == ""
    ensures Before(d, Config.MinDate) ==>
              r == (false, "Date cannot be before " + FormatDateDisplay(Config.MinDate))
    ensures !Before(d, Config.MinDate) && Before(maxDate, d) ==>
              r == (false, "Date cannot be in the future")
  {
    Trichotomy(d, Config.MinDate);
    Trichotomy(d, maxDate);
    if Before(d, Config.MinDate) then
      (false, "Date cannot be before " + FormatDateDisplay(Config.MinDate))
    else if Before(maxDate, d) then
      (false, "Date cannot be in the future")
    else
      (true, "")
  }

  /** The refusal message for early dates names January 1st, 2023. */
  lemma EarliestDateMessage()
    ensures FormatDateDisplay(Config.MinDate) == "01/01/2023"
  {
  }

  predicate IsDigit(c: char) {
    '0' <= c <= '9'
  }

  predicate AllDigits(s: string) {
    forall i :: 0 <= i < |s| ==> IsDigit(s[i])
  }

  function DigitChar(n: int): (c: char)
    requires 0 <= n <= 9
    ensures IsDigit(c)
  {
    (48 + n) as char
  }

  function DigitValue(c: char): (n: int)
    requires IsDigit(c)
    ensures 0 <= n <= 9 && DigitChar(n) == c
  {
    c as int - 48
  }

  /** The number a string of decimal digits denotes. */
  function DecimalValue(s: string): (n: nat)
    requires AllDigits(s)
  {
    if s == [] then 0
    else DecimalValue(s[..|s| - 1]) * 10 + DigitValue(s[|s| - 1])
  }

  /** `n` written with exactly `width` decimal digits, zero-padded on the left. */
  function ZeroPadded(n: nat, width: nat): (s: string)
    ensures |s| == width
    ensures AllDigits(s)
  {
    if width == 0 then []
    else ZeroPadded(n / 10, width - 1) + [DigitChar(n % 10)]
  }

  function Power10(k: nat): (p: nat)
    ensures p >= 1
  {
    if k == 0 then 1 else 10 * Power10(k - 1)
  }

  /** A zero-padded numeral reads back as the number, when the number fits. */
  lemma {:induction false} ZeroPaddedValue(n: nat, width: nat)
    requires n < Power10(width)
    ensures DecimalValue(ZeroPadded(n, width)) == n
  {
    if width > 0 {
      var init := ZeroPadded(n / 10, width - 1);
      var s := init + [DigitChar(n % 10)];
      assert s[..|s| - 1] == init;
      assert n / 10 < Power10(width - 1) by {
        DropLastDigit(n, Power10(width - 1));
      }
      ZeroPaddedValue(n / 10, width - 1);
      assert DecimalValue(s) == DecimalValue(init) * 10 + n % 10;
    }
  }

  lemma DropLastDigit(n: nat, p: nat)
    requires n < 10 * p
    ensures n / 10 < p
  {
  }

  /** Every digit string is the zero-padded numeral of its own value. */
  lemma {:induction false} DecimalValuePadded(s: string)
    requires AllDigits(s)
    ensures ZeroPadded(DecimalValue(s), |s|) == s
  {
    if s != [] {
      var init := s[..|s| - 1];
      var n := DecimalValue(s);
      assert n / 10 == DecimalValue(init);
      assert n % 10 == DigitValue(s[|s| - 1]);
      DecimalValuePadded(init);
      assert s == init + [s[|s| - 1]];
    }
  }

  /**
   * `format_date_display`: `strftime("%m/%d/%Y")`, two-digit month and day
   * and four-digit year.
   */
  function FormatDateDisplay(d: Date): (s: string)
    ensures |s| == 10 && s[2] == '/' && s[5] == '/'
    ensures AllDigits(s[0..2]) && AllDigits(s[3..5]) && AllDigits(s[6..10])
    ensures ParseDisplay(s) == Some(d)
  {
    var s := ZeroPadded(d.month, 2) + "/" + ZeroPadded(d.day, 2) + "/" + ZeroPadded(d.year, 4);
    assert s[0..2] == ZeroPadded(d.month, 2);
    assert s[3..5] == ZeroPadded(d.day, 2);
    assert s[6..10] == ZeroPadded(d.year, 4);
    ZeroPaddedValue(d.month, 2);
    ZeroPaddedValue(d.day, 2);
    ZeroPaddedValue(d.year, 4);
    s
  }

  /**
   * Reads a date written as MM/DD/YYYY back; `None` unless the text has that
   * shape and names a real calendar date.
   */
  function ParseDisplay(s: string): Option<Date> {
    if |s| == 10 && s[2] == '/' && s[5] == '/'
       && AllDigits(s[0..2]) && AllDigits(s[3..5]) && AllDigits(s[6..10])
    then
      var d := CalendarDate(DecimalValue(s[6..10]), DecimalValue(s[0..2]), DecimalValue(s[3..5]));
      if WellFormed(d) then Some(d) else None
    else None
  }

  /** The display text is the only text that reads back as its date. */
  lemma ParseDisplayInverse(s: string, d: Date)
    requires ParseDisplay(s) == Some(d)
    ensures FormatDateDisplay(d) == s
  {
    DecimalValuePadded(s[0..2]);
    DecimalValuePadded(s[3..5]);
    DecimalValuePadded(s[6..10]);
    assert s == s[0..2] + "/" + s[3..5] + "/" + s[6..10];
  }
}
