/**
 * The text lib/hash.ts hashes: the decimal numeral of the user id and the
 * UTC calendar date in the form `Date.prototype.toISOString` writes it,
 * "YYYY-MM-DD" (ISO 8601:2004 section 4.1.2.2, calendar date, complete
 * representation, extended format).
 */
module IsoText {
  import opened JsStrings

  predicate IsDigit(u: CodeUnit)
  {
    DIGIT_ZERO <= u <= DIGIT_ZERO + 9
  }

  predicate AllDigits(s: JsString)
  {
    forall i :: 0 <= i < |s| ==> IsDigit(s[i])
  }

  /** The code unit of decimal digit `d`. */
  function Digit(d: nat): (u: CodeUnit)
    requires d < 10
    ensures IsDigit(u)
  {
    DIGIT_ZERO + d
  }

  /** The value of a decimal numeral, most significant digit first. */
  function DigitsValue(s: JsString): nat
    requires AllDigits(s)
    decreases |s|
  {
    if |s| == 0 then 0 else 10 * DigitsValue(s[..|s| - 1]) + (s[|s| - 1] - DIGIT_ZERO)
  }

  /** A numeral extended by one digit is worth ten times as much plus that digit. */
  lemma DigitsValueSnoc(s: JsString, d: nat)
    requires AllDigits(s) && d < 10
    ensures AllDigits(s + [Digit(d)])
    ensures DigitsValue(s + [Digit(d)]) == 10 * DigitsValue(s) + d
  {
    assert (s + [Digit(d)])[..|s|] == s;
  }

  /**
   * Number-to-String of a non-negative integer: the shortest decimal
   * numeral, without sign and without leading zeros.
   */
  function Decimal(n: nat): (r: JsString)
    ensures |r| >= 1 && AllDigits(r)
    ensures r[0] == DIGIT_ZERO <==> n == 0
    ensures r[0] == DIGIT_ZERO ==> |r| == 1
    decreases n
  {
    if n < 10 then [Digit(n)] else Decimal(n / 10) + [Digit(n % 10)]
  }

  /** Reading the numeral back gives the number. */
  lemma {:induction false} DecimalRoundTrip(n: nat)
    ensures DigitsValue(Decimal(n)) == n
    decreases n
  {
    if n < 10 {
      assert Decimal(n)[..0] == [];
    } else {
      DecimalRoundTrip(n / 10);
      DigitsValueSnoc(Decimal(n / 10), n % 10);
    }
  }

  /** Distinct numbers have distinct numerals. */
  lemma DecimalInjective(m: nat, n: nat)
    ensures Decimal(m) == Decimal(n) ==> m == n
  {
    DecimalRoundTrip(m);
    DecimalRoundTrip(n);
  }

  function Pow10(w: nat): (r: nat)
    ensures r >= 1
  {
    if w == 0 then 1 else 10 * Pow10(w - 1)
  }

  lemma Pow10Values()
    ensures Pow10(2) == 100 && Pow10(3) == 1000 && Pow10(4) == 10000
  {
    assert Pow10(1) == 10;
  }

  /** The numeral of `n` zero-padded to exactly `width` digits. */
  function Padded(n: nat, width: nat): (r: JsString)
    requires n < Pow10(width)
    ensures |r| == width && AllDigits(r)
    decreases width
  {
    if width == 0 then [] else Padded(n / 10, width - 1) + [Digit(n % 10)]
  }

  /** Reading a padded numeral back gives the number. */
  lemma {:induction false} PaddedRoundTrip(n: nat, width: nat)
    requires n < Pow10(width)
    ensures DigitsValue(Padded(n, width)) == n
    decreases width
  {
    if width > 0 {
      PaddedRoundTrip(n / 10, width - 1);
      DigitsValueSnoc(Padded(n / 10, width - 1), n % 10);
    }
  }

  /** A day of the proleptic Gregorian calendar, as the UTC fields of a Date. */
  datatype CalendarDate = CalendarDate(year: nat, month: nat, day: nat)

  predicate IsLeapYear(year: nat)
  {
    year % 4 == 0 && (year % 100 != 0 || year % 400 == 0)
  }

  function DaysInMonth(year: nat, month: nat): (n: nat)
    requires 1 <= month <= 12
    ensures 28 <= n <= 31
  {
    if month == 2 then (if IsLeapYear(year) then 29 else 28)
    else if month == 4 || month == 6 || month == 9 || month == 11 then 30
    else 31
  }

  /** A date toISOString writes with a four-digit year. */
  predicate ValidDate(d: CalendarDate)
  {
    d.year <= 9999 && 1 <= d.month <= 12 && 1 <= d.day <= DaysInMonth(d.year, d.month)
  }

  /** The UTC fields of a Date, down to the millisecond. */
  datatype UtcInstant = UtcInstant(date: CalendarDate, hour: nat, minute: nat, second: nat, millisecond: nat)

  predicate ValidInstant(t: UtcInstant)
  {
    ValidDate(t.date) && t.hour < 24 && t.minute < 60 && t.second < 60 && t.millisecond < 1000
  }

  /** "YYYY-MM-DD". */
  function DateText(d: CalendarDate): (r: JsString)
    requires ValidDate(d)
    ensures |r| == 10 && r[4] == HYPHEN && r[7] == HYPHEN
    ensures AllDigits(r[..4]) && AllDigits(r[5..7]) && AllDigits(r[8..])
  {
    Pow10Values();
    var yyyy, mm, dd := Padded(d.year, 4), Padded(d.month, 2), Padded(d.day, 2);
    var r := yyyy + [HYPHEN] + mm + [HYPHEN] + dd;
    assert r[..4] == yyyy && r[5..7] == mm && r[8..] == dd;
    r
  }

  /** The year, month and day read back from the date text. */
  lemma DateTextRoundTrip(d: CalendarDate)
    requires ValidDate(d)
    ensures DigitsValue(DateText(d)[..4]) == d.year
    ensures DigitsValue(DateText(d)[5..7]) == d.month
    ensures DigitsValue(DateText(d)[8..]) == d.day
  {
    Pow10Values();
    var r := DateText(d);
    assert r[..4] == Padded(d.year, 4) && r[5..7] == Padded(d.month, 2) && r[8..] == Padded(d.day, 2);
    PaddedRoundTrip(d.year, 4);
    PaddedRoundTrip(d.month, 2);
    PaddedRoundTrip(d.day, 2);
  }

  /** The date text ends with the units digit of the day. */
  lemma DateTextLastUnit(d: CalendarDate)
    requires ValidDate(d)
    ensures DateText(d) == DateText(d)[..9] + [Digit(d.day % 10)]
    ensures DateText(d)[..9] == Padded(d.year, 4) + [HYPHEN] + Padded(d.month, 2) + [HYPHEN] + Padded(d.day / 10, 1)
  {
    Pow10Values();
    var r := DateText(d);
    assert Padded(d.day, 2) == Padded(d.day / 10, 1) + [Digit(d.day % 10)];
    assert r == Padded(d.year, 4) + [HYPHEN] + Padded(d.month, 2) + [HYPHEN] + Padded(d.day / 10, 1) + [Digit(d.day % 10)];
  }

  /** Distinct dates have distinct texts. */
  lemma DateTextInjective(d1: CalendarDate, d2: CalendarDate)
    requires ValidDate(d1) && ValidDate(d2)
    ensures DateText(d1) == DateText(d2) ==> d1 == d2
  {
    DateTextRoundTrip(d1);
    DateTextRoundTrip(d2);
  }

  /** `toISOString()` for a year in 0 .. 9999: "YYYY-MM-DDTHH:mm:ss.sssZ". */
  function IsoString(t: UtcInstant): (r: JsString)
    requires ValidInstant(t)
    ensures |r| == 24 && r[10] == LATIN_T && r[23] == LATIN_Z
    ensures r[..10] == DateText(t.date)
  {
    Pow10Values();
    DateText(t.date) + [LATIN_T] + Padded(t.hour, 2) + [COLON] + Padded(t.minute, 2) + [COLON]
      + Padded(t.second, 2) + [FULL_STOP] + Padded(t.millisecond, 3) + [LATIN_Z]
  }

  /** `s.split(sep)[0]` for a one-unit separator: everything before the first `sep`. */
  function SplitFirst(s: JsString, sep: CodeUnit): (r: JsString)
    ensures |r| <= |s| && r == s[..|r|]
    ensures sep !in r
    ensures |r| < |s| ==> s[|r|] == sep
    decreases |s|
  {
    if |s| == 0 || s[0] == sep then [] else [s[0]] + SplitFirst(s[1..], sep)
  }

  /** The three properties of SplitFirst pin its result down. */
  lemma SplitFirstAt(s: JsString, sep: CodeUnit, k: nat)
    requires k <= |s| && sep !in s[..k]
    requires k < |s| ==> s[k] == sep
    ensures SplitFirst(s, sep) == s[..k]
  {
  }

  /** `toISOString().split('T')[0]` is the calendar date, whatever the time of day. */
  lemma IsoDatePart(t: UtcInstant)
    requires ValidInstant(t)
    ensures SplitFirst(IsoString(t), LATIN_T) == DateText(t.date)
  {
    var s, d := IsoString(t), DateText(t.date);
    forall i | 0 <= i < 10
      ensures d[i] != LATIN_T
    {
      if i != 4 && i != 7 {
        assert i < 4 ==> d[i] == d[..4][i];
        assert 5 <= i < 7 ==> d[i] == d[5..7][i - 5];
        assert 8 <= i ==> d[i] == d[8..][i - 8];
      }
    }
    SplitFirstAt(s, LATIN_T, 10);
  }
}
