/**
 * Calendar dates and the text form `YYYY-MM-DD` accepted by
 * `LocalDate.parse`, approximated by the `full-date` production of
 * section 5.6 of RFC 3339 (four-digit year, two-digit month and day) with
 * the month lengths and leap-year rule of section 5.7 of RFC 3339.
 */
module IsoDate {
  import opened Wrappers

  /** A proleptic Gregorian date, as `java.time.LocalDate` holds it. */
  datatype Date = Date(year: int, month: int, day: int)

  /** The Gregorian leap-year rule (section 5.7 of RFC 3339). */
  predicate IsLeapYear(year: int) {
    year % 4 == 0 && (year % 100 != 0 || year % 400 == 0)
  }

  function DaysInMonth(year: int, month: int): (n: int)
    requires 1 <= month <= 12
    ensures 28 <= n <= 31
    ensures month == 2 ==> (n == 29 <==> IsLeapYear(year))
  {
    if month == 2 then (if IsLeapYear(year) then 29 else 28)
    else if month == 4 || month == 6 || month == 9 || month == 11 then 30
    else 31
  }

  /** A real calendar date whose year fits in four digits. */
  predicate IsFullDate(d: Date) {
    0 <= d.year <= 9999 && 1 <= d.month <= 12 && 1 <= d.day <= DaysInMonth(d.year, d.month)
  }

  predicate IsDigit(c: char) {
    '0' <= c <= '9'
  }

  predicate AllDigits(s: string) {
    forall i :: 0 <= i < |s| ==> IsDigit(s[i])
  }

  function Pow10(n: nat): nat
  {
    if n == 0 then 1 else 10 * Pow10(n - 1)
  }

  /** The decimal value of a string of digits, most significant first. */
  function Number(ds: string): (n: nat)
    requires AllDigits(ds)
    ensures n < Pow10(|ds|)
  {
    if ds == [] then 0 else 10 * Number(ds[..|ds| - 1]) + (ds[|ds| - 1] as int - '0' as int)
  }

  /** `n` written in exactly `width` digits, padded with leading zeros. */
  function Digits(n: nat, width: nat): (ds: string)
    ensures |ds| == width && AllDigits(ds)
  {
    if width == 0 then [] else Digits(n / 10, width - 1) + [('0' as int + n % 10) as char]
  }

  lemma {:induction false} NumberOfDigits(n: nat, width: nat)
    requires n < Pow10(width)
    ensures Number(Digits(n, width)) == n
  {
    if width > 0 {
      var ds := Digits(n, width);
      var high := n / 10;
      assert high < Pow10(width - 1);
      assert ds[..width - 1] == Digits(high, width - 1);
      NumberOfDigits(high, width - 1);
      assert n == 10 * high + n % 10;
    }
  }

  lemma {:induction false} DigitsOfNumber(ds: string)
    requires AllDigits(ds)
    ensures Digits(Number(ds), |ds|) == ds
  {
    if ds != [] {
      var init := ds[..|ds| - 1];
      DigitsOfNumber(init);
      assert ds == init + [ds[|ds| - 1]];
    }
  }

  /** The shape `DDDD-DD-DD` of the `full-date` production, ignoring ranges. */
  predicate IsDateShape(s: string) {
    |s| == 10 && AllDigits(s[0..4]) && s[4] == '-' && AllDigits(s[5..7]) && s[7] == '-' && AllDigits(s[8..10])
  }

  /**
   * `LocalDate.parse(s)`: the date `s` spells, or `None` where the library
   * throws (wrong shape, month out of 1..12, day past the month's end).
   */
  function ParseDate(s: string): (r: Option<Date>)
    ensures r.Some? ==> IsFullDate(r.value)
  {
    if !IsDateShape(s) then None
    else
      var d := Date(Number(s[0..4]), Number(s[5..7]), Number(s[8..10]));
      if 1 <= d.month <= 12 && 1 <= d.day <= DaysInMonth(d.year, d.month) then Some(d) else None
  }

  /** The ISO text of a date, as `LocalDate.toString` writes a four-digit year. */
  function FormatDate(d: Date): (s: string)
    requires IsFullDate(d)
    ensures IsDateShape(s)
  {
    Digits(d.year, 4) + "-" + Digits(d.month, 2) + "-" + Digits(d.day, 2)
  }

  /** Whatever `ParseDate` accepts is the ISO text of the date it returns. */
  lemma ParseDateSound(s: string)
    requires ParseDate(s).Some?
    ensures FormatDate(ParseDate(s).value) == s
  {
    DigitsOfNumber(s[0..4]);
    DigitsOfNumber(s[5..7]);
    DigitsOfNumber(s[8..10]);
    assert s == s[0..4] + "-" + s[5..7] + "-" + s[8..10];
  }

  /** `ParseDate` reads back every date `FormatDate` writes. */
  lemma ParseFormatted(d: Date)
    requires IsFullDate(d)
    ensures ParseDate(FormatDate(d)) == Some(d)
  {
    var s := FormatDate(d);
    assert s[0..4] == Digits(d.year, 4) && s[5..7] == Digits(d.month, 2) && s[8..10] == Digits(d.day, 2);
    NumberOfDigits(d.year, 4);
    NumberOfDigits(d.month, 2);
    NumberOfDigits(d.day, 2);
  }

  /**
   * Parsing is the exact inverse of formatting: `ParseDate` accepts a text
   * precisely when it is the ISO form of a real date, and returns that date.
   */
  lemma ParseDateIff(s: string, d: Date)
    ensures ParseDate(s) == Some(d) <==> IsFullDate(d) && s == FormatDate(d)
  {
    if ParseDate(s) == Some(d) {
      ParseDateSound(s);
    }
    if IsFullDate(d) && s == FormatDate(d) {
      ParseFormatted(d);
    }
  }

  /** 29 February of a four-digit year parses exactly when that year is a leap year. */
  lemma LeapDayIff(year: nat)
    requires year <= 9999
    ensures ParseDate(Digits(year, 4) + "-02-29").Some? <==> IsLeapYear(year)
  {
    var s := Digits(year, 4) + "-02-29";
    assert s[0..4] == Digits(year, 4) && s[5..7] == "02" && s[8..10] == "29";
    NumberOfDigits(year, 4);
    assert Number("02") == 2 && Number("29") == 29 by {
      assert "02"[..1] == "0" && "29"[..1] == "2";
    }
  }
}
