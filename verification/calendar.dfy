/**
 * Date-only values and their text form. A date converted to text is written in the
 * sortable "YYYY-MM-DD" form when it has no time component, and that text converts
 * back to the same date.
 */
module Calendar {
  import opened Outcomes
  import opened Text

  datatype Day = Day(year: int, month: int, day: int)

  predicate IsLeapYear(y: int) {
    (y % 4 == 0 && y % 100 != 0) || y % 400 == 0
  }

  function DaysInMonth(y: int, m: int): int {
    if m == 2 then (if IsLeapYear(y) then 29 else 28)
    else if m == 4 || m == 6 || m == 9 || m == 11 then 30
    else 31
  }

  /** The calendar days a .NET DateTime can hold: years 1 to 9999. */
  predicate ValidDay(d: Day) {
    && 1 <= d.year <= 9999
    && 1 <= d.month <= 12
    && 1 <= d.day <= DaysInMonth(d.year, d.month)
  }

  type CalendarDate = d: Day | ValidDay(d) witness Day(1, 1, 1)

  /** The value of a default-constructed DateTime: 0001-01-01. */
  const MinDate: CalendarDate := Day(1, 1, 1)

  /** "YYYY-MM-DD" with zero-padded fields. */
  function FormatDate(d: CalendarDate): (s: string)
    ensures |s| == 10 && s[4] == '-' && s[7] == '-'
  {
    FormatNatWidth(d.year, 4);
    FormatNatWidth(d.month, 2);
    FormatNatWidth(d.day, 2);
    PadLeft(FormatNat(d.year), 4) + "-" + PadLeft(FormatNat(d.month), 2) + "-" + PadLeft(FormatNat(d.day), 2)
  }

  /** Reads exactly the "YYYY-MM-DD" form; anything else, or a day the calendar lacks, is rejected. */
  function ParseDate(s: string): Option<CalendarDate> {
    if |s| == 10 && s[4] == '-' && s[7] == '-' && AllDigits(s[..4]) && AllDigits(s[5..7]) && AllDigits(s[8..]) then
      var d := Day(DigitsValue(s[..4]), DigitsValue(s[5..7]), DigitsValue(s[8..]));
      if ValidDay(d) then Some(d) else None
    else None
  }

  lemma {:induction false} FormatNatWidth(n: nat, k: nat)
    requires 1 <= k && n < Pow10(k)
    ensures |FormatNat(n)| <= k
  {
    if n >= 10 {
      FormatNatWidth(n / 10, k - 1);
    }
  }

  lemma {:induction false} ZerosValue(k: nat)
    ensures DigitsValue(Zeros(k)) == 0
  {
    if k > 0 {
      assert Zeros(k)[..k - 1] == Zeros(k - 1);
      ZerosValue(k - 1);
    }
  }

  /** Leading zeros do not change the value of a digit string. */
  lemma {:induction false} LeadingZerosValue(k: nat, s: string)
    requires AllDigits(s)
    ensures AllDigits(Zeros(k) + s) && DigitsValue(Zeros(k) + s) == DigitsValue(s)
  {
    var z := Zeros(k) + s;
    if |s| == 0 {
      assert z == Zeros(k);
      ZerosValue(k);
    } else {
      assert z[..|z| - 1] == Zeros(k) + s[..|s| - 1];
      assert AllDigits(s[..|s| - 1]);
      LeadingZerosValue(k, s[..|s| - 1]);
    }
  }

  lemma {:induction false} PaddedValue(n: nat, w: nat)
    ensures AllDigits(PadLeft(FormatNat(n), w)) && DigitsValue(PadLeft(FormatNat(n), w)) == n
  {
    if |FormatNat(n)| < w {
      LeadingZerosValue(w - |FormatNat(n)|, FormatNat(n));
    }
  }

  /** The three fields of a written date, each zero-padded to its width. */
  lemma {:induction false} FormatDateParts(d: CalendarDate)
    ensures FormatDate(d)[..4] == PadLeft(FormatNat(d.year), 4)
    ensures FormatDate(d)[5..7] == PadLeft(FormatNat(d.month), 2)
    ensures FormatDate(d)[8..] == PadLeft(FormatNat(d.day), 2)
  {
    var y := PadLeft(FormatNat(d.year), 4);
    var m := PadLeft(FormatNat(d.month), 2);
    var dd := PadLeft(FormatNat(d.day), 2);
    FormatNatWidth(d.year, 4);
    FormatNatWidth(d.month, 2);
    FormatNatWidth(d.day, 2);
    var s := FormatDate(d);
    assert s == y + "-" + m + "-" + dd;
  }

  /** Writing a date and reading the text back gives the date. */
  lemma {:induction false} ParseFormatDate(d: CalendarDate)
    ensures ParseDate(FormatDate(d)) == Some(d)
  {
    FormatDateParts(d);
    PaddedValue(d.year, 4);
    PaddedValue(d.month, 2);
    PaddedValue(d.day, 2);
  }

  /** Every text the parser accepts is already in the form the formatter writes. */
  lemma {:induction false} FormatParseDate(s: string)
    requires ParseDate(s).Some?
    ensures FormatDate(ParseDate(s).value) == s
  {
    PaddedFormatOfDigits(s[..4]);
    PaddedFormatOfDigits(s[5..7]);
    PaddedFormatOfDigits(s[8..]);
    assert s == s[..4] + "-" + s[5..7] + "-" + s[8..];
  }
}
