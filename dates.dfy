/**
 * Calendar dates as the tracker reads and writes them: the stored form
 * `YYYY-MM-DD` (`strptime(..., "%Y-%m-%d")`), the entry form `DD/MM/YYYY`
 * used by the add-record calendar, and the `YYYY-MM` month key.
 * The stored form is modelled on its fixed-width shape only.
 */
module Dates {
  import opened Wrappers
  import opened Text

  datatype Date = Date(year: int, month: int, day: int)

  /**
   * The month key `strftime("%Y-%m")`. For four-digit years, the order of
   * the strings it stands for is the numeric order.
   */
  datatype YearMonth = YearMonth(year: int, month: int)

  predicate IsLeapYear(y: int) {
    y % 4 == 0 && (y % 100 != 0 || y % 400 == 0)
  }

  function DaysInMonth(y: int, m: int): (n: int)
    requires 1 <= m <= 12
    ensures 28 <= n <= 31
  {
    if m == 2 then (if IsLeapYear(y) then 29 else 28)
    else if m == 4 || m == 6 || m == 9 || m == 11 then 30
    else 31
  }

  /** The dates `datetime.date` can represent. */
  predicate ValidDate(d: Date) {
    1 <= d.year <= 9999 && 1 <= d.month <= 12 && 1 <= d.day <= DaysInMonth(d.year, d.month)
  }

  /** Chronological order of `date` objects. */
  predicate DateLess(a: Date, b: Date) {
    a.year < b.year || (a.year == b.year && (a.month < b.month || (a.month == b.month && a.day < b.day)))
  }

  predicate DateLessEq(a: Date, b: Date) {
    a == b || DateLess(a, b)
  }

  lemma DateLessEqTransitive(a: Date, b: Date, c: Date)
    requires DateLessEq(a, b) && DateLessEq(b, c)
    ensures DateLessEq(a, c)
  {
  }

  function MonthOf(d: Date): YearMonth {
    YearMonth(d.year, d.month)
  }

  /** Order of `YYYY-MM` keys: by year, then by month. */
  predicate MonthLess(a: YearMonth, b: YearMonth) {
    a.year < b.year || (a.year == b.year && a.month < b.month)
  }

  // ---------------------------------------------------------------- fixed-width digits

  lemma DigitsValue2(s: string)
    requires |s| == 2 && AllDigits(s)
    ensures DigitsValue(s) == DigitValue(s[0]) * 10 + DigitValue(s[1])
  {
    assert s[..1][..0] == [];
    assert DigitsValue(s[..1]) == DigitValue(s[0]);
  }

  /** Four digits are two two-digit groups: hundreds, then units. */
  lemma DigitsValue4(s: string)
    requires |s| == 4 && AllDigits(s)
    ensures DigitsValue(s) == DigitsValue(s[..2]) * 100 + DigitsValue(s[2..])
  {
    assert s[..3][..2] == s[..2];
    assert DigitsValue(s[..3]) == DigitsValue(s[..2]) * 10 + DigitValue(s[2]);
    DigitsValue2(s[..2]);
    DigitsValue2(s[2..]);
  }

  /** Two digits with a leading zero, as `%m` and `%d` print. */
  function Pad2(n: nat): (s: string)
    requires n < 100
    ensures |s| == 2 && AllDigits(s) && DigitsValue(s) == n
  {
    var s := [Digit(n / 10), Digit(n % 10)];
    DigitsValue2(s);
    s
  }

  /** Four digits with leading zeros, as `%Y` prints. */
  function Pad4(n: nat): (s: string)
    requires n < 10000
    ensures |s| == 4 && AllDigits(s) && DigitsValue(s) == n
  {
    var hi, lo := n / 100, n % 100;
    var s := Pad2(hi) + Pad2(lo);
    assert s[..2] == Pad2(hi) && s[2..] == Pad2(lo);
    DigitsValue4(s);
    s
  }

  lemma Pad2Digits(s: string)
    requires |s| == 2 && AllDigits(s)
    ensures DigitsValue(s) < 100 && Pad2(DigitsValue(s)) == s
  {
    DigitsValue2(s);
  }

  lemma Pad4Digits(s: string)
    requires |s| == 4 && AllDigits(s)
    ensures DigitsValue(s) < 10000 && Pad4(DigitsValue(s)) == s
  {
    var hi, lo := s[..2], s[2..];
    Pad2Digits(hi);
    Pad2Digits(lo);
    DigitsValue4(s);
    HundredsSplit(DigitsValue(hi), DigitsValue(lo));
    assert s == hi + lo;
  }

  lemma HundredsSplit(a: nat, b: nat)
    requires a < 100 && b < 100
    ensures (a * 100 + b) / 100 == a && (a * 100 + b) % 100 == b
  {
  }

  // ---------------------------------------------------------------- formats

  /** `datetime.strptime(s, "%Y-%m-%d")` on the fixed shape `YYYY-MM-DD`. */
  function ParseIso(s: string): (r: Option<Date>)
    ensures r.Some? ==> ValidDate(r.value)
    ensures r.Some? ==> |s| == 10 && s[4] == '-' && s[7] == '-'
  {
    if |s| == 10 && s[4] == '-' && s[7] == '-'
       && AllDigits(s[..4]) && AllDigits(s[5..7]) && AllDigits(s[8..])
    then
      var d := Date(DigitsValue(s[..4]), DigitsValue(s[5..7]), DigitsValue(s[8..]));
      if ValidDate(d) then Some(d) else None
    else None
  }

  /** `date.strftime("%Y-%m-%d")`. */
  function FormatIso(d: Date): (s: string)
    requires ValidDate(d)
    ensures |s| == 10
  {
    Pad4(d.year) + "-" + Pad2(d.month) + "-" + Pad2(d.day)
  }

  /**
   * `datetime.strptime(s, "%d/%m/%Y")`: the day field is `01` to `31`, one
   * digit, or a space and one digit; the month field `01` to `12` or one
   * digit; the year exactly four digits. None of the fields holds a `/`,
   * so the text splits at its first two slashes.
   */
  function ParseDmy(s: string): (r: Option<Date>)
    ensures r.Some? ==> ValidDate(r.value)
    ensures r.Some? ==> 8 <= |s| <= 10
  {
    if '/' !in s then None
    else
      var i := FirstSlash(s);
      var rest := s[i + 1..];
      if '/' !in rest then None
      else
        var j := FirstSlash(rest);
        var year := rest[j + 1..];
        match (DayField(s[..i]), MonthField(rest[..j]))
        case (Some(day), Some(month)) =>
          if |year| == 4 && AllDigits(year) then
            var d := Date(DigitsValue(year), month, day);
            if ValidDate(d) then Some(d) else None
          else None
        case _ => None
  }

  /** The position of the first `/`. */
  function FirstSlash(s: string): (i: nat)
    requires '/' in s
    ensures i < |s| && s[i] == '/' && '/' !in s[..i]
  {
    if s[0] == '/' then 0
    else
      var i := 1 + FirstSlash(s[1..]);
      assert s[..i] == [s[0]] + s[1..][..i - 1];
      i
  }

  /** The `%d` field: `3[01]|[12]\d|0[1-9]|[1-9]| [1-9]`. */
  function DayField(t: string): (r: Option<int>)
    ensures r.Some? ==> 1 <= r.value <= 31
  {
    if |t| == 1 && '1' <= t[0] <= '9' then Some(DigitValue(t[0]))
    else if |t| == 2 && t[0] == ' ' && '1' <= t[1] <= '9' then Some(DigitValue(t[1]))
    else if |t| == 2 && AllDigits(t) && 1 <= DigitsValue(t) <= 31 then Some(DigitsValue(t))
    else None
  }

  /** The `%m` field: `1[0-2]|0[1-9]|[1-9]`. */
  function MonthField(t: string): (r: Option<int>)
    ensures r.Some? ==> 1 <= r.value <= 12
  {
    if |t| == 1 && '1' <= t[0] <= '9' then Some(DigitValue(t[0]))
    else if |t| == 2 && AllDigits(t) && 1 <= DigitsValue(t) <= 12 then Some(DigitsValue(t))
    else None
  }

  lemma {:induction false} FirstSlashAt(s: string, i: nat)
    requires i < |s| && s[i] == '/' && '/' !in s[..i]
    ensures FirstSlash(s) == i
  {
    if i > 0 {
      assert s[0] == s[..i][0];
      assert s[1..][..i - 1] == s[..i][1..];
      FirstSlashAt(s[1..], i - 1);
    }
  }

  /** The calendar's `dd/mm/yyyy` text reads back as its date. */
  lemma ParseDmyPadded(d: Date)
    requires ValidDate(d)
    ensures ParseDmy(Pad2(d.day) + "/" + Pad2(d.month) + "/" + Pad4(d.year)) == Some(d)
  {
    var s := Pad2(d.day) + "/" + Pad2(d.month) + "/" + Pad4(d.year);
    var rest := Pad2(d.month) + "/" + Pad4(d.year);
    assert s[..2] == Pad2(d.day) && s[3..] == rest;
    FirstSlashAt(s, 2);
    assert rest[..2] == Pad2(d.month) && rest[3..] == Pad4(d.year);
    FirstSlashAt(rest, 2);
  }

  /** A day and a month written with one digit each are read as well: `5/3/2024` is 5 March 2024. */
  lemma ParseDmyShort(d: Date)
    requires ValidDate(d) && d.day < 10 && d.month < 10
    ensures ParseDmy([Digit(d.day)] + "/" + [Digit(d.month)] + "/" + Pad4(d.year)) == Some(d)
  {
    var s := [Digit(d.day)] + "/" + [Digit(d.month)] + "/" + Pad4(d.year);
    var rest := [Digit(d.month)] + "/" + Pad4(d.year);
    assert s[..1] == [Digit(d.day)] && s[2..] == rest;
    FirstSlashAt(s, 1);
    assert rest[..1] == [Digit(d.month)] && rest[2..] == Pad4(d.year);
    FirstSlashAt(rest, 1);
  }

  /** Every valid date survives printing and parsing back. */
  lemma ParseFormatIso(d: Date)
    requires ValidDate(d)
    ensures ParseIso(FormatIso(d)) == Some(d)
  {
    var s := FormatIso(d);
    assert s[..4] == Pad4(d.year);
    assert s[5..7] == Pad2(d.month);
    assert s[8..] == Pad2(d.day);
  }

  /** A string `ParseIso` accepts is exactly the canonical print of its date. */
  lemma FormatParseIso(s: string)
    requires ParseIso(s).Some?
    ensures FormatIso(ParseIso(s).value) == s
  {
    Pad4Digits(s[..4]);
    Pad2Digits(s[5..7]);
    Pad2Digits(s[8..]);
    assert s == s[..4] + "-" + s[5..7] + "-" + s[8..];
  }

  /**
   * The add-record conversion
   * `datetime.strptime(date, "%d/%m/%Y").strftime("%Y-%m-%d")`:
   * defined exactly when the entry parses, and the stored text reads back
   * as the same calendar date.
   */
  function ReformatDmyAsIso(s: string): (r: Option<string>)
    ensures r.Some? <==> ParseDmy(s).Some?
    ensures r.Some? ==> ParseIso(r.value) == ParseDmy(s)
  {
    match ParseDmy(s)
    case None => None
    case Some(d) => ParseFormatIso(d); Some(FormatIso(d))
  }

  /** A start date after the end date admits no date at all. */
  lemma EmptyRange(start: Date, end: Date, d: Date)
    requires DateLess(end, start)
    ensures !(DateLessEq(start, d) && DateLessEq(d, end))
  {
  }
}
