/** Dates of the proleptic Gregorian calendar as day numbers, and the
    "2006-01-02" layout (zero-padded `YYYY-MM-DD`) that the counter uses for its
    bucket keys, formatted and parsed as Go's time package does for UTC times. */
module Calendar {
  import opened Errors

  predicate IsLeap(y: int) {
    y % 4 == 0 && (y % 100 != 0 || y % 400 == 0)
  }

  function YearLength(y: int): int {
    if IsLeap(y) then 366 else 365
  }

  function DaysIn(m: int, y: int): int
    requires 1 <= m <= 12
  {
    if m == 2 then (if IsLeap(y) then 29 else 28)
    else if m == 4 || m == 6 || m == 9 || m == 11 then 30
    else 31
  }

  /** Days of year `y` before the first of month `m`; month 13 stands for the
      end of the year. */
  function DaysBeforeMonth(y: int, m: int): int
    requires 1 <= m <= 13
  {
    var common :=
      if m == 1 then 0 else if m == 2 then 31 else if m == 3 then 59
      else if m == 4 then 90 else if m == 5 then 120 else if m == 6 then 151
      else if m == 7 then 181 else if m == 8 then 212 else if m == 9 then 243
      else if m == 10 then 273 else if m == 11 then 304 else if m == 12 then 334
      else 365;
    if m > 2 && IsLeap(y) then common + 1 else common
  }

  /** Days from 0000-01-01 to the first of January of year `y` (negative
      before year 0): 365 per year plus one per leap year in between. */
  function DaysBeforeYear(y: int): int {
    365 * y + (y + 3) / 4 - (y + 99) / 100 + (y + 399) / 400
  }

  /** The day number of 1970-01-01, the first day of Unix time. */
  const EpochDay: int := 719_528

  datatype Date = Date(year: int, month: int, day: int)

  predicate IsValid(d: Date) {
    1 <= d.month <= 12 && 1 <= d.day <= DaysIn(d.month, d.year)
  }

  /** Days from 0000-01-01 to `d`. */
  function DayNumber(d: Date): int
    requires 1 <= d.month <= 12
  {
    DaysBeforeYear(d.year) + DaysBeforeMonth(d.year, d.month) + d.day - 1
  }

  lemma YearStep(y: int)
    ensures DaysBeforeYear(y + 1) == DaysBeforeYear(y) + YearLength(y)
  {
    DivStep4(y);
    DivStep100(y);
    DivStep400(y);
  }

  lemma DivStep4(y: int)
    ensures (y + 4) / 4 == (y + 3) / 4 + (if y % 4 == 0 then 1 else 0)
  {
    var q, r := y / 4, y % 4;
    assert y == 4 * q + r;
    assert (y + 4) / 4 == q + 1;
    assert (y + 3) / 4 == if r == 0 then q else q + 1;
  }

  lemma DivStep100(y: int)
    ensures (y + 100) / 100 == (y + 99) / 100 + (if y % 100 == 0 then 1 else 0)
    ensures y % 100 == 0 ==> y % 4 == 0
  {
    var q, r := y / 100, y % 100;
    assert y == 100 * q + r;
    assert (y + 100) / 100 == q + 1;
    assert (y + 99) / 100 == if r == 0 then q else q + 1;
    if r == 0 {
      Multiple100(y, q);
    }
  }

  lemma Multiple100(y: int, q: int)
    requires y == 100 * q
    ensures y % 4 == 0
  {
    assert y == 4 * (25 * q);
  }

  lemma DivStep400(y: int)
    ensures (y + 400) / 400 == (y + 399) / 400 + (if y % 400 == 0 then 1 else 0)
    ensures y % 400 == 0 ==> y % 100 == 0
  {
    var q, r := y / 400, y % 400;
    assert y == 400 * q + r;
    assert (y + 400) / 400 == q + 1;
    assert (y + 399) / 400 == if r == 0 then q else q + 1;
    if r == 0 {
      Multiple400(y, q);
    }
  }

  lemma Multiple400(y: int, q: int)
    requires y == 400 * q
    ensures y % 100 == 0
  {
    assert y == 100 * (4 * q);
  }

  lemma MonthStep(y: int, m: int)
    requires 1 <= m <= 12
    ensures DaysBeforeMonth(y, m + 1) == DaysBeforeMonth(y, m) + DaysIn(m, y)
    ensures DaysBeforeMonth(y, 13) == YearLength(y)
  {
  }

  /** A year no later than the year of day `n`, where the search starts. */
  function StartYear(n: int): (y: int)
    ensures DaysBeforeYear(y) <= n
  {
    if n >= 0 then n / 366 else n / 365
  }

  /** The year holding day `n`, searching upward from `y`. */
  function YearOf(n: int, y: int): (r: int)
    requires DaysBeforeYear(y) <= n
    ensures DaysBeforeYear(r) <= n < DaysBeforeYear(r + 1)
    decreases n - DaysBeforeYear(y)
  {
    YearStep(y);
    if n < DaysBeforeYear(y + 1) then y else YearOf(n, y + 1)
  }

  /** The month of year `y` holding day `doy` of that year, searching upward from `m`. */
  function MonthOf(y: int, doy: int, m: int): (r: int)
    requires 1 <= m <= 12 && DaysBeforeMonth(y, m) <= doy < DaysBeforeMonth(y, 13)
    ensures m <= r <= 12 && DaysBeforeMonth(y, r) <= doy < DaysBeforeMonth(y, r + 1)
    decreases 12 - m
  {
    if m == 12 || doy < DaysBeforeMonth(y, m + 1) then m else MonthOf(y, doy, m + 1)
  }

  /** The date of day number `n`. */
  function Civil(n: int): (d: Date)
    ensures IsValid(d) && DayNumber(d) == n
  {
    var y := YearOf(n, StartYear(n));
    YearStep(y);
    MonthStep(y, 1);
    var doy := n - DaysBeforeYear(y);
    var m := MonthOf(y, doy, 1);
    MonthStep(y, m);
    Date(y, m, doy - DaysBeforeMonth(y, m) + 1)
  }

  /** 1970-01-01 has day number `EpochDay`. */
  lemma EpochIsFirstUnixDay()
    ensures Civil(EpochDay) == Date(1970, 1, 1)
  {
    assert DayNumber(Date(1970, 1, 1)) == EpochDay;
    CivilOfDayNumber(Date(1970, 1, 1));
  }

  lemma {:induction false} YearsIncrease(a: int, b: int)
    requires a < b
    ensures DaysBeforeYear(a + 1) <= DaysBeforeYear(b)
    decreases b - a
  {
    if a + 1 < b {
      YearsIncrease(a + 1, b);
      YearStep(a + 1);
    }
  }

  /** Each valid date is the date of its own day number, so day numbers and
      valid dates are in one-to-one correspondence. */
  lemma CivilOfDayNumber(d: Date)
    requires IsValid(d)
    ensures Civil(DayNumber(d)) == d
  {
    var c := Civil(DayNumber(d));
    DayNumberInjective(c, d);
  }

  /** Two valid dates with the same day number are the same date. */
  lemma DayNumberInjective(c: Date, d: Date)
    requires IsValid(c) && IsValid(d) && DayNumber(c) == DayNumber(d)
    ensures c == d
  {
    var n := DayNumber(d);
    YearBracket(d);
    YearBracket(c);
    YearUnique(n, c.year, d.year);
    var y := d.year;
    var doy := n - DaysBeforeYear(y);
    MonthBracket(c);
    MonthBracket(d);
    MonthUnique(y, doy, c.month, d.month);
  }

  /** The day of the year of a valid date lies within its month. */
  lemma MonthBracket(d: Date)
    requires IsValid(d)
    ensures var doy := DayNumber(d) - DaysBeforeYear(d.year);
      DaysBeforeMonth(d.year, d.month) <= doy < DaysBeforeMonth(d.year, d.month + 1)
  {
    MonthStep(d.year, d.month);
  }

  lemma MonthUnique(y: int, doy: int, a: int, b: int)
    requires 1 <= a <= 12 && 1 <= b <= 12
    requires DaysBeforeMonth(y, a) <= doy < DaysBeforeMonth(y, a + 1)
    requires DaysBeforeMonth(y, b) <= doy < DaysBeforeMonth(y, b + 1)
    ensures a == b
  {
    if a < b {
      MonthsIncrease(y, a, b);
    } else if b < a {
      MonthsIncrease(y, b, a);
    }
  }

  lemma YearBracket(d: Date)
    requires IsValid(d)
    ensures DaysBeforeYear(d.year) <= DayNumber(d) < DaysBeforeYear(d.year + 1)
  {
    MonthStep(d.year, d.month);
    YearStep(d.year);
    if d.month < 12 {
      MonthsIncrease(d.year, d.month, 13);
    }
  }

  lemma YearUnique(n: int, a: int, b: int)
    requires DaysBeforeYear(a) <= n < DaysBeforeYear(a + 1)
    requires DaysBeforeYear(b) <= n < DaysBeforeYear(b + 1)
    ensures a == b
  {
    if a < b {
      YearsIncrease(a, b);
    } else if b < a {
      YearsIncrease(b, a);
    }
  }

  lemma MonthsIncrease(y: int, a: int, b: int)
    requires 1 <= a < b <= 13
    ensures DaysBeforeMonth(y, a + 1) <= DaysBeforeMonth(y, b)
  {
  }

  // ---- The "2006-01-02" layout ----

  predicate IsDecimal(c: char) {
    '0' <= c <= '9'
  }

  function DigitChar(v: int): (c: char)
    requires 0 <= v < 10
    ensures IsDecimal(c) && c as int - '0' as int == v
  {
    (v + '0' as int) as char
  }

  /** The decimal numeral of `n`, without leading zeros. */
  function Decimal(n: nat): (s: string)
    ensures |s| >= 1 && forall k :: 0 <= k < |s| ==> IsDecimal(s[k])
    ensures n >= 10 ==> |s| >= 2
    ensures n >= 100 ==> |s| >= 3
    ensures n >= 1000 ==> |s| >= 4
    ensures n >= 10000 ==> |s| >= 5
    decreases n
  {
    if n < 10 then [DigitChar(n)] else Decimal(n / 10) + [DigitChar(n % 10)]
  }

  /** A number below 100 as two digits. */
  function Digits2(v: int): (s: string)
    requires 0 <= v < 100
  {
    [DigitChar(v / 10), DigitChar(v % 10)]
  }

  /** A number below 10000 as four digits. */
  function Digits4(v: int): (s: string)
    requires 0 <= v < 10000
  {
    [DigitChar(v / 1000), DigitChar(v / 100 % 10), DigitChar(v / 10 % 10), DigitChar(v % 10)]
  }

  /** The year as Go's formatter writes a year field: a sign when negative,
      then at least four digits. */
  function FormatYear(y: int): (s: string)
  {
    var mag := if y < 0 then -y else y;
    var digits := if mag < 10000 then Digits4(mag) else Decimal(mag);
    if y < 0 then "-" + digits else digits
  }

  /** `d` in the layout "2006-01-02". */
  function FormatDate(d: Date): (s: string)
    requires IsValid(d)
    ensures 0 <= d.year <= 9999 ==> |s| == 10 && s[4] == '-' && s[7] == '-'
    ensures d.year < 0 ==> |s| > 10 && s[0] == '-'
    ensures d.year > 9999 ==> |s| > 10
  {
    FormatYear(d.year) + "-" + Digits2(d.month) + "-" + Digits2(d.day)
  }

  function Num(c: char): int
    requires IsDecimal(c)
  {
    c as int - '0' as int
  }

  /** Go's parse of "2006-01-02": exactly four digits of year, `-`, two digits
      of month in 1..12, `-`, two digits of day within the month, and nothing
      after them. */
  function ParseDate(s: string): (r: Option<Date>)
    ensures r.Some? ==> IsValid(r.value) && 0 <= r.value.year <= 9999
  {
    if |s| != 10 || s[4] != '-' || s[7] != '-' then None
    else if !(IsDecimal(s[0]) && IsDecimal(s[1]) && IsDecimal(s[2]) && IsDecimal(s[3])
              && IsDecimal(s[5]) && IsDecimal(s[6]) && IsDecimal(s[8]) && IsDecimal(s[9])) then None
    else
      var y := Num(s[0]) * 1000 + Num(s[1]) * 100 + Num(s[2]) * 10 + Num(s[3]);
      var m := Num(s[5]) * 10 + Num(s[6]);
      var d := Num(s[8]) * 10 + Num(s[9]);
      if m < 1 || 12 < m then None
      else if d < 1 || d > DaysIn(m, y) then None
      else Some(Date(y, m, d))
  }

  /** Formatting a date whose year has four digits and parsing the text back
      gives the date. */
  lemma ParseFormat(d: Date)
    requires IsValid(d) && 0 <= d.year <= 9999
    ensures ParseDate(FormatDate(d)) == Some(d)
  {
    var s := FormatDate(d);
    var y4, m2, d2 := Digits4(d.year), Digits2(d.month), Digits2(d.day);
    assert s == y4 + "-" + m2 + "-" + d2;
    assert s[0] == y4[0] && s[1] == y4[1] && s[2] == y4[2] && s[3] == y4[3];
    assert s[4] == '-' && s[5] == m2[0] && s[6] == m2[1];
    assert s[7] == '-' && s[8] == d2[0] && s[9] == d2[1];
    Digits4Value(d.year);
    Digits2Value(d.month);
    Digits2Value(d.day);
  }

  lemma Digits4Value(v: int)
    requires 0 <= v < 10000
    ensures var s := Digits4(v); Num(s[0]) * 1000 + Num(s[1]) * 100 + Num(s[2]) * 10 + Num(s[3]) == v
  {
    var s := Digits4(v);
    var t, h, a := v / 10, v / 100, v / 1000;
    DivTen(v);
    DivTen(t);
    DivTen(h);
    assert Num(s[0]) == a && Num(s[1]) == h % 10 && Num(s[2]) == t % 10 && Num(s[3]) == v % 10;
  }

  /** Dropping one decimal digit at a time. */
  lemma DivTen(x: int)
    requires x >= 0
    ensures x == 10 * (x / 10) + x % 10
    ensures x / 10 / 10 == x / 100 && x / 100 / 10 == x / 1000
  {
  }

  lemma Digits2Value(v: int)
    requires 0 <= v < 100
    ensures var s := Digits2(v); Num(s[0]) * 10 + Num(s[1]) == v
  {
  }

  /** A year outside 0..9999 is not written with exactly four digits, so its
      text does not parse. */
  lemma ParseFormatOutOfRange(d: Date)
    requires IsValid(d) && !(0 <= d.year <= 9999)
    ensures ParseDate(FormatDate(d)) == None
  {
    var s := FormatDate(d);
    if d.year < 0 {
      assert s[0] == '-';
    } else {
      var digits := Decimal(d.year);
      assert s[..|digits|] == digits;
      assert IsDecimal(s[4]);
    }
  }

  /** Parsing is undone by formatting: a key that parses is the canonical
      text of its date. */
  lemma FormatParse(s: string)
    requires ParseDate(s).Some?
    ensures FormatDate(ParseDate(s).value) == s
  {
    var d := ParseDate(s).value;
    var y4, m2, d2 := Digits4(d.year), Digits2(d.month), Digits2(d.day);
    assert FormatDate(d) == y4 + "-" + m2 + "-" + d2;
    DigitsOfNum4(s[0], s[1], s[2], s[3]);
    DigitsOfNum2(s[5], s[6]);
    DigitsOfNum2(s[8], s[9]);
    assert s == [s[0], s[1], s[2], s[3]] + "-" + [s[5], s[6]] + "-" + [s[8], s[9]];
  }

  lemma DigitsOfNum4(a: char, b: char, c: char, e: char)
    requires IsDecimal(a) && IsDecimal(b) && IsDecimal(c) && IsDecimal(e)
    ensures Digits4(Num(a) * 1000 + Num(b) * 100 + Num(c) * 10 + Num(e)) == [a, b, c, e]
  {
    var n := Num(a) * 1000 + Num(b) * 100 + Num(c) * 10 + Num(e);
    assert n / 10 == Num(a) * 100 + Num(b) * 10 + Num(c) && n % 10 == Num(e);
    assert n / 100 == Num(a) * 10 + Num(b) && n / 10 % 10 == Num(c);
    assert n / 1000 == Num(a) && n / 100 % 10 == Num(b);
  }

  lemma DigitsOfNum2(a: char, b: char)
    requires IsDecimal(a) && IsDecimal(b)
    ensures Digits2(Num(a) * 10 + Num(b)) == [a, b]
  {
  }
}
