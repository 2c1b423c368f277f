/**
  The proleptic Gregorian calendar that Python's `datetime.date` implements:
  day numbers counted from 0001-01-01, the next calendar day, `d + timedelta(days=n)`,
  and the `YYYY-MM-DD` text form read by `strptime("%Y-%m-%d")` and written by
  `strftime("%Y-%m-%d")`.
 */
module Calendar {
  import opened Text
  import opened Wrappers

  datatype Date = Date(year: int, month: int, day: int)

  predicate IsLeap(y: int)
  {
    y % 4 == 0 && (y % 100 != 0 || y % 400 == 0)
  }

  function DaysInMonth(y: int, m: int): (n: int)
    requires 1 <= m <= 12
    ensures 28 <= n <= 31
  {
    if m == 2 then (if IsLeap(y) then 29 else 28)
    else if m == 4 || m == 6 || m == 9 || m == 11 then 30
    else 31
  }

  function DaysInYear(y: int): int
  {
    if IsLeap(y) then 366 else 365
  }

  /** A date `datetime.date` accepts (the upper year bound 9999 is imposed where text is read). */
  predicate Valid(d: Date)
  {
    1 <= d.year && 1 <= d.month <= 12 && 1 <= d.day <= DaysInMonth(d.year, d.month)
  }

  /** Days of year `y` that lie before the first of month `m` (`m == 13`: the whole year). */
  function DaysBeforeMonth(y: int, m: int): int
    requires 1 <= m <= 13
  {
    var common :=
      if m == 1 then 0 else if m == 2 then 31 else if m == 3 then 59
      else if m == 4 then 90 else if m == 5 then 120 else if m == 6 then 151
      else if m == 7 then 181 else if m == 8 then 212 else if m == 9 then 243
      else if m == 10 then 273 else if m == 11 then 304 else if m == 12 then 334
      else 365;
    if m > 2 && IsLeap(y) then common + 1 else common
  }

  /** Days from 0001-01-01 to the first of January of year `y`. */
  function DaysBeforeYear(y: int): int
    requires y >= 1
  {
    if y == 1 then 0 else DaysBeforeYear(y - 1) + DaysInYear(y - 1)
  }

  /** `d.toordinal() - 1`: the number of days from 0001-01-01 to `d`. */
  function DayNumber(d: Date): int
    requires Valid(d)
  {
    DaysBeforeYear(d.year) + DaysBeforeMonth(d.year, d.month) + d.day - 1
  }

  /** `d + timedelta(days=1)`. */
  function NextDay(d: Date): Date
    requires Valid(d)
  {
    if d.day < DaysInMonth(d.year, d.month) then Date(d.year, d.month, d.day + 1)
    else if d.month < 12 then Date(d.year, d.month + 1, 1)
    else Date(d.year + 1, 1, 1)
  }

  /** `d + timedelta(days=n)` for `n >= 0`. */
  function AddDays(d: Date, n: nat): (r: Date)
    requires Valid(d)
    ensures Valid(r)
  {
    if n == 0 then d
    else
      var p := AddDays(d, n - 1);
      NextDayNumber(p);
      NextDay(p)
  }

  lemma MonthStep(y: int, m: int)
    requires 1 <= m <= 12
    ensures DaysBeforeMonth(y, m + 1) == DaysBeforeMonth(y, m) + DaysInMonth(y, m)
  {
  }

  lemma YearLength(y: int)
    ensures DaysBeforeMonth(y, 13) == DaysInYear(y)
  {
  }

  /** The next day is a valid date one day number further on. */
  lemma NextDayNumber(d: Date)
    requires Valid(d)
    ensures Valid(NextDay(d))
    ensures DayNumber(NextDay(d)) == DayNumber(d) + 1
  {
    if d.day == DaysInMonth(d.year, d.month) {
      MonthStep(d.year, d.month);
      if d.month == 12 {
        YearLength(d.year);
      }
    }
  }

  /** Adding `n` days moves the day number by exactly `n`. */
  lemma {:induction false} AddDaysNumber(d: Date, n: nat)
    requires Valid(d)
    ensures Valid(AddDays(d, n))
    ensures DayNumber(AddDays(d, n)) == DayNumber(d) + n
  {
    if n > 0 {
      AddDaysNumber(d, n - 1);
      NextDayNumber(AddDays(d, n - 1));
    }
  }

  /** Calendar order: year, then month, then day. */
  predicate Before(a: Date, b: Date)
  {
    a.year < b.year || (a.year == b.year && (a.month < b.month || (a.month == b.month && a.day < b.day)))
  }

  lemma {:induction false} YearsAdvance(y1: int, y2: int)
    requires 1 <= y1 < y2
    ensures DaysBeforeYear(y1) + DaysInYear(y1) <= DaysBeforeYear(y2)
    decreases y2 - y1
  {
    if y1 + 1 < y2 {
      YearsAdvance(y1 + 1, y2);
    }
  }

  lemma {:induction false} MonthsAdvance(y: int, m1: int, m2: int)
    requires 1 <= m1 < m2 <= 13
    ensures DaysBeforeMonth(y, m1) + DaysInMonth(y, m1) <= DaysBeforeMonth(y, m2)
    decreases m2 - m1
  {
    MonthStep(y, m1);
    if m1 + 1 < m2 {
      MonthsAdvance(y, m1 + 1, m2);
    }
  }

  /** Day numbers follow calendar order strictly. */
  lemma DayNumberMonotone(a: Date, b: Date)
    requires Valid(a) && Valid(b) && Before(a, b)
    ensures DayNumber(a) < DayNumber(b)
  {
    if a.year < b.year {
      MonthsAdvance(a.year, a.month, 13);
      YearLength(a.year);
      YearsAdvance(a.year, b.year);
    } else if a.month < b.month {
      MonthsAdvance(a.year, a.month, b.month);
    }
  }

  /** Distinct valid dates have distinct day numbers. */
  lemma DayNumberInjective(a: Date, b: Date)
    requires Valid(a) && Valid(b) && DayNumber(a) == DayNumber(b)
    ensures a == b
  {
    if Before(a, b) {
      DayNumberMonotone(a, b);
    } else if Before(b, a) {
      DayNumberMonotone(b, a);
    }
  }

  // ----- the YYYY-MM-DD text form -----

  /** `d.strftime("%Y-%m-%d")`, with the year zero-padded to four digits. */
  function Format(d: Date): (s: string)
    requires Valid(d)
    ensures |s| == 10
  {
    DigitsOf(d.year, 4) + "-" + DigitsOf(d.month, 2) + "-" + DigitsOf(d.day, 2)
  }

  predicate IsoShaped(s: string)
  {
    |s| == 10 && s[4] == '-' && s[7] == '-'
    && AllDigits(s[..4]) && AllDigits(s[5..7]) && AllDigits(s[8..])
  }

  /**
    `datetime.strptime(s, "%Y-%m-%d").date()`: four year digits, two month digits and
    two day digits naming a real calendar day; anything else raises (None here).
   */
  function ParseIso(s: string): (r: Option<Date>)
    ensures r.Some? ==> Valid(r.value) && r.value.year <= 9999
  {
    if IsoShaped(s) then
      var d := Date(Value(s[..4]), Value(s[5..7]), Value(s[8..]));
      ValueBound(s[..4]);
      if Valid(d) then Some(d) else None
    else None
  }

  /** Writing a date read from text gives the text back. */
  lemma FormatParseIso(s: string)
    requires ParseIso(s).Some?
    ensures Format(ParseIso(s).value) == s
  {
    var d := ParseIso(s).value;
    DigitsOfValue(s[..4]);
    DigitsOfValue(s[5..7]);
    DigitsOfValue(s[8..]);
    assert s == s[..4] + "-" + s[5..7] + "-" + s[8..];
  }

  /** Reading a written date gives the date back. */
  lemma ParseIsoFormat(d: Date)
    requires Valid(d) && d.year <= 9999
    ensures ParseIso(Format(d)) == Some(d)
  {
    var s := Format(d);
    var y, m, dd := DigitsOf(d.year, 4), DigitsOf(d.month, 2), DigitsOf(d.day, 2);
    assert s[..4] == y && s[5..7] == m && s[8..] == dd;
    ValueOfDigitsOf(d.year, 4);
    ValueOfDigitsOf(d.month, 2);
    ValueOfDigitsOf(d.day, 2);
  }

  /** Text of the shape Y-M-D with fixed-width fields compares field by field. */
  lemma LexLeFields(ya: string, ma: string, da: string, yb: string, mb: string, db: string)
    requires |ya| == |yb| && |ma| == |mb|
    ensures LexLe(ya + "-" + ma + "-" + da, yb + "-" + mb + "-" + db) <==>
      (ya != yb && LexLe(ya, yb)) || (ya == yb && ((ma != mb && LexLe(ma, mb)) || (ma == mb && LexLe(da, db))))
  {
    var dash: string := "-";
    assert ya + "-" + ma + "-" + da == ya + (dash + (ma + (dash + da)));
    assert yb + "-" + mb + "-" + db == yb + (dash + (mb + (dash + db)));
    LexLeConcat(ya, dash + (ma + (dash + da)), yb, dash + (mb + (dash + db)));
    LexLeConcat(dash, ma + (dash + da), dash, mb + (dash + db));
    LexLeConcat(ma, dash + da, mb, dash + db);
    LexLeConcat(dash, da, dash, db);
  }

  /** Code-point order on written dates is calendar order. */
  lemma FormatLexIsCalendar(a: Date, b: Date)
    requires Valid(a) && Valid(b) && a.year <= 9999 && b.year <= 9999
    ensures LexLe(Format(a), Format(b)) <==> !Before(b, a)
  {
    var ya, ma, da := DigitsOf(a.year, 4), DigitsOf(a.month, 2), DigitsOf(a.day, 2);
    var yb, mb, db := DigitsOf(b.year, 4), DigitsOf(b.month, 2), DigitsOf(b.day, 2);
    ValueOfDigitsOf(a.year, 4);
    ValueOfDigitsOf(a.month, 2);
    ValueOfDigitsOf(a.day, 2);
    ValueOfDigitsOf(b.year, 4);
    ValueOfDigitsOf(b.month, 2);
    ValueOfDigitsOf(b.day, 2);
    LexLeDigits(ya, yb);
    LexLeDigits(ma, mb);
    LexLeDigits(da, db);
    assert ya == yb <==> a.year == b.year;
    assert ma == mb <==> a.month == b.month;
    LexLeFields(ya, ma, da, yb, mb, db);
  }

  /** Code-point order on written dates is day-number order. */
  lemma FormatOrder(a: Date, b: Date)
    requires Valid(a) && Valid(b) && a.year <= 9999 && b.year <= 9999
    ensures LexLe(Format(a), Format(b)) <==> DayNumber(a) <= DayNumber(b)
  {
    FormatLexIsCalendar(a, b);
    if Before(a, b) {
      DayNumberMonotone(a, b);
    } else if Before(b, a) {
      DayNumberMonotone(b, a);
    } else {
      assert a == b;
    }
  }
}
