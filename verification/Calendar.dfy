/**
 Calendar days as ECMAScript counts them (section 21.4.1 of ECMA-262), the overflow check on
 dd/mm/yyyy dates, and day differences and labels of digest items.
 */
module Calendar {
  import opened Wrappers
  import Text

  /** A day of the proleptic Gregorian calendar, with months and days counted from 1. */
  datatype Date = Date(year: int, month: int, day: int)

  predicate Leap(year: int) {
    year % 4 == 0 && (year % 100 != 0 || year % 400 == 0)
  }

  function MonthLength(year: int, month: int): int {
    if month == 2 then (if Leap(year) then 29 else 28)
    else if month == 4 || month == 6 || month == 9 || month == 11 then 30
    else 31
  }

  predicate IsDay(d: Date) {
    1 <= d.month <= 12 && 1 <= d.day <= MonthLength(d.year, d.month)
  }

  /** The day after. */
  function NextDay(d: Date): (r: Date)
    requires IsDay(d)
    ensures IsDay(r)
  {
    if d.day < MonthLength(d.year, d.month) then d.(day := d.day + 1)
    else if d.month < 12 then Date(d.year, d.month + 1, 1)
    else Date(d.year + 1, 1, 1)
  }

  function Advance(d: Date, n: nat): (r: Date)
    requires IsDay(d)
    ensures IsDay(r)
  {
    if n == 0 then d else NextDay(Advance(d, n - 1))
  }

  // ----- ECMA-262 date arithmetic -----

  /** DayFromYear(y) */
  function DayFromYear(y: int): int {
    365 * (y - 1970) + (y - 1969) / 4 - (y - 1901) / 100 + (y - 1601) / 400
  }

  /** Days of the year before a month. */
  function DaysBefore(year: int, month: int): (n: int)
    ensures n >= 0
  {
    if month <= 1 then 0 else DaysBefore(year, month - 1) + MonthLength(year, month - 1)
  }

  /** The thresholds of MonthFromTime. */
  lemma DaysBeforeTable(year: int)
    ensures var leap := if Leap(year) then 1 else 0;
            && DaysBefore(year, 2) == 31 && DaysBefore(year, 3) == 59 + leap && DaysBefore(year, 4) == 90 + leap
            && DaysBefore(year, 5) == 120 + leap && DaysBefore(year, 6) == 151 + leap
            && DaysBefore(year, 7) == 181 + leap
            && DaysBefore(year, 8) == 212 + leap && DaysBefore(year, 9) == 243 + leap
            && DaysBefore(year, 10) == 273 + leap && DaysBefore(year, 11) == 304 + leap
            && DaysBefore(year, 12) == 334 + leap && DaysBefore(year, 13) == 365 + leap
  {
  }

  lemma {:induction false} MonthsIncrease(year: int, a: int, b: int)
    requires a <= b
    ensures DaysBefore(year, a) <= DaysBefore(year, b)
    decreases b - a
  {
    if a < b {
      MonthsIncrease(year, a, b - 1);
    }
  }

  /** MakeDay for a month in range; the day may overflow it. */
  function MakeDay(year: int, month: int, day: int): int
    requires 1 <= month <= 12
  {
    DayFromYear(year) + DaysBefore(year, month) + day - 1
  }

  /** MakeFullYear: years 0 to 99 mean 1900 to 1999. */
  function FullYear(year: int): int {
    if 0 <= year <= 99 then 1900 + year else year
  }

  /** The day number of `Date.UTC(year, month - 1, day)`. */
  function UtcDay(year: int, month: int, day: int): int
    requires 1 <= month <= 12
  {
    MakeDay(FullYear(year), month, day)
  }

  lemma FourYearStep(y: int)
    ensures (y - 1968) / 4 == (y - 1969) / 4 + if y % 4 == 0 then 1 else 0
  {
  }

  lemma CenturyStep(y: int)
    ensures (y - 1900) / 100 == (y - 1901) / 100 + if y % 100 == 0 then 1 else 0
  {
  }

  lemma FourCenturyStep(y: int)
    ensures (y - 1600) / 400 == (y - 1601) / 400 + if y % 400 == 0 then 1 else 0
  {
  }

  lemma LeapSteps(y: int)
    ensures (if Leap(y) then 1 else 0) ==
            (if y % 4 == 0 then 1 else 0) - (if y % 100 == 0 then 1 else 0) + (if y % 400 == 0 then 1 else 0)
  {
    assert y % 400 == 0 ==> y == 100 * (4 * (y / 400));
    assert y % 100 == 0 ==> y == 4 * (25 * (y / 100));
  }

  lemma YearLength(y: int)
    ensures DayFromYear(y + 1) == DayFromYear(y) + if Leap(y) then 366 else 365
  {
    FourYearStep(y);
    CenturyStep(y);
    FourCenturyStep(y);
    LeapSteps(y);
    assert y + 1 - 1969 == y - 1968 && y + 1 - 1901 == y - 1900 && y + 1 - 1601 == y - 1600;
  }

  lemma {:induction false} YearsIncrease(a: int, b: int)
    requires a <= b
    ensures DayFromYear(a) + 365 * (b - a) <= DayFromYear(b)
    decreases b - a
  {
    if a < b {
      YearsIncrease(a, b - 1);
      YearLength(b - 1);
    }
  }

  lemma YearEnds(year: int)
    ensures DayFromYear(year + 1) == DayFromYear(year) + DaysBefore(year, 13)
  {
    YearLength(year);
    DaysBeforeTable(year);
  }

  /** `d` is what getUTCFullYear, getUTCMonth + 1 and getUTCDate read off day number `n`. */
  ghost predicate Reads(n: int, d: Date) {
    var offset := n - DayFromYear(d.year);
    && 0 <= offset && n < DayFromYear(d.year + 1)
    && 1 <= d.month <= 12
    && DaysBefore(d.year, d.month) <= offset < DaysBefore(d.year, d.month + 1)
    && d.day == offset - DaysBefore(d.year, d.month) + 1
  }

  lemma ReadsYear(n: int, d: Date, e: Date)
    requires Reads(n, d) && Reads(n, e)
    ensures d.year == e.year
  {
    if d.year < e.year {
      YearsIncrease(d.year + 1, e.year);
    } else if e.year < d.year {
      YearsIncrease(e.year + 1, d.year);
    }
  }

  /** A day number reads as at most one date, and that is a real day. */
  lemma ReadsUnique(n: int, d: Date, e: Date)
    requires Reads(n, d) && Reads(n, e)
    ensures d == e && IsDay(d)
  {
    ReadsYear(n, d, e);
    if d.month < e.month {
      MonthsIncrease(d.year, d.month + 1, e.month);
    } else if e.month < d.month {
      MonthsIncrease(d.year, e.month + 1, d.month);
    }
  }

  /** A real day is what its own day number reads as. */
  lemma DayReads(d: Date)
    requires IsDay(d)
    ensures Reads(MakeDay(d.year, d.month, d.day), d)
  {
    YearEnds(d.year);
    MonthsIncrease(d.year, d.month + 1, 13);
  }

  /** Day 1 to 31 of a month that is not a real day reads as a day of the next month. */
  lemma OverflowReads(year: int, month: int, day: int) returns (d: Date)
    requires 1 <= month <= 12 && 1 <= day <= 31 && !IsDay(Date(year, month, day))
    ensures Reads(MakeDay(year, month, day), d) && d.month == month + 1
  {
    d := Date(year, month + 1, day - MonthLength(year, month));
    YearEnds(year);
    MonthsIncrease(year, month + 2, 13);
  }

  // ----- dd/mm/yyyy -----

  /** `/^(\d{2})\/(\d{2})\/(\d{4})$/` */
  predicate Shaped(s: string) {
    && |s| == 10
    && Text.AllDigits(s[0..2]) && s[2] == '/' && Text.AllDigits(s[3..5]) && s[5] == '/' && Text.AllDigits(s[6..])
  }

  /** The date that a string of that shape writes. */
  function Written(s: string): Date
    requires Shaped(s)
  {
    Date(Text.Value(s[6..]), Text.Value(s[3..5]), Text.Value(s[0..2]))
  }

  /** The month that an offset into the year falls in, searched from `month` on. */
  function MonthOf(year: int, offset: int, month: int): (m: int)
    requires 1 <= month <= 12 && DaysBefore(year, month) <= offset < DaysBefore(year, 13)
    ensures 1 <= m <= 12 && DaysBefore(year, m) <= offset < DaysBefore(year, m + 1)
    decreases 12 - month
  {
    if month < 12 && DaysBefore(year, month + 1) <= offset then MonthOf(year, offset, month + 1) else month
  }

  function DayInMonth(n: int, y: int, m: int): (d: Date)
    requires 1 <= m <= 12 && DayFromYear(y) <= n < DayFromYear(y + 1)
    requires DaysBefore(y, m) <= n - DayFromYear(y) < DaysBefore(y, m + 1)
    ensures Reads(n, d)
  {
    Date(y, m, n - DayFromYear(y) - DaysBefore(y, m) + 1)
  }

  /** The date that a day number of year `y` reads as. */
  function DateIn(n: int, y: int): (d: Date)
    requires DayFromYear(y) <= n < DayFromYear(y + 1)
    ensures Reads(n, d)
  {
    YearEnds(y);
    DayInMonth(n, y, MonthOf(y, n - DayFromYear(y), 1))
  }

  /** The date that day number `n` reads as, when it falls in `year` or the year after. */
  function DateOf(n: int, year: int): (d: Date)
    requires DayFromYear(year) <= n < DayFromYear(year + 2)
    ensures Reads(n, d)
  {
    if n < DayFromYear(year + 1) then DateIn(n, year) else DateIn(n, year + 1)
  }

  lemma UtcDayRange(year: int, month: int, day: int)
    requires 1 <= month <= 12 && 1 <= day <= 31
    ensures DayFromYear(FullYear(year)) <= UtcDay(year, month, day) < DayFromYear(FullYear(year) + 2)
  {
    YearLength(FullYear(year));
    YearLength(FullYear(year) + 1);
    YearEnds(FullYear(year));
    MonthsIncrease(FullYear(year), month, 12);
    DaysBeforeTable(FullYear(year));
  }

  /** Month and day are in range and are what `Date.UTC` of the date reads as. */
  predicate PassesOverflowCheck(w: Date) {
    1 <= w.month <= 12 && 1 <= w.day <= 31 &&
    (UtcDayRange(w.year, w.month, w.day);
     var d := DateOf(UtcDay(w.year, w.month, w.day), FullYear(w.year));
     d.month == w.month && d.day == w.day)
  }

  /** `ddmmyyyyToISO`: the ISO form, or nothing when the shape or the overflow check fails. */
  function DdmmyyyyToISO(s: string): Option<string> {
    if Shaped(s) && PassesOverflowCheck(Written(s)) then Some(s[6..] + "-" + s[3..5] + "-" + s[0..2]) else None
  }

  /** The overflow check accepts exactly the days that are real once the year is read as `Date.UTC` reads it. */
  lemma OverflowCheck(year: int, month: int, day: int, d: Date)
    requires 1 <= month <= 12 && 1 <= day <= 31
    requires Reads(UtcDay(year, month, day), d)
    ensures d.month == month && d.day == day <==> IsDay(Date(FullYear(year), month, day))
  {
    var full := Date(FullYear(year), month, day);
    if IsDay(full) {
      DayReads(full);
      ReadsUnique(UtcDay(year, month, day), d, full);
    } else {
      var other := OverflowReads(FullYear(year), month, day);
      ReadsUnique(UtcDay(year, month, day), d, other);
    }
  }

  /** Reading years 0 to 99 as 1900 to 1999 changes the length of one month: February of year 0. */
  lemma FullYearSameDays(year: int, month: int, day: int)
    requires 0 <= year
    ensures IsDay(Date(FullYear(year), month, day)) <==>
            IsDay(Date(year, month, day)) && !(year == 0 && month == 2 && day == 29)
  {
    if year <= 99 {
      assert (1900 + year) % 4 == year % 4;
      assert (1900 + year) % 100 == 0 <==> year == 0;
      assert year % 100 == 0 <==> year == 0;
      assert 1900 % 400 != 0;
    }
  }

  lemma PassesIffFullDay(w: Date)
    ensures PassesOverflowCheck(w) <==> IsDay(Date(FullYear(w.year), w.month, w.day))
  {
    if 1 <= w.month <= 12 && 1 <= w.day <= 31 {
      UtcDayRange(w.year, w.month, w.day);
      OverflowCheck(w.year, w.month, w.day, DateOf(UtcDay(w.year, w.month, w.day), FullYear(w.year)));
    }
  }

  lemma PassesIffReal(w: Date)
    requires w.year >= 0
    ensures PassesOverflowCheck(w) <==> IsDay(w) && w != Date(0, 2, 29)
  {
    PassesIffFullDay(w);
    FullYearSameDays(w.year, w.month, w.day);
  }

  /** A dd/mm/yyyy string is accepted exactly when it writes a real day, 29/02/0000 excepted. */
  lemma AcceptsRealDays(s: string)
    ensures DdmmyyyyToISO(s).Some? <==>
            Shaped(s) && IsDay(Written(s)) && Written(s) != Date(0, 2, 29)
  {
    if Shaped(s) {
      PassesIffReal(Written(s));
    }
  }

  /** The result writes the same year, month and day, year first. */
  lemma IsoKeepsFields(s: string)
    requires DdmmyyyyToISO(s).Some?
    ensures var r := DdmmyyyyToISO(s).value;
            |r| == 10 && r[..4] == s[6..] && r[5..7] == s[3..5] && r[8..] == s[0..2] && r[4] == r[7] == '-'
  {
    IsoFields(s[6..], s[3..5], s[0..2]);
  }

  lemma IsoFields(year: string, month: string, day: string)
    requires |year| == 4 && |month| == |day| == 2
    ensures var r := year + "-" + month + "-" + day;
            |r| == 10 && r[..4] == year && r[5..7] == month && r[8..] == day && r[4] == r[7] == '-'
  {
  }

  lemma Slices(s: string, day: string, month: string, year: string)
    requires |day| == |month| == 2 && |year| == 4 && s == day + "/" + month + "/" + year
    ensures |s| == 10 && s[2] == s[5] == '/'
    ensures s[0..2] == day && s[3..5] == month && s[6..] == year
  {
  }

  lemma ShapeOf(s: string, day: string, month: string, year: string)
    requires |day| == |month| == 2 && |year| == 4
    requires Text.AllDigits(day) && Text.AllDigits(month) && Text.AllDigits(year)
    requires s == day + "/" + month + "/" + year
    ensures Shaped(s) && Written(s) == Date(Text.Value(year), Text.Value(month), Text.Value(day))
  {
    Slices(s, day, month, year);
  }

  /** The one real day (of the proleptic calendar) that is turned away. */
  lemma LeapDayOfYearZeroRejected()
    ensures var s := "29" + "/" + "02" + "/" + "0000";
            Shaped(s) && IsDay(Written(s)) && DdmmyyyyToISO(s).None?
  {
    LeapDayDigits();
    TurnsLeapDayAway("29" + "/" + "02" + "/" + "0000", "29", "02", "0000");
  }

  lemma TurnsLeapDayAway(s: string, day: string, month: string, year: string)
    requires |day| == |month| == 2 && |year| == 4
    requires Text.AllDigits(day) && Text.AllDigits(month) && Text.AllDigits(year)
    requires Text.Value(day) == 29 && Text.Value(month) == 2 && Text.Value(year) == 0
    requires s == day + "/" + month + "/" + year
    ensures Shaped(s) && IsDay(Written(s)) && DdmmyyyyToISO(s).None?
  {
    ShapeOf(s, day, month, year);
    AcceptsRealDays(s);
  }

  lemma LeapDayDigits()
    ensures Text.AllDigits("29") && Text.Value("29") == 29
    ensures Text.AllDigits("02") && Text.Value("02") == 2
    ensures Text.AllDigits("0000") && Text.Value("0000") == 0
  {
    Text.ValueTwo("29");
    Text.ValueTwo("02");
    Text.ValueZeros("0000");
  }

  // ----- diffInDays -----

  const MS_PER_DAY: int := 86_400_000

  /** `Math.round(a / b)` for b > 0: the nearest integer, halves upwards. */
  function RoundDiv(a: int, b: int): (q: int)
    requires b > 0
    ensures q * (2 * b) <= 2 * a + b < q * (2 * b) + 2 * b
  {
    (2 * a + b) / (2 * b)
  }

  /** `diffInDays(a, b)` on the year, month and day numbers of the two strings. */
  function DiffInDays(a: Date, b: Date): int
    requires IsDay(a) && IsDay(b)
  {
    RoundDiv(UtcDay(a.year, a.month, a.day) * MS_PER_DAY - UtcDay(b.year, b.month, b.day) * MS_PER_DAY, MS_PER_DAY)
  }

  lemma DiffIsDayDifference(a: Date, b: Date)
    requires IsDay(a) && IsDay(b)
    ensures DiffInDays(a, b) == UtcDay(a.year, a.month, a.day) - UtcDay(b.year, b.month, b.day)
  {
  }

  lemma NextDayCounts(d: Date)
    requires IsDay(d)
    ensures var r := NextDay(d); MakeDay(r.year, r.month, r.day) == MakeDay(d.year, d.month, d.day) + 1
  {
    YearEnds(d.year);
  }

  lemma {:induction false} AdvanceCounts(d: Date, n: nat)
    requires IsDay(d)
    ensures var r := Advance(d, n); MakeDay(r.year, r.month, r.day) == MakeDay(d.year, d.month, d.day) + n
  {
    if n > 0 {
      AdvanceCounts(d, n - 1);
      NextDayCounts(Advance(d, n - 1));
    }
  }

  lemma SameCount(a: Date, b: Date)
    requires IsDay(a) && IsDay(b) && MakeDay(a.year, a.month, a.day) == MakeDay(b.year, b.month, b.day)
    ensures a == b
  {
    DayReads(a);
    DayReads(b);
    ReadsUnique(MakeDay(a.year, a.month, a.day), a, b);
  }

  /** From year 100 on, the difference is n exactly when n next-day steps lead from `b` to `a`. */
  lemma DiffCountsNextDays(a: Date, b: Date, n: nat)
    requires IsDay(a) && IsDay(b) && a.year >= 100 && b.year >= 100
    ensures DiffInDays(a, b) == n <==> Advance(b, n) == a
    ensures DiffInDays(b, a) + n == 0 <==> Advance(b, n) == a
  {
    DiffIsDayDifference(a, b);
    DiffIsDayDifference(b, a);
    AdvanceCounts(b, n);
    if DiffInDays(a, b) == n {
      SameCount(Advance(b, n), a);
    }
  }

  /** The day that `Date.UTC` makes of a date: years 0 to 99 are moved, and 1900 has no 29 February. */
  function AsRead(d: Date): (r: Date)
    requires IsDay(d)
    ensures IsDay(r) && (d.year < 0 || d.year > 99 ==> r == d)
  {
    if d == Date(0, 2, 29) then Date(1900, 3, 1)
    else
      FullYearKeepsDays(d);
      Date(FullYear(d.year), d.month, d.day)
  }

  lemma FullYearKeepsDays(d: Date)
    requires IsDay(d) && d != Date(0, 2, 29)
    ensures IsDay(Date(FullYear(d.year), d.month, d.day))
  {
    if d.year >= 0 {
      FullYearSameDays(d.year, d.month, d.day);
    }
  }

  lemma CountsAsRead(d: Date)
    requires IsDay(d)
    ensures var r := AsRead(d); UtcDay(d.year, d.month, d.day) == MakeDay(r.year, r.month, r.day)
  {
    if d == Date(0, 2, 29) {
      DaysBeforeTable(1900);
    }
  }

  /** For all dates the difference is additive and antisymmetric, and zero iff the two are read as one day. */
  lemma DiffIsMetric(a: Date, b: Date, c: Date)
    requires IsDay(a) && IsDay(b) && IsDay(c)
    ensures DiffInDays(a, b) == 0 <==> AsRead(a) == AsRead(b)
    ensures DiffInDays(a, b) + DiffInDays(b, c) == DiffInDays(a, c)
    ensures DiffInDays(a, b) == -DiffInDays(b, a)
  {
    DiffIsDayDifference(a, b);
    DiffIsDayDifference(b, a);
    DiffIsDayDifference(b, c);
    DiffIsDayDifference(a, c);
    CountsAsRead(a);
    CountsAsRead(b);
    if DiffInDays(a, b) == 0 {
      SameCount(AsRead(a), AsRead(b));
    }
  }

  // ----- Before year 100 -----

  /** January and February of year 0, which `Date.UTC` takes for 1900, a year without a leap day. */
  predicate EarlyZero(d: Date) {
    d.year == 0 && d.month <= 2
  }

  lemma ShiftOfYearStart(y: int)
    requires 0 <= y <= 99
    ensures DayFromYear(1900 + y) - DayFromYear(y) == if y == 0 then 693961 else 693960
    ensures Leap(1900 + y) <==> Leap(y) && y != 0
  {
    assert (1900 + y - 1969) / 4 == (y - 1969) / 4 + 475;
    assert (1900 + y - 1901) / 100 == if y == 0 then -1 else 0;
    assert (y - 1901) / 100 == if y == 0 then -20 else -19 - (if y == 0 then 1 else 0);
    assert (1900 + y - 1601) / 400 == 0;
    assert (y - 1601) / 400 == if y == 0 then -5 else -4;
  }

  lemma {:induction false} SameMonths(a: int, b: int, month: int)
    requires Leap(a) <==> Leap(b)
    ensures DaysBefore(a, month) == DaysBefore(b, month)
    decreases month
  {
    if month > 1 {
      SameMonths(a, b, month - 1);
    }
  }

  /** How far `Date.UTC` shifts the days of years 0 to 99. */
  lemma ShiftOfOldYears(d: Date)
    requires IsDay(d) && 0 <= d.year <= 99
    ensures UtcDay(d.year, d.month, d.day) - MakeDay(d.year, d.month, d.day) == if EarlyZero(d) then 693961 else 693960
  {
    ShiftOfYearStart(d.year);
    if d.year == 0 {
      DaysBeforeTable(0);
      DaysBeforeTable(1900);
    } else {
      SameMonths(1900 + d.year, d.year, d.month);
    }
  }

  /**
   For all years from 0 on, the difference is the true number of days exactly when both years are
   at least 100, or both are below and the two days lie on one side of the end of February of year 0.
   */
  lemma DiffTrueIff(a: Date, b: Date)
    requires IsDay(a) && IsDay(b) && 0 <= a.year && 0 <= b.year
    ensures DiffInDays(a, b) == MakeDay(a.year, a.month, a.day) - MakeDay(b.year, b.month, b.day) <==>
            (a.year >= 100 && b.year >= 100) || (a.year < 100 && b.year < 100 && (EarlyZero(a) <==> EarlyZero(b)))
  {
    DiffIsDayDifference(a, b);
    if a.year < 100 {
      ShiftOfOldYears(a);
    }
    if b.year < 100 {
      ShiftOfOldYears(b);
    }
  }

  // ----- humanDate -----

  /** What the label of an item shows; month and weekday names are left to Intl. */
  datatype Shown =
    | Today
    | Yesterday
    | Weekday(w: int)
    | DayMonth(day: int, month: int)
    | DayMonthYear(day: int, month: int, year: int)

  /** WeekDay(t) */
  function WeekdayOf(d: Date): int
    requires IsDay(d)
  {
    (MakeDay(d.year, d.month, d.day) + 4) % 7
  }

  /** 1 January 1970 was a Thursday, and every day is the weekday after the one before. */
  lemma WeekdaysFollow(d: Date)
    requires IsDay(d)
    ensures WeekdayOf(Date(1970, 1, 1)) == 4
    ensures WeekdayOf(NextDay(d)) == if WeekdayOf(d) == 6 then 0 else WeekdayOf(d) + 1
  {
    NextDayCounts(d);
    NextOfSeven(MakeDay(d.year, d.month, d.day) + 4);
    assert MakeDay(1970, 1, 1) == 0;
  }

  lemma NextOfSeven(n: int)
    ensures (n + 1) % 7 == if n % 7 == 6 then 0 else n % 7 + 1
  {
  }

  /** The label of an item that is `days` days old. */
  function ShownAs(days: int, ts: Date, now: Date): Shown
    requires IsDay(ts)
  {
    if days == 0 then Today
    else if days == 1 then Yesterday
    else if 2 <= days <= 6 then Weekday(WeekdayOf(ts))
    else if ts.year == now.year then DayMonth(ts.day, ts.month)
    else DayMonthYear(ts.day, ts.month, ts.year)
  }

  /** `humanDate`, with the two instants already turned into calendar days of the recipient's zone. */
  function HumanDate(ts: Date, now: Date): Shown
    requires IsDay(ts) && IsDay(now)
  {
    ShownAs(DiffInDays(now, ts), ts, now)
  }

  /** Like labels: of one age, or of one weekday within the week, or of one date. */
  lemma ShownAlike(m: int, n: int, a: Date, b: Date, now: Date)
    requires IsDay(a) && IsDay(b) && ShownAs(m, a, now) == ShownAs(n, b, now)
    ensures m == n || a == b || (2 <= m <= 6 && 2 <= n <= 6 && WeekdayOf(a) == WeekdayOf(b))
  {
  }

  lemma WeekdaysDiffer(m: int, n: int)
    requires (m + 4) % 7 == (n + 4) % 7 && -7 < m - n < 7
    ensures m == n
  {
  }

  /** Days equally far from one day are one day. */
  lemma DiffDetermines(a: Date, b: Date, now: Date)
    requires IsDay(a) && IsDay(b) && IsDay(now) && a.year >= 100 && b.year >= 100
    requires DiffInDays(now, a) == DiffInDays(now, b)
    ensures a == b
  {
    DiffIsMetric(a, now, b);
    DiffIsMetric(a, b, now);
    DiffIsMetric(now, a, b);
  }

  lemma WeekdaysUnambiguous(a: Date, b: Date, now: Date)
    requires IsDay(a) && IsDay(b) && IsDay(now) && a.year >= 100 && b.year >= 100
    requires 2 <= DiffInDays(now, a) <= 6 && 2 <= DiffInDays(now, b) <= 6 && WeekdayOf(a) == WeekdayOf(b)
    ensures DiffInDays(now, a) == DiffInDays(now, b)
  {
    DiffIsDayDifference(now, a);
    DiffIsDayDifference(now, b);
    WeekdaysDiffer(MakeDay(a.year, a.month, a.day), MakeDay(b.year, b.month, b.day));
  }

  /** Seen on one day, two items carry the same label only if they are from the same day. */
  lemma LabelsUnambiguous(a: Date, b: Date, now: Date)
    requires IsDay(a) && IsDay(b) && IsDay(now) && a.year >= 100 && b.year >= 100 && now.year >= 100
    ensures HumanDate(a, now) == HumanDate(b, now) <==> a == b
  {
    if HumanDate(a, now) == HumanDate(b, now) {
      var m, n := DiffInDays(now, a), DiffInDays(now, b);
      ShownAlike(m, n, a, b, now);
      if a != b {
        if m != n {
          WeekdaysUnambiguous(a, b, now);
        }
        DiffDetermines(a, b, now);
      }
    }
  }

  /** 'Today' and 'Yesterday' mean what they say. */
  lemma LabelsTrue(ts: Date, now: Date)
    requires IsDay(ts) && IsDay(now) && ts.year >= 100 && now.year >= 100
    ensures HumanDate(ts, now) == Today <==> ts == now
    ensures HumanDate(ts, now) == Yesterday <==> NextDay(ts) == now
    ensures HumanDate(ts, now).Weekday? <==> exists n :: 2 <= n <= 6 && Advance(ts, n) == now
    ensures HumanDate(ts, now).Weekday? ==> HumanDate(ts, now).w == WeekdayOf(ts)
    ensures HumanDate(ts, now).DayMonth? ==>
              HumanDate(ts, now) == DayMonth(ts.day, ts.month) && ts.year == now.year
    ensures HumanDate(ts, now).DayMonthYear? ==>
              HumanDate(ts, now) == DayMonthYear(ts.day, ts.month, ts.year) && ts.year != now.year
  {
    DiffCountsNextDays(now, ts, 0);
    DiffCountsNextDays(now, ts, 1);
    assert Advance(ts, 1) == NextDay(Advance(ts, 0));
    if 2 <= DiffInDays(now, ts) <= 6 {
      DiffCountsNextDays(now, ts, DiffInDays(now, ts));
    }
    if n :| 2 <= n <= 6 && Advance(ts, n) == now {
      DiffCountsNextDays(now, ts, n);
    }
  }
}
