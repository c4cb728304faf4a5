/**
 * The browser-local part: the inclusive day count `daysBetween` and the
 * default database seeded into local storage. Date-only ISO strings are
 * read as midnight UTC, so a date is its day number since 1970-01-01 in the
 * proleptic Gregorian calendar, and the count is integer arithmetic.
 */
module Script {
  import opened Wrappers
  import opened Json

  // ---------------------------------------------------------------------
  // Calendar

  datatype Date = Date(year: int, month: int, day: int)

  predicate IsLeapYear(y: int) {
    y % 4 == 0 && (y % 100 != 0 || y % 400 == 0)
  }

  function DaysInMonth(y: int, m: int): int
    requires 1 <= m <= 12
  {
    if m == 2 then (if IsLeapYear(y) then 29 else 28)
    else if m == 4 || m == 6 || m == 9 || m == 11 then 30
    else 31
  }

  predicate ValidDate(d: Date) {
    1 <= d.month <= 12 && 1 <= d.day <= DaysInMonth(d.year, d.month)
  }

  /** Days from 0000-03-01 to the first of March of year `y`. */
  function DaysBeforeMarch(y: int): int {
    365 * y + y / 4 - y / 100 + y / 400
  }

  /** Days from the first of March to the first of month `mp` (0 = March, ..., 11 = February). */
  function MonthStart(mp: int): int {
    (153 * mp + 2) / 5
  }

  /** The year counted from March: January and February belong to the year before. */
  function MarchYear(d: Date): int {
    if d.month <= 2 then d.year - 1 else d.year
  }

  function MarchMonth(d: Date): int {
    if d.month <= 2 then d.month + 9 else d.month - 3
  }

  /** Days from 0000-03-01 to 1970-01-01. */
  const EpochOffset: int := 719468

  /** Position of the date within its March-based year. */
  function DayOfMarchYear(d: Date): int {
    MonthStart(MarchMonth(d)) + d.day - 1
  }

  /** Days since 1970-01-01. */
  function DayNumber(d: Date): int {
    DaysBeforeMarch(MarchYear(d)) + DayOfMarchYear(d) - EpochOffset
  }

  /** The day after `d`. */
  function NextDay(d: Date): Date
    requires ValidDate(d)
  {
    if d.day < DaysInMonth(d.year, d.month) then d.(day := d.day + 1)
    else if d.month < 12 then Date(d.year, d.month + 1, 1)
    else Date(d.year + 1, 1, 1)
  }

  /** Calendar order. */
  predicate Before(a: Date, b: Date) {
    a.year < b.year
    || (a.year == b.year && (a.month < b.month || (a.month == b.month && a.day < b.day)))
  }

  lemma EpochIsDayZero()
    ensures DayNumber(Date(1970, 1, 1)) == 0
  {
  }

  /** Each March-based year has 365 days, plus one when the February that ends it is a leap one. */
  lemma {:induction false} YearLength(y: int)
    ensures DaysBeforeMarch(y + 1) - DaysBeforeMarch(y) == if IsLeapYear(y + 1) then 366 else 365
  {
    assert (y + 1) / 4 - y / 4 == if (y + 1) % 4 == 0 then 1 else 0;
    assert (y + 1) / 100 - y / 100 == if (y + 1) % 100 == 0 then 1 else 0;
    assert (y + 1) / 400 - y / 400 == if (y + 1) % 400 == 0 then 1 else 0;
  }

  /** Later March-based years start later. */
  lemma {:induction false} DaysBeforeMarchMonotone(y: int, z: int)
    requires y < z
    ensures DaysBeforeMarch(y) + 365 <= DaysBeforeMarch(z)
    decreases z - y
  {
    YearLength(y);
    if y + 1 < z {
      DaysBeforeMarchMonotone(y + 1, z);
    }
  }

  /** The March-based month lengths: each month starts where the previous one ends. */
  lemma MonthStarts(mp: int)
    requires 0 <= mp < 11
    ensures MonthStart(mp + 1) - MonthStart(mp) == (if mp == 1 || mp == 3 || mp == 6 || mp == 8 then 30 else 31)
    ensures MonthStart(0) == 0 && MonthStart(11) == 337
  {
  }

  /** A valid date lies inside its March-based year. */
  lemma DayOfMarchYearBounds(d: Date)
    requires ValidDate(d)
    ensures 0 <= DayOfMarchYear(d)
    ensures DaysBeforeMarch(MarchYear(d)) + DayOfMarchYear(d) < DaysBeforeMarch(MarchYear(d) + 1)
  {
    YearLength(MarchYear(d));
    if MarchMonth(d) < 11 {
      MonthStarts(MarchMonth(d));
      assert MonthStart(MarchMonth(d) + 1) <= 337 by {
        if MarchMonth(d) + 1 < 11 { MonthStartMonotone(MarchMonth(d) + 1, 11); }
      }
    } else {
      MonthStarts(0);
    }
  }

  lemma {:induction false} MonthStartMonotone(mp: int, mq: int)
    requires 0 <= mp < mq <= 11
    ensures MonthStart(mp) + 30 <= MonthStart(mq)
    decreases mq - mp
  {
    MonthStarts(mp);
    if mp + 1 < mq {
      MonthStartMonotone(mp + 1, mq);
    }
  }

  /** The day after a valid date is valid and has the next day number. */
  lemma NextDayNumber(d: Date)
    requires ValidDate(d)
    ensures ValidDate(NextDay(d))
    ensures DayNumber(NextDay(d)) == DayNumber(d) + 1
  {
    var n := NextDay(d);
    if d.day < DaysInMonth(d.year, d.month) {
      assert MarchYear(n) == MarchYear(d) && MarchMonth(n) == MarchMonth(d);
    } else if d.month == 2 {
      YearLength(d.year - 1);
      MonthStarts(0);
      assert MarchYear(n) == MarchYear(d) + 1 && MarchMonth(n) == 0 && MarchMonth(d) == 11;
    } else if d.month < 12 {
      MonthStarts(MarchMonth(d));
      assert MarchYear(n) == MarchYear(d) && MarchMonth(n) == MarchMonth(d) + 1;
    } else {
      MonthStarts(9);
      assert MarchYear(n) == MarchYear(d) && MarchMonth(n) == 10 && MarchMonth(d) == 9;
    }
  }

  /** Calendar order and day-number order agree. */
  lemma BeforeIncreasesDayNumber(a: Date, b: Date)
    requires ValidDate(a) && ValidDate(b)
    requires Before(a, b)
    ensures DayNumber(a) < DayNumber(b)
  {
    DayOfMarchYearBounds(a);
    DayOfMarchYearBounds(b);
    if MarchYear(a) < MarchYear(b) {
      if MarchYear(a) + 1 < MarchYear(b) {
        DaysBeforeMarchMonotone(MarchYear(a) + 1, MarchYear(b));
      }
    } else {
      assert MarchYear(a) == MarchYear(b);
      if MarchMonth(a) < MarchMonth(b) {
        if MarchMonth(a) + 1 < MarchMonth(b) {
          MonthStartMonotone(MarchMonth(a) + 1, MarchMonth(b));
        }
        MonthStarts(MarchMonth(a));
      }
    }
  }

  /** Valid dates and day numbers correspond one to one, in the same order. */
  lemma DayNumberOrder(a: Date, b: Date)
    requires ValidDate(a) && ValidDate(b)
    ensures Before(a, b) <==> DayNumber(a) < DayNumber(b)
    ensures a == b <==> DayNumber(a) == DayNumber(b)
  {
    if Before(a, b) {
      BeforeIncreasesDayNumber(a, b);
    } else if Before(b, a) {
      BeforeIncreasesDayNumber(b, a);
    }
  }

  // ---------------------------------------------------------------------
  // Date-only ISO strings

  function Pow10(n: nat): nat {
    if n == 0 then 1 else 10 * Pow10(n - 1)
  }

  /** `n` digits spell a number below `10^n`. */
  lemma {:induction false} DigitsValueBound(s: string)
    requires AllDigits(s)
    ensures DigitsValue(s) < Pow10(|s|)
  {
    if s != [] {
      DigitsValueBound(s[..|s| - 1]);
    }
  }

  /**
   * The date a date-only ISO string denotes (`YYYY`, `YYYY-MM` or
   * `YYYY-MM-DD`), or nothing when the string is not one or names a month
   * or day that does not exist.
   */
  function ParseDate(s: string): (r: Option<Date>)
    ensures r.Some? ==> ValidDate(r.value) && 0 <= r.value.year <= 9999
    ensures r.Some? ==> |s| == 4 || |s| == 7 || |s| == 10
    ensures r.Some? ==> AllDigits(s[..4]) && r.value.year == DigitsValue(s[..4])
    ensures r.Some? && |s| == 4 ==> r.value.month == 1 && r.value.day == 1
    ensures r.Some? && |s| >= 7 ==> s[4] == '-' && AllDigits(s[5..7]) && r.value.month == DigitsValue(s[5..7])
    ensures r.Some? && |s| == 7 ==> r.value.day == 1
    ensures r.Some? && |s| == 10 ==> s[7] == '-' && AllDigits(s[8..10]) && r.value.day == DigitsValue(s[8..10])
    ensures |s| == 4 && AllDigits(s) ==> r.Some?
    ensures (|s| == 7 && AllDigits(s[..4]) && s[4] == '-' && AllDigits(s[5..7])
             && 1 <= DigitsValue(s[5..7]) <= 12) ==> r.Some?
    ensures (|s| == 10 && AllDigits(s[..4]) && s[4] == '-' && AllDigits(s[5..7]) && s[7] == '-' && AllDigits(s[8..10])
             && ValidDate(Date(DigitsValue(s[..4]), DigitsValue(s[5..7]), DigitsValue(s[8..10])))) ==> r.Some?
  {
    if |s| < 4 || !AllDigits(s[..4]) then None
    else
      var year := DigitsValue(s[..4]);
      assert year < 10000 by {
        DigitsValueBound(s[..4]);
        assert Pow10(4) == 10000;
      }
      if |s| == 4 then Some(Date(year, 1, 1))
      else if |s| < 7 || s[4] != '-' || !AllDigits(s[5..7]) then None
      else
        var month := DigitsValue(s[5..7]);
        if month < 1 || 12 < month then None
        else if |s| == 7 then Some(Date(year, month, 1))
        else if |s| != 10 || s[7] != '-' || !AllDigits(s[8..10]) then None
        else
          var day := DigitsValue(s[8..10]);
          if day < 1 || DaysInMonth(year, month) < day then None
          else Some(Date(year, month, day))
  }

  function Pad2(n: int): string
    requires 0 <= n < 100
  {
    [DigitChar(n / 10), DigitChar(n % 10)]
  }

  function Pad4(n: int): string
    requires 0 <= n < 10000
  {
    [DigitChar(n / 1000), DigitChar(n / 100 % 10), DigitChar(n / 10 % 10), DigitChar(n % 10)]
  }

  /** The `YYYY-MM-DD` spelling of a date with a four-digit year. */
  function FormatDate(d: Date): string
    requires ValidDate(d) && 0 <= d.year <= 9999
  {
    Pad4(d.year) + "-" + Pad2(d.month) + "-" + Pad2(d.day)
  }

  lemma Pad2Value(n: int)
    requires 0 <= n < 100
    ensures AllDigits(Pad2(n)) && DigitsValue(Pad2(n)) == n
  {
    var s := Pad2(n);
    assert s[..1] == [DigitChar(n / 10)];
    assert s[..1][..0] == [];
    assert DigitsValue(s[..1]) == n / 10;
  }

  lemma Pad4Value(n: int)
    requires 0 <= n < 10000
    ensures AllDigits(Pad4(n)) && DigitsValue(Pad4(n)) == n
  {
    var s := Pad4(n);
    assert s[..3][..2] == s[..2] && s[..2][..1] == s[..1] && s[..1][..0] == [];
    assert DigitsValue(s[..1]) == n / 1000;
    assert DigitsValue(s[..2]) == 10 * (n / 1000) + n / 100 % 10 == n / 100;
    assert DigitsValue(s[..3]) == 10 * (n / 100) + n / 10 % 10 == n / 10;
  }

  /** Parsing reads back every formatted date. */
  lemma ParseFormat(d: Date)
    requires ValidDate(d) && 0 <= d.year <= 9999
    ensures ParseDate(FormatDate(d)) == Some(d)
  {
    var s := FormatDate(d);
    Pad4Value(d.year);
    Pad2Value(d.month);
    Pad2Value(d.day);
    assert s[..4] == Pad4(d.year);
    assert s[5..7] == Pad2(d.month);
    assert s[8..10] == Pad2(d.day);
  }

  // ---------------------------------------------------------------------
  // daysBetween

  const MsPerDay: int := 86400000

  /** `new Date(s).getTime()` for a date-only string: midnight UTC. */
  function TimeValue(d: Date): int {
    DayNumber(d) * MsPerDay
  }

  lemma ExactQuotient(k: int)
    ensures (k * MsPerDay) / MsPerDay == k
  {
  }

  /**
   * `daysBetween(a, b)`: the millisecond difference divided by a day, plus
   * one; nothing (NaN) when either string is not a date. The division is
   * exact, and `b` before `a` is not rejected.
   */
  function DaysBetween(a: string, b: string): (r: Option<int>)
    ensures r.Some? <==> ParseDate(a).Some? && ParseDate(b).Some?
    ensures r.Some? ==> r.value == DayNumber(ParseDate(b).value) - DayNumber(ParseDate(a).value) + 1
  {
    match (ParseDate(a), ParseDate(b))
    case (Some(da), Some(db)) =>
      ExactQuotient(DayNumber(db) - DayNumber(da));
      assert TimeValue(db) - TimeValue(da) == (DayNumber(db) - DayNumber(da)) * MsPerDay;
      Some((TimeValue(db) - TimeValue(da)) / MsPerDay + 1)
    case _ => None
  }

  /** On formatted dates the count is the difference of day numbers plus one. */
  lemma DaysBetweenFormatted(a: Date, b: Date)
    requires ValidDate(a) && 0 <= a.year <= 9999
    requires ValidDate(b) && 0 <= b.year <= 9999
    ensures DaysBetween(FormatDate(a), FormatDate(b)) == Some(DayNumber(b) - DayNumber(a) + 1)
  {
    ParseFormat(a);
    ParseFormat(b);
  }

  /** A date counts as one day. */
  lemma DaysBetweenSameDay(a: string)
    requires ParseDate(a).Some?
    ensures DaysBetween(a, a) == Some(1)
  {
  }

  /** A date and the next one count as two days. */
  lemma DaysBetweenNextDay(d: Date)
    requires ValidDate(d) && 0 <= d.year && d.year < 9999
    ensures DaysBetween(FormatDate(d), FormatDate(NextDay(d))) == Some(2)
  {
    NextDayNumber(d);
    DaysBetweenFormatted(d, NextDay(d));
  }

  /** Counting across an intermediate date counts that date twice. */
  lemma DaysBetweenAdditive(a: string, b: string, c: string)
    requires ParseDate(a).Some? && ParseDate(b).Some? && ParseDate(c).Some?
    ensures DaysBetween(a, c).value == DaysBetween(a, b).value + DaysBetween(b, c).value - 1
  {
  }

  /** The date `n` days after `d`. */
  function AddDays(d: Date, n: nat): (r: Date)
    requires ValidDate(d)
    ensures ValidDate(r) && d.year <= r.year
    ensures DayNumber(r) == DayNumber(d) + n
    decreases n
  {
    if n == 0 then d
    else
      NextDayNumber(d);
      AddDays(NextDay(d), n - 1)
  }

  /**
   * Moving both dates by the same number `k` of days keeps the count: any
   * strings `a'` and `b'` whose dates lie `k` days after (or, for negative
   * `k`, before) those of `a` and `b` count alike. `AddDays` moves a date
   * by exactly that many day numbers.
   */
  lemma DaysBetweenShift(a: string, b: string, a': string, b': string, k: int)
    requires ParseDate(a).Some? && ParseDate(b).Some? && ParseDate(a').Some? && ParseDate(b').Some?
    requires DayNumber(ParseDate(a').value) == DayNumber(ParseDate(a).value) + k
    requires DayNumber(ParseDate(b').value) == DayNumber(ParseDate(b).value) + k
    ensures DaysBetween(a', b') == DaysBetween(a, b)
  {
  }

  /** The count is positive exactly when `b` is not before `a`; a reversed range gives 0 or less. */
  lemma DaysBetweenReversed(a: string, b: string)
    requires ParseDate(a).Some? && ParseDate(b).Some?
    ensures DaysBetween(a, b).value >= 1 <==> !Before(ParseDate(b).value, ParseDate(a).value)
  {
    DayNumberOrder(ParseDate(b).value, ParseDate(a).value);
  }

  lemma DaysBetweenExamples()
    ensures DaysBetween("2025-09-02", "2025-09-02") == Some(1)
    ensures DaysBetween("2025-09-02", "2025-09-03") == Some(2)
    ensures DaysBetween("2025-09-03", "2025-09-02") == Some(0)
  {
    ParseFormat(Date(2025, 9, 2));
    ParseFormat(Date(2025, 9, 3));
    assert FormatDate(Date(2025, 9, 2)) == "2025-09-02";
    assert FormatDate(Date(2025, 9, 3)) == "2025-09-03";
  }

  // ---------------------------------------------------------------------
  // DEFAULT_DB

  /** An employee of the local database: name and leave days. */
  datatype Employee = Employee(name: string, leaveDays: int)

  /** The local database: employees and leave requests. */
  datatype LocalDb = LocalDb(employees: seq<Employee>, requests: seq<Record>)

  /** The database seeded when local storage holds none: two employees with 20 days each, no requests. */
  function DefaultDb(): (db: LocalDb)
    ensures |db.employees| == 2
    ensures forall e :: e in db.employees ==> e.leaveDays == 20
    ensures db.employees[0].name != db.employees[1].name
    ensures db.requests == []
  {
    LocalDb([Employee("Jan Kowalski", 20), Employee("Anna Nowak", 20)], [])
  }
}
