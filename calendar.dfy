/** Calendar dates (the Date class of datatypes.cpp): proleptic Gregorian
    year/month/day fields beside an epoch, the day count in which
    0001-01-01 is day 1. */
module Calendar {
  import opened Results
  import opened CppInt
  import opened Numerals
  import opened Ordering

  const DaysPerMonth: seq<int> := [31, 28, 31, 30, 31, 30, 31, 31, 30, 31, 30, 31]

  /** A Date value.  The fields are private in the source and only its
      constructors and operators set them. */
  datatype Date = Date(year: int, month: int, day: int, epoch: int)

  /** The units dateAdd, dateSub and extract take. */
  datatype DateComponent = Days | Weeks | Months | Quarters | Years | DayOfYear

  predicate IsLeapYear(year: int)
  {
    year % 400 == 0 || (year % 4 == 0 && year % 100 != 0)
  }

  /** Leap years strictly before `year`, counted with C++ truncating division. */
  function LeapDaysUpToCurrentYear(year: int): int
  {
    TruncDiv(year - 1, 4) - TruncDiv(year - 1, 100) + TruncDiv(year - 1, 400)
  }

  function YearLength(year: int): int
  {
    if IsLeapYear(year) then 366 else 365
  }

  function MonthLength(year: int, month: int): int
    requires 1 <= month <= 12
  {
    DaysPerMonth[month - 1] + (if month == 2 && IsLeapYear(year) then 1 else 0)
  }

  /** daysPerMonth summed over its first `months` entries. */
  function DaysBeforeMonth(months: int): int
    requires 0 <= months <= 12
  {
    if months == 0 then 0 else DaysBeforeMonth(months - 1) + DaysPerMonth[months - 1]
  }

  /** Days in the years before `year`, as dateToEpoch counts them. */
  function DaysBeforeYear(year: int): int
  {
    (year - 1) * 365 + LeapDaysUpToCurrentYear(year)
  }

  /** The epoch dateToEpoch assigns to a year, month and day. */
  function EpochOf(year: int, month: int, day: int): int
    requires 1 <= month <= 12
  {
    DaysBeforeYear(year) + (if IsLeapYear(year) && month > 2 then 1 else 0)
      + DaysBeforeMonth(month - 1) + day
  }

  /** The day exists in that month of the proleptic Gregorian calendar. */
  predicate ValidYmd(year: int, month: int, day: int)
  {
    1 <= month <= 12 && 1 <= day <= MonthLength(year, month)
  }

  /** The fields epochToDate produces for an epoch: a calendar date with that
      epoch when the epoch is positive; 0000-12-31 for epoch 0; and month 1
      with the epoch itself as the day when the epoch is negative. */
  predicate FromEpoch(epoch: int, year: int, month: int, day: int)
  {
    if epoch >= 1 then year >= 1 && ValidYmd(year, month, day) && EpochOf(year, month, day) == epoch
    else if epoch == 0 then year == 0 && month == 12 && day == 31
    else year == 1 && month == 1 && day == epoch
  }

  // ---------------------------------------------------------------------
  // Validation (enforceDateInvariants)

  /** enforceDateInvariants as written: the year in [0, 9999], the month in
      [0, 12], the day at most the month's length and not negative.
      Month 0 with a valid year indexes daysPerMonth[-1] and is excluded. */
  function DateInvariantsAsWritten(year: int, month: int, day: int): (ok: bool)
    requires 0 <= year <= 9999 ==> month != 0
    ensures ok ==> 1 <= month <= 12 && 0 <= day <= MonthLength(year, month)
  {
    if !(0 <= year <= 9999) then false
    else if !(0 <= month <= 12) then false
    else if !(day <= MonthLength(year, month)) then false
    else day >= 0
  }

  /** The check every Date constructor and operator of the model applies:
      enforceDateInvariants with the day required to be at least 1. */
  function CheckDate(year: int, month: int, day: int): (ok: bool)
    ensures ok <==> 0 <= year <= 9999 && ValidYmd(year, month, day)
    ensures ok ==> DateInvariantsAsWritten(year, month, day)
  {
    0 <= year <= 9999 && 1 <= month <= 12 && 1 <= day <= MonthLength(year, month)
  }

  /** Day 0 passes the check as written and is then the previous month's last
      day: Date(2024, 3, 0) gets the epoch of 2024-02-29. */
  lemma DayZeroAccepted()
    ensures DateInvariantsAsWritten(2024, 3, 0)
    ensures EpochOf(2024, 3, 0) == EpochOf(2024, 2, 29)
    ensures !CheckDate(2024, 3, 0)
  {
  }

  /** In general a day-0 date shares its epoch with the last day of the month
      before it, so the as-written check admits two field triples per epoch. */
  lemma {:induction false} DayZeroAliasesPreviousDay(year: int, month: int)
    requires 0 <= year <= 9999 && 2 <= month <= 12
    ensures DateInvariantsAsWritten(year, month, 0)
    ensures EpochOf(year, month, 0) == EpochOf(year, month - 1, MonthLength(year, month - 1))
  {
    MonthStep(year, month - 1);
  }

  /** Year 0 passes the check, but the truncating leap-day count places
      0000-12-31 on day 1, the epoch of 0001-01-01. */
  lemma YearZeroCollides()
    ensures CheckDate(0, 12, 31) && CheckDate(1, 1, 1)
    ensures EpochOf(0, 12, 31) == EpochOf(1, 1, 1) == 1
  {
    DaysBeforeMonthTable();
  }

  // ---------------------------------------------------------------------
  // Facts about the day count

  lemma DaysBeforeMonthTable()
    ensures DaysBeforeMonth(0) == 0 && DaysBeforeMonth(1) == 31 && DaysBeforeMonth(2) == 59
    ensures DaysBeforeMonth(3) == 90 && DaysBeforeMonth(4) == 120 && DaysBeforeMonth(5) == 151
    ensures DaysBeforeMonth(6) == 181 && DaysBeforeMonth(7) == 212 && DaysBeforeMonth(8) == 243
    ensures DaysBeforeMonth(9) == 273 && DaysBeforeMonth(10) == 304 && DaysBeforeMonth(11) == 334
    ensures DaysBeforeMonth(12) == 365
  {
    assert DaysBeforeMonth(1) == 31;
    assert DaysBeforeMonth(2) == 59;
    assert DaysBeforeMonth(3) == 90;
    assert DaysBeforeMonth(4) == 120;
    assert DaysBeforeMonth(5) == 151;
    assert DaysBeforeMonth(6) == 181;
    assert DaysBeforeMonth(7) == 212;
    assert DaysBeforeMonth(8) == 243;
    assert DaysBeforeMonth(9) == 273;
    assert DaysBeforeMonth(10) == 304;
    assert DaysBeforeMonth(11) == 334;
  }

  /** From year 1 on, each year adds its own length to the count of days
      before it. */
  lemma YearStep(year: int)
    requires year >= 1
    ensures DaysBeforeYear(year + 1) == DaysBeforeYear(year) + YearLength(year)
  {
    CountStep(year, 4);
    CountStep(year, 100);
    CountStep(year, 400);
  }

  /** Counting multiples of b up to year adds one exactly at a multiple. */
  lemma CountStep(year: int, b: int)
    requires year >= 1 && b > 0
    ensures TruncDiv(year, b) == TruncDiv(year - 1, b) + (if year % b == 0 then 1 else 0)
  {
    var q := (year - 1) / b;
    var r := (year - 1) % b;
    if r + 1 == b {
      DivExact(year, b, q + 1, 0);
    } else {
      DivExact(year, b, q, r + 1);
    }
  }

  /** The first day of the next month follows the last day of this one. */
  lemma MonthStep(year: int, month: int)
    requires 1 <= month <= 11
    ensures EpochOf(year, month + 1, 0) == EpochOf(year, month, 0) + MonthLength(year, month)
  {
  }

  /** Consecutive calendar days have consecutive epochs (the test table's
      "epoch must be consecutive" cases). */
  lemma ConsecutiveDays(year: int, month: int, day: int)
    requires year >= 1 && ValidYmd(year, month, day)
    ensures day < MonthLength(year, month) ==> EpochOf(year, month, day + 1) == EpochOf(year, month, day) + 1
    ensures day == MonthLength(year, month) && month < 12 ==> EpochOf(year, month + 1, 1) == EpochOf(year, month, day) + 1
    ensures day == MonthLength(year, month) && month == 12 ==> EpochOf(year + 1, 1, 1) == EpochOf(year, month, day) + 1
  {
    if day == MonthLength(year, month) {
      if month < 12 {
        MonthStep(year, month);
      } else {
        YearStep(year);
        DaysBeforeMonthTable();
      }
    }
  }

  /** A date's epoch lies inside its own year. */
  lemma EpochWithinYear(year: int, month: int, day: int)
    requires ValidYmd(year, month, day)
    ensures DaysBeforeYear(year) < EpochOf(year, month, day) <= DaysBeforeYear(year) + YearLength(year)
  {
    DaysBeforeMonthTable();
  }

  lemma {:induction false} YearsIncrease(a: int, b: int)
    requires 1 <= a < b
    ensures DaysBeforeYear(a) + YearLength(a) <= DaysBeforeYear(b)
    decreases b - a
  {
    YearStep(a);
    if a + 1 < b {
      YearsIncrease(a + 1, b);
    }
  }

  lemma {:induction false} MonthsIncrease(year: int, m1: int, m2: int)
    requires 1 <= m1 < m2 <= 12
    ensures EpochOf(year, m1, 0) + MonthLength(year, m1) <= EpochOf(year, m2, 0)
    decreases m2 - m1
  {
    MonthStep(year, m1);
    if m1 + 1 < m2 {
      MonthsIncrease(year, m1 + 1, m2);
    }
  }

  /** From year 1 on, the epoch order is the calendar order: an earlier
      year, or the same year and an earlier month, or the same month and an
      earlier day. */
  lemma EpochOrderIsCalendarOrder(y1: int, m1: int, d1: int, y2: int, m2: int, d2: int)
    requires y1 >= 1 && ValidYmd(y1, m1, d1)
    requires y2 >= 1 && ValidYmd(y2, m2, d2)
    ensures EpochOf(y1, m1, d1) < EpochOf(y2, m2, d2)
        <==> y1 < y2 || (y1 == y2 && (m1 < m2 || (m1 == m2 && d1 < d2)))
  {
    EpochWithinYear(y1, m1, d1);
    EpochWithinYear(y2, m2, d2);
    if y1 < y2 {
      YearsIncrease(y1, y2);
    } else if y2 < y1 {
      YearsIncrease(y2, y1);
    } else if m1 < m2 {
      MonthsIncrease(y1, m1, m2);
    } else if m2 < m1 {
      MonthsIncrease(y1, m2, m1);
    }
  }

  /** From year 1 on, different calendar dates have different epochs. */
  lemma EpochOfInjective(y1: int, m1: int, d1: int, y2: int, m2: int, d2: int)
    requires y1 >= 1 && ValidYmd(y1, m1, d1)
    requires y2 >= 1 && ValidYmd(y2, m2, d2)
    requires EpochOf(y1, m1, d1) == EpochOf(y2, m2, d2)
    ensures y1 == y2 && m1 == m2 && d1 == d2
  {
    EpochOrderIsCalendarOrder(y1, m1, d1, y2, m2, d2);
    EpochOrderIsCalendarOrder(y2, m2, d2, y1, m1, d1);
  }

  /** epochToDate is a function of the epoch: two field triples that both
      satisfy its postcondition are the same. */
  lemma FromEpochUnique(epoch: int, y1: int, m1: int, d1: int, y2: int, m2: int, d2: int)
    requires FromEpoch(epoch, y1, m1, d1) && FromEpoch(epoch, y2, m2, d2)
    ensures y1 == y2 && m1 == m2 && d1 == d2
  {
    if epoch >= 1 {
      EpochOfInjective(y1, m1, d1, y2, m2, d2);
    }
  }

  /** The round trip the test table checks in both directions: converting a
      date from year 1 on to its epoch and back gives the same date. */
  lemma DateEpochRoundTrip(year: int, month: int, day: int, y: int, m: int, d: int)
    requires year >= 1 && ValidYmd(year, month, day)
    requires FromEpoch(EpochOf(year, month, day), y, m, d)
    ensures y == year && m == month && d == day
  {
    EpochWithinYear(year, month, day);
    assert DaysBeforeYear(year) >= 0 by {
      assert LeapDaysUpToCurrentYear(year) >= 0;
    }
    FromEpochUnique(EpochOf(year, month, day), year, month, day, y, m, d);
  }

  /** Entries of the source's epoch test table. */
  lemma EpochTable()
    ensures EpochOf(1, 1, 1) == 1 && EpochOf(1, 3, 5) == 64 && EpochOf(2, 1, 1) == 366
    ensures EpochOf(2024, 2, 28) == 738944 && EpochOf(2024, 2, 29) == 738945
    ensures EpochOf(2024, 3, 1) == 738946 && EpochOf(2024, 12, 31) == 739251
    ensures EpochOf(2025, 1, 1) == 739252 && EpochOf(1900, 2, 28) == 693654
    ensures EpochOf(1900, 3, 1) == 693655 && EpochOf(1900, 12, 31) == 693960
    ensures EpochOf(2000, 2, 28) == 730178 && EpochOf(2000, 2, 29) == 730179
    ensures EpochOf(2000, 3, 1) == 730180 && EpochOf(2023, 12, 31) == 738885
    ensures EpochOf(2024, 1, 1) == 738886 && EpochOf(2025, 6, 21) == 739423
    ensures EpochOf(9999, 12, 31) == 3652059
  {
    DaysBeforeMonthTable();
  }

  // ---------------------------------------------------------------------
  // The two conversions

  /** dateToEpoch: years, then the leap day, then the whole months before
      this one (walking down from month - 1), then the day. */
  method DateToEpoch(year: int, month: int, day: int) returns (epoch: int)
    requires 1 <= month <= 12
    ensures epoch == EpochOf(year, month, day)
  {
    var updatedEpoch := 0;
    updatedEpoch := updatedEpoch + (year - 1) * 365;
    updatedEpoch := updatedEpoch + LeapDaysUpToCurrentYear(year);
    if IsLeapYear(year) && month > 2 {
      updatedEpoch := updatedEpoch + 1;
    }
    ghost var base := updatedEpoch;
    var pastMonths := month - 1;
    while pastMonths > 0
      invariant 0 <= pastMonths <= month - 1
      invariant updatedEpoch == base + DaysBeforeMonth(month - 1) - DaysBeforeMonth(pastMonths)
    {
      updatedEpoch := updatedEpoch + DaysPerMonth[pastMonths - 1];
      pastMonths := pastMonths - 1;
    }
    updatedEpoch := updatedEpoch + day;
    epoch := updatedEpoch;
  }

  /** epochToDate: whole years are peeled off from year 1 while more than 366
      days remain, the 366 and 0 remainders are settled directly, and the
      months are then peeled off the rest. */
  method EpochToDate(epoch: int) returns (year: int, month: int, day: int)
    ensures FromEpoch(epoch, year, month, day)
  {
    var remainingDays;
    year, remainingDays := PeelYears(epoch);
    DaysBeforeMonthTable();

    if remainingDays == 366 {
      if IsLeapYear(year) {
        month, day := 12, 31;
      } else {
        YearStep(year);
        year := year + 1;
        month, day := 1, 1;
      }
      return;
    }

    if remainingDays == 0 {
      year := year - 1;
      month, day := 12, 31;
      return;
    }

    month, day := PeelMonths(year, remainingDays);
  }

  /** The year loop of epochToDate. */
  method PeelYears(epoch: int) returns (year: int, remainingDays: int)
    ensures year >= 1 && remainingDays == epoch - DaysBeforeYear(year) && remainingDays <= 366
    ensures epoch >= 1 ==> remainingDays >= 1
    ensures epoch < 1 ==> year == 1 && remainingDays == epoch
  {
    year := 1;
    remainingDays := epoch;
    while remainingDays > 366
      invariant year >= 1
      invariant remainingDays == epoch - DaysBeforeYear(year)
      invariant epoch >= 1 ==> remainingDays >= 1
      invariant epoch < 1 ==> year == 1 && remainingDays == epoch
      decreases remainingDays
    {
      YearStep(year);
      remainingDays := remainingDays - 365;
      remainingDays := remainingDays - (if IsLeapYear(year) then 1 else 0);
      year := year + 1;
    }
  }

  /** The month loop of epochToDate, on the day of the year left after the
      year loop (neither 0 nor 366). */
  method PeelMonths(year: int, dayOfYear: int) returns (month: int, day: int)
    requires dayOfYear <= 365 && dayOfYear != 0
    ensures dayOfYear >= 1 ==> ValidYmd(year, month, day)
    ensures dayOfYear >= 1 ==>
      DaysBeforeMonth(month - 1) + (if IsLeapYear(year) && month > 2 then 1 else 0) + day == dayOfYear
    ensures dayOfYear < 0 ==> month == 1 && day == dayOfYear
  {
    var leap := IsLeapYear(year);
    DaysBeforeMonthTable();
    var remainingDays := dayOfYear;
    month := 0;
    while remainingDays > DaysPerMonth[month]
      invariant 0 <= month <= 11
      invariant remainingDays == dayOfYear - DaysBeforeMonth(month) - (if leap && month >= 2 then 1 else 0)
      invariant dayOfYear >= 1 ==> remainingDays >= 1 || (leap && month == 2 && remainingDays == 0)
      invariant dayOfYear < 0 ==> month == 0
      decreases 12 - month
    {
      remainingDays := remainingDays - DaysPerMonth[month];
      remainingDays := remainingDays - (if leap && month == 1 then 1 else 0);
      month := month + 1;
    }

    if remainingDays == 0 {
      day := 29;
      month := 2;
      return;
    }

    month := month + 1;
    day := remainingDays;
  }

  // ---------------------------------------------------------------------
  // Constructors

  /** Date(year, month, day): validate, then compute the epoch. */
  method NewDate(year: int, month: int, day: int) returns (r: Result<Date>)
    ensures r.Success? <==> CheckDate(year, month, day)
    ensures r.Failure? ==> r.error == InvalidDate
    ensures r.Success? ==> r.value.year == year && r.value.month == month && r.value.day == day
    ensures r.Success? ==> r.value.epoch == EpochOf(year, month, day)
  {
    if !CheckDate(year, month, day) {
      return Failure(InvalidDate);
    }
    var epoch := DateToEpoch(year, month, day);
    r := Success(Date(year, month, day, epoch));
  }

  /** Date(epoch). */
  method DateFromEpoch(epoch: int) returns (d: Date)
    ensures d.epoch == epoch && FromEpoch(epoch, d.year, d.month, d.day)
  {
    var year, month, day := EpochToDate(epoch);
    d := Date(year, month, day, epoch);
  }

  /** The fields Date(string) reads from "YYYY-MM-DD": stoi of characters
      0-3, 5-6 and 8-9; the separators are not looked at. */
  function ParseYmd(text: string): (r: Result<(int, int, int)>)
    ensures |text| != 10 ==> r == Failure(BadDateString)
    ensures r.Success? ==> StoI(text[0..4]) == Some(r.value.0)
    ensures r.Success? ==> StoI(text[5..7]) == Some(r.value.1) && StoI(text[8..10]) == Some(r.value.2)
  {
    if |text| != 10 then Failure(BadDateString)
    else
      match (StoI(text[0..4]), StoI(text[5..7]), StoI(text[8..10]))
      case (Some(y), Some(m), Some(d)) => Success((y, m, d))
      case _ => Failure(BadDateString)
  }

  /** Date(string). */
  method DateFromString(text: string) returns (r: Result<Date>)
    ensures ParseYmd(text).Failure? ==> r == Failure(BadDateString)
    ensures ParseYmd(text).Success? ==>
      var (y, m, d) := ParseYmd(text).value;
      (r.Success? <==> CheckDate(y, m, d))
      && (r.Success? ==> r.value == Date(y, m, d, EpochOf(y, m, d)))
  {
    var parsed := ParseYmd(text);
    if parsed.Failure? {
      return Failure(BadDateString);
    }
    var (y, m, d) := parsed.value;
    r := NewDate(y, m, d);
  }

  /** operator<< for a Date: "YYYY-MM-DD", each field right-aligned and
      zero-filled to its width. */
  function FormatDate(d: Date): string
  {
    PadLeft(IntToString(d.year), 4, '0') + "-" + PadLeft(IntToString(d.month), 2, '0') + "-"
      + PadLeft(IntToString(d.day), 2, '0')
  }

  /** Rendering a checked date and reading the text back gives its fields:
      operator<< and Date(string) are inverse for years 0 to 9999. */
  lemma FormatDateRoundTrip(d: Date)
    requires CheckDate(d.year, d.month, d.day)
    ensures ParseYmd(FormatDate(d)) == Success((d.year, d.month, d.day))
  {
    var ys := PadLeft(NatToString(d.year), 4, '0');
    var ms := PadLeft(NatToString(d.month), 2, '0');
    var ds := PadLeft(NatToString(d.day), 2, '0');
    NatToStringLength(d.year, 4);
    NatToStringLength(d.month, 2);
    NatToStringLength(d.day, 2);
    var text := FormatDate(d);
    assert text == ys + "-" + ms + "-" + ds;
    DateTextFields(ys, ms, ds);
    ParsePadded(d.year, 4);
    ParsePadded(d.month, 2);
    ParsePadded(d.day, 2);
  }

  /** Where the three fields of a "YYYY-MM-DD" text lie. */
  lemma DateTextFields(ys: string, ms: string, ds: string)
    requires |ys| == 4 && |ms| == 2 && |ds| == 2
    ensures var text := ys + "-" + ms + "-" + ds;
      |text| == 10 && text[0..4] == ys && text[5..7] == ms && text[8..10] == ds
  {
  }

  // ---------------------------------------------------------------------
  // Arithmetic

  function Min(a: int, b: int): int { if a <= b then a else b }

  /** The month arithmetic of dateAdd: the month count 12 * year + month
      moves by exactly n, and the day is clamped to the new month's length. */
  predicate MonthsShifted(d: Date, r: Date, n: int)
  {
    1 <= r.month <= 12
    && 12 * r.year + r.month == 12 * d.year + d.month + n
    && r.day == Min(d.day, MonthLength(r.year, r.month))
    && r.epoch == EpochOf(r.year, r.month, r.day)
  }

  /** The year arithmetic of dateAdd: the year moves by n, and February 29
      becomes February 28 when the new year is not a leap year. */
  predicate YearsShifted(d: Date, r: Date, n: int)
  {
    1 <= d.month <= 12
    && r.year == d.year + n && r.month == d.month
    && r.day == (if d.month == 2 && d.day == 29 && !IsLeapYear(d.year + n) then 28 else d.day)
    && r.epoch == EpochOf(r.year, r.month, r.day)
  }

  /** What dateAdd(n, mode) yields for d.  Days and weeks move the epoch and
      never fail; months, quarters and years first rebuild d from its fields,
      which fails when those fields do not pass the check; DAYOFYEAR has no
      case and yields Date(1). */
  predicate Added(d: Date, n: int, mode: DateComponent, r: Result<Date>)
  {
    match mode
    case Days => r.Success? && r.value.epoch == d.epoch + n && FromEpoch(r.value.epoch, r.value.year, r.value.month, r.value.day)
    case Weeks => r.Success? && r.value.epoch == d.epoch + 7 * n && FromEpoch(r.value.epoch, r.value.year, r.value.month, r.value.day)
    case Months => if CheckDate(d.year, d.month, d.day) then r.Success? && MonthsShifted(d, r.value, n) else r == Failure(InvalidDate)
    case Quarters => if CheckDate(d.year, d.month, d.day) then r.Success? && MonthsShifted(d, r.value, 3 * n) else r == Failure(InvalidDate)
    case Years => if CheckDate(d.year, d.month, d.day) then r.Success? && YearsShifted(d, r.value, n) else r == Failure(InvalidDate)
    case DayOfYear => r == Success(Date(1, 1, 1, 1))
  }

  /** The month and quarter case of dateAdd for a date that passed the check. */
  method AddMonths(d: Date, difference: int) returns (r: Date)
    requires CheckDate(d.year, d.month, d.day)
    ensures MonthsShifted(d, r, difference)
  {
    var year, month := d.year, d.month;
    var leftover := TruncMod(difference, 12);
    if leftover + month > 12 {
      year := year + 1;
      month := (leftover + month) % 12;
    } else if leftover + month <= 0 {
      year := year - 1;
      month := 12 + (month + leftover);
    } else {
      month := month + leftover;
    }
    year := year + TruncDiv(difference, 12);
    var maxDay := DaysPerMonth[month - 1];
    maxDay := maxDay + (if month == 2 && IsLeapYear(year) then 1 else 0);
    var day := Min(d.day, maxDay);
    var epoch := DateToEpoch(year, month, day);
    r := Date(year, month, day, epoch);
  }

  /** Date::dateAdd. */
  method DateAdd(d: Date, difference: int, mode: DateComponent) returns (r: Result<Date>)
    requires 1 <= d.month <= 12
    ensures Added(d, difference, mode, r)
  {
    match mode
    case Days =>
      var moved := DateFromEpoch(d.epoch + difference);
      r := Success(moved);
    case Weeks =>
      var moved := DateFromEpoch(d.epoch + 7 * difference);
      r := Success(moved);
    case Months =>
      if !CheckDate(d.year, d.month, d.day) {
        return Failure(InvalidDate);
      }
      var moved := AddMonths(d, difference);
      r := Success(moved);
    case Quarters =>
      if !CheckDate(d.year, d.month, d.day) {
        return Failure(InvalidDate);
      }
      var moved := AddMonths(d, 3 * difference);
      r := Success(moved);
    case Years =>
      if !CheckDate(d.year, d.month, d.day) {
        return Failure(InvalidDate);
      }
      var year := d.year + difference;
      var day := d.day;
      if d.month == 2 && d.day == 29 && !IsLeapYear(year) {
        day := 28;
      }
      var epoch := DateToEpoch(year, d.month, day);
      r := Success(Date(year, d.month, day, epoch));
    case DayOfYear =>
      r := Success(Date(1, 1, 1, 1));
  }

  /** Date::dateSub: dateAdd by the negated amount. */
  method DateSub(d: Date, difference: int, mode: DateComponent) returns (r: Result<Date>)
    requires 1 <= d.month <= 12
    ensures Added(d, -difference, mode, r)
  {
    r := DateAdd(d, -difference, mode);
  }

  /** dateAdd is deterministic on the fields it reads: any two results that
      meet its postcondition are equal. */
  lemma AddedIsDeterministic(d: Date, n: int, mode: DateComponent, r1: Result<Date>, r2: Result<Date>)
    requires Added(d, n, mode, r1) && Added(d, n, mode, r2)
    ensures r1 == r2
  {
    match mode
    case Days =>
      FromEpochUnique(r1.value.epoch, r1.value.year, r1.value.month, r1.value.day, r2.value.year, r2.value.month, r2.value.day);
    case Weeks =>
      FromEpochUnique(r1.value.epoch, r1.value.year, r1.value.month, r1.value.day, r2.value.year, r2.value.month, r2.value.day);
    case Months =>
      if r1.Success? {
        MonthCountUnique(r1.value.year, r1.value.month, r2.value.year, r2.value.month);
      }
    case Quarters =>
      if r1.Success? {
        MonthCountUnique(r1.value.year, r1.value.month, r2.value.year, r2.value.month);
      }
    case Years =>
    case DayOfYear =>
  }

  lemma MonthCountUnique(y1: int, m1: int, y2: int, m2: int)
    requires 1 <= m1 <= 12 && 1 <= m2 <= 12
    requires 12 * y1 + m1 == 12 * y2 + m2
    ensures y1 == y2 && m1 == m2
  {
  }

  /** A date that passed the check is moved by months, quarters or years to a
      calendar date (the year itself is not checked again), and by days or
      weeks to a calendar date whenever the new epoch is positive. */
  lemma AddedIsCalendarDate(d: Date, n: int, mode: DateComponent, r: Result<Date>)
    requires Added(d, n, mode, r) && r.Success?
    requires mode != DayOfYear
    requires mode in {Months, Quarters, Years} ==> CheckDate(d.year, d.month, d.day)
    requires mode in {Days, Weeks} ==> r.value.epoch >= 1
    ensures ValidYmd(r.value.year, r.value.month, r.value.day)
  {
  }

  /** The dateAdd examples of the source's tests: clamping to the end of the
      month, leap targets and leap-day years. */
  lemma DateAddExamples()
    ensures MonthsShifted(Date(2025, 1, 31, EpochOf(2025, 1, 31)), Date(2025, 2, 28, EpochOf(2025, 2, 28)), 1)
    ensures MonthsShifted(Date(2024, 1, 31, EpochOf(2024, 1, 31)), Date(2024, 2, 29, EpochOf(2024, 2, 29)), 1)
    ensures MonthsShifted(Date(2025, 3, 31, EpochOf(2025, 3, 31)), Date(2025, 2, 28, EpochOf(2025, 2, 28)), -1)
    ensures MonthsShifted(Date(2024, 2, 29, EpochOf(2024, 2, 29)), Date(2025, 2, 28, EpochOf(2025, 2, 28)), 12)
    ensures MonthsShifted(Date(2023, 11, 30, EpochOf(2023, 11, 30)), Date(2024, 2, 29, EpochOf(2024, 2, 29)), 3)
    ensures YearsShifted(Date(2024, 2, 29, EpochOf(2024, 2, 29)), Date(2025, 2, 28, EpochOf(2025, 2, 28)), 1)
    ensures YearsShifted(Date(2024, 2, 29, EpochOf(2024, 2, 29)), Date(2028, 2, 29, EpochOf(2028, 2, 29)), 4)
  {
  }

  /** operator+ and operator-: a new Date from the sum or difference of the
      epochs. */
  method DatePlus(lhs: Date, rhs: Date) returns (d: Date)
    ensures d.epoch == lhs.epoch + rhs.epoch && FromEpoch(d.epoch, d.year, d.month, d.day)
  {
    d := DateFromEpoch(lhs.epoch + rhs.epoch);
  }

  method DateMinus(lhs: Date, rhs: Date) returns (d: Date)
    ensures d.epoch == lhs.epoch - rhs.epoch && FromEpoch(d.epoch, d.year, d.month, d.day)
  {
    d := DateFromEpoch(lhs.epoch - rhs.epoch);
  }

  /** operator+= and operator-=: move the epoch, recompute the fields, then
      check them; a result after 9999-12-31 or before epoch 0 (which
      epochToDate renders as 0000-12-31) stops the program. */
  method PlusAssign(lhs: Date, rhs: Date) returns (r: Result<Date>)
    ensures r.Success? ==> r.value.epoch == lhs.epoch + rhs.epoch
    ensures r.Success? ==> FromEpoch(r.value.epoch, r.value.year, r.value.month, r.value.day)
    ensures r.Success? <==> 0 <= lhs.epoch + rhs.epoch <= EpochOf(9999, 12, 31)
  {
    var d := DateFromEpoch(lhs.epoch + rhs.epoch);
    r := CheckedFromEpoch(d);
  }

  method MinusAssign(lhs: Date, rhs: Date) returns (r: Result<Date>)
    ensures r.Success? ==> r.value.epoch == lhs.epoch - rhs.epoch
    ensures r.Success? ==> FromEpoch(r.value.epoch, r.value.year, r.value.month, r.value.day)
    ensures r.Success? <==> 0 <= lhs.epoch - rhs.epoch <= EpochOf(9999, 12, 31)
  {
    var d := DateFromEpoch(lhs.epoch - rhs.epoch);
    r := CheckedFromEpoch(d);
  }

  /** The check at the end of operator+= and operator-=, on fields that
      epochToDate produced. */
  method CheckedFromEpoch(d: Date) returns (r: Result<Date>)
    requires FromEpoch(d.epoch, d.year, d.month, d.day)
    ensures r.Success? <==> 0 <= d.epoch <= EpochOf(9999, 12, 31)
    ensures r.Success? ==> r.value == d
  {
    EpochTable();
    if d.epoch >= 1 {
      EpochWithinYear(d.year, d.month, d.day);
      if d.year <= 9999 {
        EpochOrderIsCalendarOrder(d.year, d.month, d.day, 9999, 12, 31);
      } else {
        YearsIncrease(9999, d.year);
        EpochWithinYear(9999, 12, 31);
      }
    }
    if CheckDate(d.year, d.month, d.day) {
      r := Success(d);
    } else {
      r := Failure(InvalidDate);
    }
  }

  // ---------------------------------------------------------------------
  // Extraction

  /** The day of the year, counted from 1 on January 1. */
  function DayOfYearOf(d: Date): int
  {
    d.epoch - DaysBeforeYear(d.year)
  }

  /** The day of the year a date's fields name, counted from 1 on
      January 1: the days of the months before it, the leap day once past
      February, and the day. */
  function DayOfYearFromFields(year: int, month: int, day: int): int
    requires 1 <= month <= 12
  {
    DaysBeforeMonth(month - 1) + (if month > 2 && IsLeapYear(year) then 1 else 0) + day
  }

  /** When a date's epoch matches its fields, the fields' day of the year is
      the epoch's offset into its year, and for a valid date it lies within
      the year. */
  lemma DayOfYearFromFieldsIsEpochOffset(d: Date)
    requires 1 <= d.month <= 12
    ensures d.epoch == EpochOf(d.year, d.month, d.day) ==> DayOfYearFromFields(d.year, d.month, d.day) == DayOfYearOf(d)
    ensures ValidYmd(d.year, d.month, d.day) ==> 1 <= DayOfYearFromFields(d.year, d.month, d.day) <= YearLength(d.year)
  {
    if ValidYmd(d.year, d.month, d.day) {
      EpochWithinYear(d.year, d.month, d.day);
    }
  }

  /** Date(0) is 0000-12-31 with epoch 0, whose epoch does not match its
      fields (year 0 collides with year 1); its fields still name day 366 of
      the leap year 0. */
  lemma EpochZeroDayOfYear()
    ensures FromEpoch(0, 0, 12, 31)
    ensures EpochOf(0, 12, 31) != 0
    ensures DayOfYearFromFields(0, 12, 31) == 366 == YearLength(0)
  {
    DaysBeforeMonthTable();
  }

  /** The DAYOFYEAR sum of extract as written: daysPerMonth[0 .. month),
      which includes the current month, plus the leap day and the day. */
  function DayOfYearAsWrittenSum(year: int, month: int, day: int): int
    requires 0 <= month <= 12
  {
    DaysBeforeMonth(month) + (if month > 2 && IsLeapYear(year) then 1 else 0) + day
  }

  /** The as-written sum is too large by the length of the current month:
      January 1 is reported as day 32. */
  lemma DayOfYearAsWrittenOvercounts(year: int, month: int, day: int)
    requires 1 <= month <= 12
    ensures DayOfYearAsWrittenSum(year, month, day)
         == EpochOf(year, month, day) - DaysBeforeYear(year) + DaysPerMonth[month - 1]
    ensures DayOfYearAsWrittenSum(year, month, day) == DayOfYearFromFields(year, month, day) + DaysPerMonth[month - 1]
    ensures DayOfYearAsWrittenSum(year, 1, 1) == 32
  {
  }

  /** Date::extract as written. */
  method ExtractAsWritten(d: Date, mode: DateComponent) returns (value: int)
    requires mode == DayOfYear ==> 0 <= d.month <= 12
    ensures mode == DayOfYear ==> value == DayOfYearAsWrittenSum(d.year, d.month, d.day)
    ensures mode != DayOfYear ==> value == ExtractField(d, mode)
  {
    value := 0;
    if mode != DayOfYear {
      return ExtractField(d, mode);
    }
    var i := 0;
    while i < d.month
      invariant 0 <= i <= d.month
      invariant value == DaysBeforeMonth(i)
    {
      value := value + DaysPerMonth[i];
      i := i + 1;
    }
    value := value + (if d.month > 2 && IsLeapYear(d.year) then 1 else 0);
    value := value + d.day;
  }

  /** The cases of extract other than DAYOFYEAR; WEEKS has no case and
      gives 0. */
  function ExtractField(d: Date, mode: DateComponent): (value: int)
    requires mode != DayOfYear
    ensures mode == Quarters && 1 <= d.month <= 12 ==> 1 <= value <= 4 && 3 * value - 2 <= d.month <= 3 * value
  {
    match mode
    case Days => d.day
    case Months => d.month
    case Quarters => TruncDiv(d.month - 1, 3) + 1
    case Years => d.year
    case Weeks => 0
  }

  /** Date::extract with DAYOFYEAR summing only the months before the
      current one. */
  method Extract(d: Date, mode: DateComponent) returns (value: int)
    requires mode == DayOfYear ==> 1 <= d.month <= 12
    ensures mode == DayOfYear ==> value == DayOfYearFromFields(d.year, d.month, d.day)
    ensures mode == DayOfYear && ValidYmd(d.year, d.month, d.day) ==> 1 <= value <= YearLength(d.year)
    ensures mode == DayOfYear && d.epoch == EpochOf(d.year, d.month, d.day) ==> value == DayOfYearOf(d)
    ensures mode != DayOfYear ==> value == ExtractField(d, mode)
  {
    value := 0;
    if mode != DayOfYear {
      return ExtractField(d, mode);
    }
    var i := 0;
    while i < d.month - 1
      invariant 0 <= i <= d.month - 1
      invariant value == DaysBeforeMonth(i)
    {
      value := value + DaysPerMonth[i];
      i := i + 1;
    }
    value := value + (if d.month > 2 && IsLeapYear(d.year) then 1 else 0);
    value := value + d.day;
    DayOfYearFromFieldsIsEpochOffset(d);
  }

  // ---------------------------------------------------------------------
  // Comparison

  /** The six Date operators compare the epochs alone. */
  predicate DateCompare(lhs: Date, rhs: Date, op: CompareOp)
  {
    IntCompare(lhs.epoch, rhs.epoch, op)
  }

  /** For dates built by the checked constructors from year 1 on, comparing
      Dates is comparing the calendar fields lexicographically. */
  lemma DateCompareIsCalendarOrder(lhs: Date, rhs: Date)
    requires lhs.year >= 1 && ValidYmd(lhs.year, lhs.month, lhs.day) && lhs.epoch == EpochOf(lhs.year, lhs.month, lhs.day)
    requires rhs.year >= 1 && ValidYmd(rhs.year, rhs.month, rhs.day) && rhs.epoch == EpochOf(rhs.year, rhs.month, rhs.day)
    ensures DateCompare(lhs, rhs, Less)
        <==> lhs.year < rhs.year || (lhs.year == rhs.year && (lhs.month < rhs.month || (lhs.month == rhs.month && lhs.day < rhs.day)))
    ensures DateCompare(lhs, rhs, Equal) <==> lhs == rhs
  {
    EpochOrderIsCalendarOrder(lhs.year, lhs.month, lhs.day, rhs.year, rhs.month, rhs.day);
    if lhs.epoch == rhs.epoch {
      EpochOfInjective(lhs.year, lhs.month, lhs.day, rhs.year, rhs.month, rhs.day);
    }
  }
}
