/** Date-and-time values (the Datetime class of datatypes.cpp) and the
    two dateDiff functions. */
module Datetimes {
  import opened Results
  import opened CppInt
  import opened Ordering
  import opened Calendar
  import opened Clock

  datatype Datetime = Datetime(date: Date, time: Time)

  /** The whole-value units of extract. */
  datatype DatetimeComponent = Dates | Times

  const MicrosPerDay: int := 86_400_000_000

  /** A point on one time line: the epoch's days and the duration. */
  function Instant(dt: Datetime): int
  {
    dt.date.epoch * MicrosPerDay + dt.time.duration
  }

  // ---------------------------------------------------------------------
  // Constructors

  /** Datetime(date string, time string): both parts must parse and pass
      their checks; the time takes the default string precision. */
  method DatetimeFromStrings(dateText: string, timeText: string) returns (r: Result<Datetime>)
    ensures r.Success? <==> (DateFromText(dateText).Success? && TimeFromString(timeText, StringTimePrecision).Success?)
    ensures r.Success? ==> r.value == Datetime(DateFromText(dateText).value, TimeFromString(timeText, StringTimePrecision).value)
  {
    var date := DateFromString(dateText);
    if date.Failure? {
      return Failure(date.error);
    }
    var time := TimeFromString(timeText, StringTimePrecision);
    if time.Failure? {
      return Failure(time.error);
    }
    r := Success(Datetime(date.value, time.value));
  }

  /** The date Date(string) builds, as a value. */
  function DateFromText(text: string): (r: Result<Date>)
    ensures r.Success? <==> (ParseYmd(text).Success? && CheckDate(ParseYmd(text).value.0, ParseYmd(text).value.1, ParseYmd(text).value.2))
    ensures r.Success? ==> r.value.year >= 0 && ValidYmd(r.value.year, r.value.month, r.value.day)
    ensures r.Success? ==> r.value.epoch == EpochOf(r.value.year, r.value.month, r.value.day)
    ensures r.Success? ==> ParseYmd(text) == Success((r.value.year, r.value.month, r.value.day))
  {
    match ParseYmd(text)
    case Failure(e) => Failure(e)
    case Success((y, m, d)) => if CheckDate(y, m, d) then Success(Date(y, m, d, EpochOf(y, m, d))) else Failure(InvalidDate)
  }

  /** Datetime(full string): the date from characters 0-9, the time from
      character 11 on.  A text shorter than 11 characters reads past its end
      in the source and is excluded. */
  method DatetimeFromString(full: string) returns (r: Result<Datetime>)
    requires |full| >= 11
    ensures r.Success? <==> (DateFromText(full[..10]).Success? && TimeFromString(full[11..], StringTimePrecision).Success?)
    ensures r.Success? ==> r.value == Datetime(DateFromText(full[..10]).value, TimeFromString(full[11..], StringTimePrecision).value)
  {
    r := DatetimeFromStrings(full[..10], full[11..]);
  }

  /** operator<< for a Datetime: the date, a space, the time. */
  function FormatDatetime(dt: Datetime): string
  {
    FormatDate(dt.date) + " " + FormatTime(dt.time)
  }

  /** The full-string constructor reads back what operator<< writes, for a
      checked date and a checked time of the default string precision. */
  lemma FormatDatetimeRoundTrip(dt: Datetime)
    requires CheckDate(dt.date.year, dt.date.month, dt.date.day)
    requires dt.time.precision == StringTimePrecision
    requires CheckTime(dt.time.hour, dt.time.minute, dt.time.second, dt.time.fraction, dt.time.precision)
    ensures |FormatDatetime(dt)| >= 11
    ensures ParseYmd(FormatDatetime(dt)[..10]) == Success((dt.date.year, dt.date.month, dt.date.day))
    ensures TimeFromString(FormatDatetime(dt)[11..], StringTimePrecision)
         == MakeTime(dt.time.hour, dt.time.minute, dt.time.second, dt.time.fraction, dt.time.precision)
  {
    FormatDateRoundTrip(dt.date);
    TimeTextRoundTrip(dt.time);
    FormatDateLength(dt.date);
    SpaceSeparated(FormatDate(dt.date), FormatTime(dt.time));
  }

  /** Where the two parts of a ten-character date, a space and a time lie. */
  lemma SpaceSeparated(date: string, time: string)
    requires |date| == 10
    ensures var text := date + " " + time;
      |text| >= 11 && text[..10] == date && text[11..] == time
  {
  }

  lemma FormatDateLength(d: Date)
    requires CheckDate(d.year, d.month, d.day)
    ensures |FormatDate(d)| == 10
  {
    Numerals.NatToStringLength(d.year, 4);
    Numerals.NatToStringLength(d.month, 2);
    Numerals.NatToStringLength(d.day, 2);
  }

  // ---------------------------------------------------------------------
  // Arithmetic

  /** datetimeAdd with a date unit: the date moves as dateAdd moves it, the
      time is kept. */
  method DatetimeAddDate(dt: Datetime, difference: int, mode: DateComponent) returns (r: Result<Datetime>)
    requires 1 <= dt.date.month <= 12
    ensures r.Success? ==> r.value.time == dt.time && Added(dt.date, difference, mode, Success(r.value.date))
    ensures r.Failure? ==> Added(dt.date, difference, mode, Failure(r.error))
  {
    var moved := DateAdd(dt.date, difference, mode);
    if moved.Failure? {
      r := Failure(moved.error);
    } else {
      r := Success(Datetime(moved.value, dt.time));
    }
  }

  /** datetimeSub with a date unit is datetimeAdd of the negated amount. */
  method DatetimeSubDate(dt: Datetime, difference: int, mode: DateComponent) returns (r: Result<Datetime>)
    requires 1 <= dt.date.month <= 12
    ensures r.Success? ==> r.value.time == dt.time && Added(dt.date, -difference, mode, Success(r.value.date))
    ensures r.Failure? ==> Added(dt.date, -difference, mode, Failure(r.error))
  {
    r := DatetimeAddDate(dt, -difference, mode);
  }

  /** The duration datetimeAdd moves by for a time unit: the magnitude of
      the amount is first added to Time(0, 0, 0), so it is measured at that
      time's precision, `zeroPrecision`.  That precision is a defaulted
      constructor argument declared in a header that is not part of this
      model, so it is a parameter here. */
  function Step(difference: int, mode: TimeComponent, zeroPrecision: int): (micros: int)
    requires 0 <= zeroPrecision <= 6
    ensures micros >= 0
    ensures difference != 0 ==> micros > 0
  {
    var magnitude := if difference < 0 then -difference else difference;
    Delta(magnitude, mode, zeroPrecision)
  }

  /** The signed move: the step, negated for a negative amount. */
  function SignedStep(difference: int, mode: TimeComponent, zeroPrecision: int): int
    requires 0 <= zeroPrecision <= 6
  {
    if difference < 0 then -Step(difference, mode, zeroPrecision) else Step(difference, mode, zeroPrecision)
  }

  /** The duration before the day is settled. */
  function Shifted(dt: Datetime, difference: int, mode: TimeComponent, zeroPrecision: int): int
    requires 0 <= zeroPrecision <= 6
  {
    dt.time.duration + SignedStep(difference, mode, zeroPrecision)
  }

  /** The duration after at most one day has been carried or borrowed. */
  function Settled(duration: int): (settled: int)
    ensures duration - settled in {-MicrosPerDay, 0, MicrosPerDay}
    ensures 0 <= duration < MicrosPerDay ==> settled == duration
  {
    if duration >= MicrosPerDay then duration - MicrosPerDay
    else if duration < 0 then duration + MicrosPerDay
    else duration
  }

  /** datetimeAdd with a time unit.  The amount, added to midnight, must stay
      below 25 hours; the new duration carries or borrows at most one day
      and the time is rebuilt from it at precision 6, which fails from 25
      hours on.  A new duration still negative after the one-day borrow is
      undefined behaviour in the source and is excluded. */
  method DatetimeAddTime(dt: Datetime, difference: int, mode: TimeComponent, zeroPrecision: int) returns (r: Result<Datetime>)
    requires 0 <= zeroPrecision <= 6
    requires Step(difference, mode, zeroPrecision) < 25 * MicrosPerHour ==> Shifted(dt, difference, mode, zeroPrecision) >= -MicrosPerDay
    ensures r.Success? <==> (Step(difference, mode, zeroPrecision) < 25 * MicrosPerHour && Settled(Shifted(dt, difference, mode, zeroPrecision)) < 25 * MicrosPerHour)
    ensures r.Success? ==> Instant(r.value) == Instant(dt) + SignedStep(difference, mode, zeroPrecision)
    ensures r.Success? ==> r.value.time.duration == Settled(Shifted(dt, difference, mode, zeroPrecision))
    ensures r.Success? ==> r.value.time.precision == 6 && Decomposes(r.value.time)
    ensures r.Success? ==> (r.value.date == dt.date || FromEpoch(r.value.date.epoch, r.value.date.year, r.value.date.month, r.value.date.day))
  {
    var differenceAsTime := StepAsTime(difference, mode, zeroPrecision);
    if differenceAsTime.Failure? {
      return Failure(differenceAsTime.error);
    }
    var newDuration := if difference < 0 then dt.time.duration - differenceAsTime.value
                       else dt.time.duration + differenceAsTime.value;
    var newDate := dt.date;
    if newDuration >= MicrosPerDay {
      newDuration := newDuration - MicrosPerDay;
      newDate := DateFromEpoch(dt.date.epoch + 1);
    } else if newDuration < 0 {
      newDuration := newDuration + MicrosPerDay;
      newDate := DateFromEpoch(dt.date.epoch - 1);
    }
    assert newDuration == Settled(Shifted(dt, difference, mode, zeroPrecision));
    assert newDate.epoch * MicrosPerDay + newDuration == Instant(dt) + SignedStep(difference, mode, zeroPrecision);
    var time := DurationToTime(newDuration, 6);
    if time.Failure? {
      return Failure(time.error);
    }
    r := Success(Datetime(newDate, time.value));
  }

  /** Time(0, 0, 0).timeAdd(abs(difference), mode), as a duration. */
  function StepAsTime(difference: int, mode: TimeComponent, zeroPrecision: int): (r: Result<int>)
    requires 0 <= zeroPrecision <= 6
    ensures r.Success? <==> Step(difference, mode, zeroPrecision) < 25 * MicrosPerHour
    ensures r.Success? ==> r.value == Step(difference, mode, zeroPrecision)
  {
    var magnitude := if difference < 0 then -difference else difference;
    var moved := TimeAdd(Midnight(zeroPrecision), magnitude, mode);
    if moved.Failure? then Failure(moved.error) else Success(moved.value.duration)
  }

  /** datetimeSub with a time unit is datetimeAdd of the negated amount. */
  method DatetimeSubTime(dt: Datetime, difference: int, mode: TimeComponent, zeroPrecision: int) returns (r: Result<Datetime>)
    requires 0 <= zeroPrecision <= 6
    requires Step(-difference, mode, zeroPrecision) < 25 * MicrosPerHour ==> Shifted(dt, -difference, mode, zeroPrecision) >= -MicrosPerDay
    ensures r.Success? <==> (Step(-difference, mode, zeroPrecision) < 25 * MicrosPerHour && Settled(Shifted(dt, -difference, mode, zeroPrecision)) < 25 * MicrosPerHour)
    ensures r.Success? ==> Instant(r.value) == Instant(dt) - SignedStep(difference, mode, zeroPrecision)
    ensures r.Success? ==> r.value.time.precision == 6 && Decomposes(r.value.time)
  {
    r := DatetimeAddTime(dt, -difference, mode, zeroPrecision);
  }

  // ---------------------------------------------------------------------
  // Extraction

  /** Datetime::extract with a date unit. */
  method DatetimeExtractDate(dt: Datetime, mode: DateComponent) returns (value: int)
    requires mode == DayOfYear ==> 1 <= dt.date.month <= 12
    ensures mode == DayOfYear ==> value == DayOfYearFromFields(dt.date.year, dt.date.month, dt.date.day)
    ensures mode == DayOfYear && dt.date.epoch == EpochOf(dt.date.year, dt.date.month, dt.date.day) ==> value == DayOfYearOf(dt.date)
    ensures mode != DayOfYear ==> value == ExtractField(dt.date, mode)
  {
    value := Extract(dt.date, mode);
  }

  /** Datetime::extract with a whole-value unit: the epoch or the duration. */
  function DatetimeExtract(dt: Datetime, mode: DatetimeComponent): (value: int)
    ensures Instant(dt) == (if mode == Dates then value * MicrosPerDay + dt.time.duration
                            else dt.date.epoch * MicrosPerDay + value)
  {
    match mode
    case Dates => dt.date.epoch
    case Times => dt.time.duration
  }

  // ---------------------------------------------------------------------
  // Comparison

  /** The six Datetime operators: compare the times when the dates are
      equal, the dates otherwise; == and != compare both parts. */
  predicate DatetimeCompare(lhs: Datetime, rhs: Datetime, op: CompareOp)
  {
    match op
    case Equal => DateCompare(lhs.date, rhs.date, Equal) && TimeCompare(lhs.time, rhs.time, Equal)
    case NotEqual => DateCompare(lhs.date, rhs.date, NotEqual) || TimeCompare(lhs.time, rhs.time, NotEqual)
    case _ =>
      if DateCompare(lhs.date, rhs.date, Equal) then TimeCompare(lhs.time, rhs.time, op)
      else DateCompare(lhs.date, rhs.date, op)
  }

  /** The Datetime operators are the lexicographic order on (epoch,
      duration), and they agree with each other: exactly one of <, ==, >
      holds, <= is < or ==, >= is > or ==, != is not ==. */
  lemma DatetimeCompareIsLexicographic(a: Datetime, b: Datetime)
    ensures DatetimeCompare(a, b, Less) <==>
      a.date.epoch < b.date.epoch || (a.date.epoch == b.date.epoch && a.time.duration < b.time.duration)
    ensures DatetimeCompare(a, b, Equal) <==> a.date.epoch == b.date.epoch && a.time.duration == b.time.duration
    ensures DatetimeCompare(a, b, Greater) <==> DatetimeCompare(b, a, Less)
    ensures DatetimeCompare(a, b, Less) || DatetimeCompare(a, b, Equal) || DatetimeCompare(a, b, Greater)
    ensures !(DatetimeCompare(a, b, Less) && DatetimeCompare(a, b, Greater))
    ensures !(DatetimeCompare(a, b, Less) && DatetimeCompare(a, b, Equal))
    ensures DatetimeCompare(a, b, LessEqual) <==> DatetimeCompare(a, b, Less) || DatetimeCompare(a, b, Equal)
    ensures DatetimeCompare(a, b, GreaterEqual) <==> DatetimeCompare(a, b, Greater) || DatetimeCompare(a, b, Equal)
    ensures DatetimeCompare(a, b, NotEqual) <==> !DatetimeCompare(a, b, Equal)
  {
  }

  lemma DatetimeLessTransitive(a: Datetime, b: Datetime, c: Datetime)
    requires DatetimeCompare(a, b, Less) && DatetimeCompare(b, c, Less)
    ensures DatetimeCompare(a, c, Less)
  {
    DatetimeCompareIsLexicographic(a, b);
    DatetimeCompareIsLexicographic(b, c);
    DatetimeCompareIsLexicographic(a, c);
  }

  // ---------------------------------------------------------------------
  // Differences

  /** dateDiff with a date unit, positive when lhs is earlier.  WEEKS
      truncates toward zero; DAYOFYEAR has no case and gives 0. */
  function DateDiff(lhs: Datetime, rhs: Datetime, mode: DateComponent): int
  {
    match mode
    case Years => rhs.date.year - lhs.date.year
    case Months => (rhs.date.year - lhs.date.year) * 12 + (rhs.date.month - lhs.date.month)
    case Days => rhs.date.epoch - lhs.date.epoch
    case Weeks => TruncDiv(rhs.date.epoch - lhs.date.epoch, 7)
    case Quarters => (rhs.date.year - lhs.date.year) * 4 + (TruncDiv(rhs.date.month, 4) - TruncDiv(lhs.date.month, 4))
    case DayOfYear => 0
  }

  /** Swapping the operands negates every date difference (for WEEKS this
      needs the truncating division), and a value is at distance 0 from
      itself. */
  lemma DateDiffAntisymmetric(a: Datetime, b: Datetime, mode: DateComponent)
    ensures DateDiff(a, b, mode) == -DateDiff(b, a, mode)
    ensures DateDiff(a, a, mode) == 0
  {
    TruncDivNegate(b.date.epoch - a.date.epoch, 7);
  }

  /** dateDiff measures what dateAdd moved: adding n days, months or years
      to a date and taking the difference in that unit gives n back. */
  lemma DateDiffInvertsDateAdd(d: Date, n: int, mode: DateComponent, moved: Result<Date>, t1: Time, t2: Time)
    requires mode in {Days, Months, Years}
    requires Added(d, n, mode, moved) && moved.Success?
    ensures DateDiff(Datetime(d, t1), Datetime(moved.value, t2), mode) == n
  {
  }

  /** dateDiff with a time unit: whole hours, minutes or seconds between the
      wall-clock fields plus whole days; FRACTIONS has no case and gives 0. */
  function TimeDiffIn(lhs: Datetime, rhs: Datetime, mode: TimeComponent): int
  {
    var days := DateDiff(lhs, rhs, Days);
    match mode
    case Hours => rhs.time.hour - lhs.time.hour + days * 24
    case Minutes => rhs.time.minute - lhs.time.minute + ((rhs.time.hour - lhs.time.hour) + days * 24) * 60
    case Seconds => rhs.time.second - lhs.time.second
                    + ((rhs.time.minute - lhs.time.minute) + ((rhs.time.hour - lhs.time.hour) + days * 24) * 60) * 60
    case Fractions => 0
  }

  /** For times whose fields are those of their durations, the SECONDS
      difference is the difference of the instants counted in whole seconds. */
  lemma SecondsDiffIsInstantDiff(lhs: Datetime, rhs: Datetime)
    requires Decomposes(lhs.time) && Decomposes(rhs.time)
    ensures TimeDiffIn(lhs, rhs, Seconds)
         == (rhs.date.epoch * 86400 + rhs.time.duration / MicrosPerSecond)
          - (lhs.date.epoch * 86400 + lhs.time.duration / MicrosPerSecond)
  {
    WholeSeconds(lhs.time);
    WholeSeconds(rhs.time);
  }

  lemma WholeSeconds(t: Time)
    requires Decomposes(t)
    ensures t.duration / MicrosPerSecond == t.hour * 3600 + t.minute * 60 + t.second
  {
    var whole := t.hour * 3600 + t.minute * 60 + t.second;
    FractionWithinSecond(t.fraction, t.precision);
    assert (t.fraction + 1) * Scale(t.precision) == t.fraction * Scale(t.precision) + Scale(t.precision);
    assert whole * MicrosPerSecond <= t.duration < whole * MicrosPerSecond + MicrosPerSecond;
  }

  /** Swapping the operands negates every time difference. */
  lemma TimeDiffInAntisymmetric(a: Datetime, b: Datetime, mode: TimeComponent)
    ensures TimeDiffIn(a, b, mode) == -TimeDiffIn(b, a, mode)
  {
  }

  /** The source's test: from 2020-01-01 to 2021-01-01 is 8784 hours. */
  lemma LeapYearInHours(t: Time)
    ensures TimeDiffIn(Datetime(Date(2020, 1, 1, EpochOf(2020, 1, 1)), t),
                       Datetime(Date(2021, 1, 1, EpochOf(2021, 1, 1)), t), Hours) == 8784
  {
    YearStep(2020);
  }
}
