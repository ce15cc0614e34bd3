/** Times of day (the Time class of datatypes.cpp).  The source keeps the
    duration as a double number of seconds; the model keeps it as an exact
    integer number of microseconds, which represents every value a precision
    of 0 to 6 decimal digits can express. */
module Clock {
  import opened Results
  import opened Numerals
  import opened Ordering

  const MicrosPerSecond: int := 1_000_000
  const MicrosPerMinute: int := 60_000_000
  const MicrosPerHour: int := 3_600_000_000

  /** Hours, minutes, seconds and a fraction counted in units of
      10^-precision seconds; duration in microseconds. */
  datatype Time = Time(hour: int, minute: int, second: int, fraction: int, precision: int, duration: int)

  /** The units timeAdd, timeSub and extract take. */
  datatype TimeComponent = Fractions | Seconds | Minutes | Hours

  /** Precision Time(string) uses when none is given (testsuite.h:563 expects
      6 for "16:05:23"). */
  const StringTimePrecision: int := 6

  /** Microseconds in one fraction unit: 10^(6 - precision). */
  function Scale(precision: int): (s: int)
    requires 0 <= precision <= 6
    ensures s >= 1 && s * Pow10(precision) == MicrosPerSecond
  {
    PowersSplitSecond(precision);
    Pow10(6 - precision)
  }

  lemma PowersSplitSecond(precision: int)
    requires 0 <= precision <= 6
    ensures Pow10(6 - precision) * Pow10(precision) == MicrosPerSecond
  {
    if precision == 0 {
      assert Pow10(6) == 1000000;
    } else if precision == 1 {
      assert Pow10(5) == 100000;
    } else if precision == 2 {
      assert Pow10(4) == 10000 && Pow10(2) == 100;
    } else if precision == 3 {
      assert Pow10(3) == 1000;
    } else if precision == 4 {
      assert Pow10(2) == 100 && Pow10(4) == 10000;
    } else if precision == 5 {
      assert Pow10(5) == 100000;
    } else {
      assert Pow10(6) == 1000000;
    }
  }

  /** timeToDuration: hours, minutes and seconds, plus the fraction only when
      the precision is positive. */
  function ComponentsToDuration(hour: int, minute: int, second: int, fraction: int, precision: int): int
    requires 0 <= precision <= 6
  {
    hour * MicrosPerHour + minute * MicrosPerMinute + second * MicrosPerSecond
      + (if precision > 0 then fraction * Scale(precision) else 0)
  }

  /** enforceTimeInvariants as written: second, minute and hour are only
      bounded above, with > where >= was meant, and the fraction is compared
      as an unsigned number, so a negative one fails. */
  function TimeInvariantsAsWritten(hour: int, minute: int, second: int, fraction: int, precision: int): (ok: bool)
    requires 0 <= precision <= 6
    ensures ok ==> hour <= 24 && minute <= 60 && second <= 60 && 0 <= fraction <= Pow10(precision)
  {
    !(second > 60) && !(minute > 60) && !(hour > 24) && !(fraction < 0 || fraction > Pow10(precision))
  }

  /** The check the model's Time constructors apply: every field in its
      range, the hour up to 24 inclusive. */
  function CheckTime(hour: int, minute: int, second: int, fraction: int, precision: int): (ok: bool)
    requires 0 <= precision <= 6
    ensures ok ==> TimeInvariantsAsWritten(hour, minute, second, fraction, precision)
    ensures ok ==> 0 <= ComponentsToDuration(hour, minute, second, fraction, precision) < 25 * MicrosPerHour
  {
    var ok := 0 <= hour <= 24 && 0 <= minute < 60 && 0 <= second < 60 && 0 <= fraction < Pow10(precision);
    if ok then FractionWithinSecond(fraction, precision); ok else ok
  }

  lemma FractionWithinSecond(fraction: int, precision: int)
    requires 0 <= precision <= 6 && 0 <= fraction < Pow10(precision)
    ensures 0 <= fraction * Scale(precision) <= MicrosPerSecond - Scale(precision)
  {
    MultipleBelow(fraction, Pow10(precision), Scale(precision));
  }

  /** The fields of t are the duration's hours, minutes, seconds and fraction
      (the fraction truncated to the precision), as durationToTime derives
      them. */
  predicate Decomposes(t: Time)
  {
    0 <= t.precision <= 6
    && 0 <= t.hour && 0 <= t.minute < 60 && 0 <= t.second < 60 && 0 <= t.fraction < Pow10(t.precision)
    && t.hour * MicrosPerHour + t.minute * MicrosPerMinute + t.second * MicrosPerSecond + t.fraction * Scale(t.precision)
       <= t.duration
       < t.hour * MicrosPerHour + t.minute * MicrosPerMinute + t.second * MicrosPerSecond + (t.fraction + 1) * Scale(t.precision)
  }

  /** Time(hour, minute, second, fraction, precision) as written. */
  function MakeTimeAsWritten(hour: int, minute: int, second: int, fraction: int, precision: int): (r: Result<Time>)
    requires 0 <= precision <= 6
    ensures r.Success? <==> TimeInvariantsAsWritten(hour, minute, second, fraction, precision)
    ensures r.Success? ==> r.value.duration == ComponentsToDuration(hour, minute, second, fraction, precision)
  {
    if TimeInvariantsAsWritten(hour, minute, second, fraction, precision)
    then Success(Time(hour, minute, second, fraction, precision, ComponentsToDuration(hour, minute, second, fraction, precision)))
    else Failure(InvalidTime)
  }

  /** Time(hour, minute, second, fraction, precision) with the corrected
      check: the stored fields are exactly the fields of the duration. */
  function MakeTime(hour: int, minute: int, second: int, fraction: int, precision: int): (r: Result<Time>)
    requires 0 <= precision <= 6
    ensures r.Success? <==> CheckTime(hour, minute, second, fraction, precision)
    ensures r.Success? ==> r.value.hour == hour && r.value.minute == minute && r.value.second == second
    ensures r.Success? ==> r.value.fraction == fraction && r.value.precision == precision
    ensures r.Success? ==> Decomposes(r.value)
  {
    if CheckTime(hour, minute, second, fraction, precision) then
      FractionWithinSecond(fraction, precision);
      Success(Time(hour, minute, second, fraction, precision, ComponentsToDuration(hour, minute, second, fraction, precision)))
    else Failure(InvalidTime)
  }

  /** Time(precision): midnight.  The source leaves the fraction unset; the
      model sets it to 0. */
  function Midnight(precision: int): (t: Time)
    requires 0 <= precision <= 6
    ensures Decomposes(t) && t.duration == 0 && t.precision == precision
  {
    Time(0, 0, 0, 0, precision, 0)
  }

  /** Time(duration, precision): durationToTime, then the check; only the
      hour can be out of range. */
  function DurationToTime(duration: int, precision: int): (r: Result<Time>)
    requires duration >= 0 && 0 <= precision <= 6
    ensures r.Success? <==> duration < 25 * MicrosPerHour
    ensures r.Failure? ==> r.error == InvalidTime
    ensures r.Success? ==> r.value.duration == duration && r.value.precision == precision && Decomposes(r.value)
  {
    var hour := duration / MicrosPerHour;
    var afterHours := duration - hour * MicrosPerHour;
    var minute := afterHours / MicrosPerMinute;
    var afterMinutes := afterHours - minute * MicrosPerMinute;
    var second := afterMinutes / MicrosPerSecond;
    var afterSeconds := afterMinutes - second * MicrosPerSecond;
    var fraction := afterSeconds / Scale(precision);
    DurationFields(duration, precision);
    var t := Time(hour, minute, second, fraction, precision, duration);
    if CheckTime(hour, minute, second, fraction, precision) then Success(t) else Failure(InvalidTime)
  }

  /** The fields durationToTime derives from a duration: each within its
      range but the hour, and together the duration to within one fraction
      unit. */
  lemma DurationFields(duration: int, precision: int)
    requires duration >= 0 && 0 <= precision <= 6
    ensures var hour := duration / MicrosPerHour;
      var afterHours := duration - hour * MicrosPerHour;
      var minute := afterHours / MicrosPerMinute;
      var afterMinutes := afterHours - minute * MicrosPerMinute;
      var second := afterMinutes / MicrosPerSecond;
      var afterSeconds := afterMinutes - second * MicrosPerSecond;
      var fraction := afterSeconds / Scale(precision);
      && 0 <= hour && (hour <= 24 <==> duration < 25 * MicrosPerHour)
      && 0 <= minute < 60 && 0 <= second < 60 && 0 <= fraction < Pow10(precision)
      && Decomposes(Time(hour, minute, second, fraction, precision, duration))
  {
    var hour := duration / MicrosPerHour;
    var afterHours := duration - hour * MicrosPerHour;
    var minute := afterHours / MicrosPerMinute;
    var afterMinutes := afterHours - minute * MicrosPerMinute;
    var second := afterMinutes / MicrosPerSecond;
    var afterSeconds := afterMinutes - second * MicrosPerSecond;
    var s := Scale(precision);
    var fraction := afterSeconds / s;
    assert 0 <= afterHours < MicrosPerHour;
    assert 0 <= afterMinutes < MicrosPerMinute;
    assert 0 <= afterSeconds < MicrosPerSecond;
    FractionBound(afterSeconds, precision);
    assert fraction * s <= afterSeconds < (fraction + 1) * s;
  }

  lemma FractionBound(micros: int, precision: int)
    requires 0 <= micros < MicrosPerSecond && 0 <= precision <= 6
    ensures 0 <= micros / Scale(precision) < Pow10(precision)
    ensures (micros / Scale(precision)) * Scale(precision) <= micros < (micros / Scale(precision) + 1) * Scale(precision)
  {
    DivisionBounds(micros, Scale(precision), Pow10(precision));
  }

  /** The quotient of a non-negative m below s * p by s lies below p, and m
      lies within one s above the quotient's multiple. */
  lemma DivisionBounds(m: int, s: int, p: int)
    requires s > 0 && 0 <= m < s * p
    ensures 0 <= m / s < p
    ensures (m / s) * s <= m < (m / s + 1) * s
  {
    var q := m / s;
    assert m == q * s + m % s;
    assert (q + 1) * s == q * s + s;
  }

  /** Scale and Pow10 at each supported precision, so that division by them
      is division by a constant. */
  lemma ScaleTable(precision: int)
    requires 0 <= precision <= 6
    ensures precision == 0 ==> Scale(precision) == 1000000 && Pow10(precision) == 1
    ensures precision == 1 ==> Scale(precision) == 100000 && Pow10(precision) == 10
    ensures precision == 2 ==> Scale(precision) == 10000 && Pow10(precision) == 100
    ensures precision == 3 ==> Scale(precision) == 1000 && Pow10(precision) == 1000
    ensures precision == 4 ==> Scale(precision) == 100 && Pow10(precision) == 10000
    ensures precision == 5 ==> Scale(precision) == 10 && Pow10(precision) == 100000
    ensures precision == 6 ==> Scale(precision) == 1 && Pow10(precision) == 1000000
  {
    assert Pow10(6) == 1000000;
  }

  lemma DivByScale(a: int, precision: int, q: int, r: int)
    requires 0 <= precision <= 6 && a == Scale(precision) * q + r && 0 <= r < Scale(precision)
    ensures a / Scale(precision) == q
  {
    ScaleTable(precision);
  }

  /** durationToTime inverts timeToDuration: a time that passes the
      corrected check is rebuilt exactly from its duration (the round trip
      the design requires at a fixed precision). */
  lemma TimeDurationRoundTrip(hour: int, minute: int, second: int, fraction: int, precision: int)
    requires 0 <= precision <= 6 && CheckTime(hour, minute, second, fraction, precision)
    ensures DurationToTime(ComponentsToDuration(hour, minute, second, fraction, precision), precision)
         == MakeTime(hour, minute, second, fraction, precision)
  {
    ComponentsDivide(hour, minute, second, fraction, precision);
  }

  /** durationToTime's divisions recover the components of a checked time. */
  lemma ComponentsDivide(hour: int, minute: int, second: int, fraction: int, precision: int)
    requires 0 <= precision <= 6 && CheckTime(hour, minute, second, fraction, precision)
    ensures var d := ComponentsToDuration(hour, minute, second, fraction, precision);
      var h := d / MicrosPerHour;
      var afterHours := d - h * MicrosPerHour;
      var m := afterHours / MicrosPerMinute;
      var afterMinutes := afterHours - m * MicrosPerMinute;
      var sec := afterMinutes / MicrosPerSecond;
      var afterSeconds := afterMinutes - sec * MicrosPerSecond;
      h == hour && m == minute && sec == second && afterSeconds / Scale(precision) == fraction
  {
    var s := Scale(precision);
    var f := if precision > 0 then fraction * s else 0;
    FractionWithinSecond(fraction, precision);
    assert 0 <= f < MicrosPerSecond;
    var d := ComponentsToDuration(hour, minute, second, fraction, precision);
    var belowHour := minute * MicrosPerMinute + second * MicrosPerSecond + f;
    var belowMinute := second * MicrosPerSecond + f;
    assert 0 <= belowMinute < MicrosPerMinute;
    assert 0 <= belowHour < MicrosPerHour;
    assert d == hour * MicrosPerHour + belowHour;
    DivExact(d, MicrosPerHour, hour, belowHour);
    DivExact(belowHour, MicrosPerMinute, minute, belowMinute);
    DivExact(belowMinute, MicrosPerSecond, second, f);
    if precision > 0 {
      DivByScale(f, precision, fraction, 0);
    } else {
      assert fraction == 0;
      assert f / s == 0;
    }
  }

  /** Under the check as written, 60 seconds is accepted, and the resulting
      time has the duration of 00:01:00, from which durationToTime rebuilds
      00:01:00 rather than 00:00:60. */
  lemma SecondSixtyAccepted()
    ensures TimeInvariantsAsWritten(0, 0, 60, 0, 0) && !CheckTime(0, 0, 60, 0, 0)
    ensures ComponentsToDuration(0, 0, 60, 0, 0) == ComponentsToDuration(0, 1, 0, 0, 0) == 60 * MicrosPerSecond
    ensures DurationToTime(60 * MicrosPerSecond, 0) == Success(Time(0, 1, 0, 0, 0, 60 * MicrosPerSecond))
  {
  }

  /** The duration timeAdd adds for n units: FRACTIONS are units of
      10^-precision seconds. */
  function Delta(n: int, mode: TimeComponent, precision: int): int
    requires 0 <= precision <= 6
  {
    match mode
    case Fractions => n * Scale(precision)
    case Seconds => n * MicrosPerSecond
    case Minutes => n * MicrosPerMinute
    case Hours => n * MicrosPerHour
  }

  /** Time::timeAdd: the duration grows by the delta and the fields are
      derived again; there is no wrap-around at 24 hours, so the result fails
      only once it reaches 25 hours.  A negative new duration is undefined
      behaviour in the source and is excluded. */
  function TimeAdd(t: Time, n: int, mode: TimeComponent): (r: Result<Time>)
    requires 0 <= t.precision <= 6
    requires t.duration + Delta(n, mode, t.precision) >= 0
    ensures r.Success? <==> t.duration + Delta(n, mode, t.precision) < 25 * MicrosPerHour
    ensures r.Success? ==> r.value.duration == t.duration + Delta(n, mode, t.precision)
    ensures r.Success? ==> r.value.precision == t.precision && Decomposes(r.value)
  {
    DurationToTime(t.duration + Delta(n, mode, t.precision), t.precision)
  }

  /** Time::timeSub: timeAdd by the negated amount. */
  function TimeSub(t: Time, n: int, mode: TimeComponent): (r: Result<Time>)
    requires 0 <= t.precision <= 6
    requires t.duration - Delta(n, mode, t.precision) >= 0
    ensures r.Success? <==> t.duration - Delta(n, mode, t.precision) < 25 * MicrosPerHour
    ensures r.Success? ==> r.value.duration == t.duration - Delta(n, mode, t.precision)
    ensures r.Success? ==> r.value.precision == t.precision && Decomposes(r.value)
  {
    assert Delta(-n, mode, t.precision) == -Delta(n, mode, t.precision);
    TimeAdd(t, -n, mode)
  }

  /** timeSub undoes timeAdd: the duration comes back to where it started. */
  lemma TimeSubUndoesTimeAdd(t: Time, n: int, mode: TimeComponent)
    requires 0 <= t.duration < 25 * MicrosPerHour && 0 <= t.precision <= 6
    requires t.duration + Delta(n, mode, t.precision) >= 0
    requires TimeAdd(t, n, mode).Success?
    ensures TimeSub(TimeAdd(t, n, mode).value, n, mode).Success?
    ensures TimeSub(TimeAdd(t, n, mode).value, n, mode).value.duration == t.duration
  {
  }

  /** Time::timeDiff: a Time of the absolute difference of the durations.
      Its precision is the constructor's default, which is declared in a
      header that is not part of this model, so it is a parameter here. */
  function TimeDiff(lhs: Time, rhs: Time, precision: int): (r: Result<Time>)
    requires 0 <= precision <= 6
    ensures r.Success? <==> -25 * MicrosPerHour < lhs.duration - rhs.duration < 25 * MicrosPerHour
    ensures r.Success? ==> r.value.duration >= 0 && Decomposes(r.value)
    ensures r.Success? ==> r.value.duration == lhs.duration - rhs.duration || r.value.duration == rhs.duration - lhs.duration
  {
    var difference := lhs.duration - rhs.duration;
    DurationToTime(if difference < 0 then -difference else difference, precision)
  }

  /** timeDiff does not depend on the order of its operands. */
  lemma TimeDiffSymmetric(a: Time, b: Time, precision: int)
    requires 0 <= precision <= 6
    ensures TimeDiff(a, b, precision) == TimeDiff(b, a, precision)
  {
  }

  /** Time::extract.  FRACTIONS is scaled to microseconds, so times of
      different precision can be compared by it. */
  function TimeExtract(t: Time, mode: TimeComponent): (value: int)
    requires 0 <= t.precision <= 6
    ensures mode == Fractions && Decomposes(t) ==>
      value <= t.duration % MicrosPerSecond < value + Scale(t.precision)
  {
    match mode
    case Fractions =>
      if Decomposes(t) then
        ExtractedFraction(t);
        t.fraction * Scale(t.precision)
      else t.fraction * Scale(t.precision)
    case Seconds => t.second
    case Minutes => t.minute
    case Hours => t.hour
  }

  lemma ExtractedFraction(t: Time)
    requires Decomposes(t)
    ensures t.fraction * Scale(t.precision) <= t.duration % MicrosPerSecond < t.fraction * Scale(t.precision) + Scale(t.precision)
  {
    var s := Scale(t.precision);
    FractionWithinSecond(t.fraction, t.precision);
    var whole := t.hour * 3600 + t.minute * 60 + t.second;
    var below := t.duration - whole * MicrosPerSecond;
    assert (t.fraction + 1) * s == t.fraction * s + s;
    assert t.fraction * s <= below < t.fraction * s + s <= MicrosPerSecond;
    DivExact(t.duration, MicrosPerSecond, whole, below);
  }

  /** The six Time operators compare the durations alone. */
  predicate TimeCompare(lhs: Time, rhs: Time, op: CompareOp)
  {
    IntCompare(lhs.duration, rhs.duration, op)
  }

  /** Test cases of the source: 10:59:58 plus 14 hours is 24:59:58, with no
      wrap-around, and plus 3 seconds rolls the minute over. */
  lemma TimeAddExamples()
    ensures MakeTime(10, 59, 58, 0, 0) == Success(Time(10, 59, 58, 0, 0, 39598000000))
    ensures TimeAdd(Time(10, 59, 58, 0, 0, 39598000000), 14, Hours) == Success(Time(24, 59, 58, 0, 0, 89998000000))
    ensures TimeAdd(Time(10, 59, 58, 0, 0, 39598000000), 3, Seconds) == Success(Time(11, 0, 1, 0, 0, 39601000000))
  {
    ScaleTable(0);
    AddHoursExample();
    AddSecondsExample();
  }

  lemma AddHoursExample()
    ensures TimeAdd(Time(10, 59, 58, 0, 0, 39598000000), 14, Hours) == Success(Time(24, 59, 58, 0, 0, 89998000000))
  {
    ScaleTable(0);
    DivExact(89998000000, MicrosPerHour, 24, 3598000000);
    DivExact(3598000000, MicrosPerMinute, 59, 58000000);
    DivExact(58000000, MicrosPerSecond, 58, 0);
    DivExact(0, 1000000, 0, 0);
  }

  lemma AddSecondsExample()
    ensures TimeAdd(Time(10, 59, 58, 0, 0, 39598000000), 3, Seconds) == Success(Time(11, 0, 1, 0, 0, 39601000000))
  {
    ScaleTable(0);
    DivExact(39601000000, MicrosPerHour, 11, 1000000);
    DivExact(1000000, MicrosPerMinute, 0, 1000000);
    DivExact(1000000, MicrosPerSecond, 1, 0);
    DivExact(0, 1000000, 0, 0);
  }

  // ---------------------------------------------------------------------
  // Text

  /** operator<< for a Time: "HH:MM:SS", then a point and the fraction
      zero-filled to the precision when the precision is positive. */
  function FormatTime(t: Time): string
  {
    PadLeft(IntToString(t.hour), 2, '0') + ":" + (PadLeft(IntToString(t.minute), 2, '0') + ":" + SecondsText(t))
  }

  /** Index of the first occurrence of c, or |s| when there is none (std::find). */
  function FindChar(s: string, c: char): (i: nat)
    ensures i <= |s| && (i < |s| ==> s[i] == c)
    ensures forall k :: 0 <= k < i ==> s[k] != c
  {
    if s == [] then 0 else if s[0] == c then 0 else 1 + FindChar(s[1..], c)
  }

  /** The first `precision` digits of a fraction's digit string, zero-filled
      on the right: (int)(fraction * 10^precision). */
  function FractionDigits(digits: string, precision: nat): (v: int)
    requires AllDigits(digits)
    ensures 0 <= v < Pow10(precision)
  {
    if precision == 0 then 0
    else
      var first := if digits == [] then 0 else DigitValue(digits[0]);
      var rest := if digits == [] then [] else digits[1..];
      var tail := FractionDigits(rest, precision - 1);
      PlaceValue(first, Pow10(precision - 1), tail);
      first * Pow10(precision - 1) + tail
  }

  /** stod on the seconds text, for the form digits [ '.' digits ] after
      optional white space: the whole seconds and the fraction at the given
      precision. */
  function ParseSeconds(text: string, precision: nat): (r: Option<(int, int)>)
  {
    var t := text[SpaceRun(text)..];
    var k := DigitRun(t);
    if k == 0 then None
    else
      var rest := t[k..];
      var fractionText := if |rest| > 0 && rest[0] == '.' then rest[1..][..DigitRun(rest[1..])] else [];
      Some((DigitsValue(t[..k]), FractionDigits(fractionText, precision)))
  }

  /** The fields Time(string, precision) reads from "H:M:S[.F]": stoi before
      the first colon, stoi between the colons, stod after the second.  A
      text without two colons is undefined behaviour in the source, and the
      model rejects it. */
  function ParseHms(text: string, precision: int): (r: Result<(int, int, int, int)>)
    requires 0 <= precision <= 6
  {
    var first := FindChar(text, ':');
    if first == |text| then Failure(BadTimeString)
    else
      var afterFirst := text[first + 1..];
      var second := FindChar(afterFirst, ':');
      if second == |afterFirst| then Failure(BadTimeString)
      else
        match (StoI(text[..first]), StoI(afterFirst[..second]), ParseSeconds(afterFirst[second + 1..], precision))
        case (Some(h), Some(m), Some((s, f))) => Success((h, m, s, f))
        case _ => Failure(BadTimeString)
  }

  /** Time(string, precision): parse, then build from the components. */
  function TimeFromString(text: string, precision: int): (r: Result<Time>)
    requires 0 <= precision <= 6
    ensures ParseHms(text, precision).Failure? ==> r == Failure(BadTimeString)
    ensures ParseHms(text, precision).Success? ==>
      var (h, m, s, f) := ParseHms(text, precision).value;
      r == MakeTime(h, m, s, f, precision)
  {
    match ParseHms(text, precision)
    case Failure(_) => Failure(BadTimeString)
    case Success((h, m, s, f)) => MakeTime(h, m, s, f, precision)
  }

  lemma {:induction false} FractionDigitsOfPadded(v: nat, precision: nat)
    requires 1 <= precision && v < Pow10(precision)
    ensures AllDigits(PadLeft(NatToString(v), precision, '0'))
    ensures |PadLeft(NatToString(v), precision, '0')| == precision
    ensures FractionDigits(PadLeft(NatToString(v), precision, '0'), precision) == v
  {
    NatToStringDigits(v);
    NatToStringLength(v, precision);
    var s := NatToString(v);
    var p := PadLeft(s, precision, '0');
    LeadingZerosValue(precision - |s|, s);
    assert p == Repeat('0', precision - |s|) + s;
    FractionDigitsOfDigits(p);
  }

  /** Reading exactly `|s|` digits back gives their value. */
  lemma {:induction false} FractionDigitsOfDigits(s: string)
    requires AllDigits(s)
    ensures FractionDigits(s, |s|) == DigitsValue(s)
    decreases |s|
  {
    if s != [] {
      FractionDigitsOfDigits(s[1..]);
      DigitsValueSplit(s);
    }
  }

  /** The value of a digit string, split after its first digit. */
  lemma {:induction false} DigitsValueSplit(s: string)
    requires |s| >= 1 && AllDigits(s)
    ensures DigitsValue(s) == DigitValue(s[0]) * Pow10(|s| - 1) + DigitsValue(s[1..])
    decreases |s|
  {
    if |s| > 1 {
      var init := s[..|s| - 1];
      DigitsValueSplit(init);
      assert init[1..] == s[1..][..|s[1..]| - 1];
      assert init[0] == s[0];
      var d := DigitValue(s[0]);
      var p := Pow10(|s| - 2);
      var x := DigitsValue(init[1..]);
      var e := DigitValue(s[|s| - 1]);
      assert DigitsValue(s) == DigitsValue(init) * 10 + e;
      assert DigitsValue(init) == d * p + x;
      assert DigitsValue(s[1..]) == x * 10 + e;
      assert Pow10(|s| - 1) == 10 * p;
      ShiftPlace(d, p, x, e);
    }
  }

  lemma {:induction false} FindCharAfter(a: string, c: char, b: string)
    requires forall k :: 0 <= k < |a| ==> a[k] != c
    ensures FindChar(a + [c] + b, c) == |a|
    decreases |a|
  {
    if a != [] {
      assert (a + [c] + b)[1..] == a[1..] + [c] + b;
      FindCharAfter(a[1..], c, b);
    }
  }

  lemma {:induction false} DigitRunStops(digits: string, rest: string)
    requires AllDigits(digits) && (rest == [] || !IsDigit(rest[0]))
    ensures DigitRun(digits + rest) == |digits|
    decreases |digits|
  {
    if digits != [] {
      assert (digits + rest)[1..] == digits[1..] + rest;
      DigitRunStops(digits[1..], rest);
    } else {
      assert digits + rest == rest;
    }
  }

  /** A two-digit, zero-filled field of a rendered time. */
  lemma TwoDigitField(n: int)
    requires 0 <= n < 100
    ensures |PadLeft(IntToString(n), 2, '0')| == 2 && AllDigits(PadLeft(IntToString(n), 2, '0'))
    ensures StoI(PadLeft(IntToString(n), 2, '0')) == Some(n)
  {
    NatToStringDigits(n);
    NatToStringLength(n, 2);
    LeadingZerosValue(2 - |NatToString(n)|, NatToString(n));
    assert PadLeft(NatToString(n), 2, '0') == Repeat('0', 2 - |NatToString(n)|) + NatToString(n);
    ParsePadded(n, 2);
  }

  /** The seconds-and-fraction tail of a rendered time. */
  function SecondsText(t: Time): string
  {
    PadLeft(IntToString(t.second), 2, '0')
      + (if t.precision > 0 then "." + PadLeft(IntToString(t.fraction), t.precision, '0') else "")
  }

  lemma SecondsRoundTrip(t: Time)
    requires 0 <= t.precision <= 6 && CheckTime(t.hour, t.minute, t.second, t.fraction, t.precision)
    ensures ParseSeconds(SecondsText(t), t.precision) == Some((t.second, t.fraction))
  {
    var ss := PadLeft(IntToString(t.second), 2, '0');
    TwoDigitField(t.second);
    var tail := if t.precision > 0 then "." + PadLeft(IntToString(t.fraction), t.precision, '0') else "";
    var secondsText := SecondsText(t);
    assert secondsText == ss + tail;
    assert SpaceRun(secondsText) == 0 by {
      assert IsDigit(secondsText[0]);
    }
    assert secondsText[SpaceRun(secondsText)..] == secondsText;
    DigitRunStops(ss, tail);
    assert secondsText[..2] == ss && secondsText[2..] == tail;
    StoIOfDigits(ss);
    if t.precision > 0 {
      var fs := PadLeft(IntToString(t.fraction), t.precision, '0');
      FractionDigitsOfPadded(t.fraction, t.precision);
      assert tail[1..] == fs;
      DigitRunAll(fs);
      assert fs[..|fs|] == fs;
    }
  }

  /** Rendering a checked time and reading the text back at the same
      precision gives the same fields: operator<< and Time(string) are
      inverse. */
  lemma FormatTimeRoundTrip(t: Time)
    requires 0 <= t.precision <= 6 && CheckTime(t.hour, t.minute, t.second, t.fraction, t.precision)
    ensures ParseHms(FormatTime(t), t.precision) == Success((t.hour, t.minute, t.second, t.fraction))
  {
    var hs := PadLeft(IntToString(t.hour), 2, '0');
    var ms := PadLeft(IntToString(t.minute), 2, '0');
    TwoDigitField(t.hour);
    TwoDigitField(t.minute);
    SecondsRoundTrip(t);
    ParseHmsOfFields(hs, ms, SecondsText(t), t.precision);
  }

  /** "HH:MM:" followed by the seconds text is read field by field. */
  lemma ParseHmsOfFields(hs: string, ms: string, rest: string, precision: int)
    requires 0 <= precision <= 6
    requires |hs| == 2 && AllDigits(hs) && |ms| == 2 && AllDigits(ms)
    requires StoI(hs).Some? && StoI(ms).Some? && ParseSeconds(rest, precision).Some?
    ensures ParseHms(hs + ":" + (ms + ":" + rest), precision)
         == Success((StoI(hs).value, StoI(ms).value, ParseSeconds(rest, precision).value.0, ParseSeconds(rest, precision).value.1))
  {
    ColonField(hs, ms + ":" + rest);
    ColonField(ms, rest);
  }

  /** A two-digit field and its colon, followed by the rest of the text. */
  lemma ColonField(field: string, rest: string)
    requires |field| == 2 && AllDigits(field)
    ensures var text := field + ":" + rest;
      FindChar(text, ':') == 2 && text[..2] == field && text[3..] == rest
  {
    var text := field + ":" + rest;
    assert text == field + [':'] + rest;
    assert forall k :: 0 <= k < |field| ==> field[k] != ':' by {
      assert forall k :: 0 <= k < |field| ==> IsDigit(field[k]);
    }
    FindCharAfter(field, ':', rest);
    assert text[..2] == field;
    assert text[3..] == rest;
  }

  /** Hence Time(string) applied to the rendering of a checked time rebuilds
      that time. */
  lemma TimeTextRoundTrip(t: Time)
    requires 0 <= t.precision <= 6 && CheckTime(t.hour, t.minute, t.second, t.fraction, t.precision)
    ensures TimeFromString(FormatTime(t), t.precision) == MakeTime(t.hour, t.minute, t.second, t.fraction, t.precision)
  {
    FormatTimeRoundTrip(t);
  }
}
