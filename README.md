# C-QL core in Dafny

C-QL is a small in-memory SQL engine written in C++. This project models its
core and proves properties of the model:

- **Value types.** `Date` is a proleptic Gregorian date carrying a day
  count. 0001-01-01 is epoch 1.
  - `dateToEpoch` and `epochToDate` convert between fields and epoch.
  - `dateAdd` and `dateSub` move a date by days, weeks, months, quarters
    or years.
  - `extract` reads one component.
  - The text forms are `YYYY-MM-DD`.
- **Time, Datetime and the character types.**
  - `Time` is a time of day with a fractional precision (0 to 6 digits).
  - `Datetime` pairs a Date with a Time.
  - The character types are `Varchar` and `SQLChar` (CHAR, padded with
    spaces).
  - The cell variant `Types` comes with `getType`, `getString` and
    `isNull`.
- **Column.** A `Column` holds one typed column of cells and its
  `ColumnConstraints`.
  - Storage: signed indexing, `push`, `update`, `erase`, `bulkErase` and
    `bulkUpdate`.
  - Checks: the per-cell check (`enforceCellContraint`) and the
    whole-column check.
  - Per-cell string functions: `length`, `concat`, `upper`, `lower`,
    `initCap`, `substring`, `trim`, `replace`, `left` and `right`.
  - `nullIf`, `coalesce`, `count` and `stringAggregate`.
- **Legacy Table.** The `Table` class of the column module keeps named
  columns, the insertion order and the row count. Its validity checks say
  that every column has `numRows` cells.
- **Table and aliases.** The `Alias`/`Aliases` registry of column names,
  and the `Table` map of columns:
  - `addColumn`, `deleteColumn` and `renameColumn`;
  - `commaSeparatedToColumn`, which reads a column from comma-separated
    text.

The modules follow the program's structure:

| module | contents |
|---|---|
| `Results` | Option, Result and the fault reasons. Each `exit()` of the source becomes a `Failure`. |
| `CppInt` | C++ truncating `/` and `%`. |
| `Numerals` | `std::to_string`, `setw`/`setfill` padding, `stoi`. |
| `Ordering` | The comparison operators and `std::string` ordering. |
| `Calendar` | Date. |
| `Clock` | Time. |
| `Datetimes` | Datetime and `dateDiff`. |
| `Cells` | The `Types` variant and the character types. |
| `Strings` | The per-text string functions. |
| `Columns` | The `Column` class. |
| `LegacyTables` | The legacy Table. |
| `Tables` | Alias, Aliases and Table. |

The imperative parts of the source stay imperative in the model:
- the epoch loops;
- the per-character case loops;
- the trim, replace and aggregate loops;
- the Column, Table and Aliases mutators;
- the in-place descending sort of `bulkErase`;
- the comma-splitting loop.

Each of these is a method proved against a specification function, and the
properties are proved about those functions.

### Where the model departs from a plain reading

- **Time durations are integer microseconds, not `double`.** Every
  precision the source accepts (0 to 6) then has an exact duration, and
  `FRACTIONS` are units of 10^-precision seconds.
- **`right(k)` drops the last k characters, as written.** It keeps the
  first |s|-k characters (`column.cpp:529`), and the model does the same.
- **`dateDiff` in QUARTERS is modelled as written, with `month / 4`.**
- **A CHAR compared with a CHAR uses the padded values.** Against a string
  or a Varchar, it uses the unpadded value. Several lemmas show what
  follows: CHAR equality is not transitive.
- **`renameColumn(a, a)` deletes `a`, as the source's swap-then-erase
  does.**
- **Year 0 passes the date check**, but the truncating leap-year count
  gives 0000-12-31 the epoch of 0001-01-01. The model keeps this and
  states it (`Calendar.YearZeroCollides`).
- **Cell equality under a uniqueness constraint is a parameter (`same`).**
  The Types comparator's body is not part of this model. `nullIf` uses its
  own visible rule (`Cells.NullIfEqual`).
- **`convertToVariant` is a parameter.** So is the rendering of a real
  number.
- **`daysPerMonth` is `[31, 28, 31, 30, 31, 30, 31, 31, 30, 31, 30, 31]`** —
  the table that the source's test table of epochs implies.

## Model

| member | source | states |
|---|---|---|
| CppInt.TruncDiv | datatypes.cpp:268-278 | C++ division truncates toward zero: the quotient is the floor for a non-negative dividend and the ceiling for a negative one |
| CppInt.TruncMod | datatypes.cpp:330-362 | C++ remainder: dividend = divisor * truncated quotient + remainder, and the remainder takes the dividend's sign |
| CppInt.TruncDivNegate | datatypes.cpp:664-667 | truncating division is odd: negating the dividend negates the quotient (the fact weeks-dateDiff antisymmetry needs) |
| Numerals.PadLeft | datatypes.cpp:718-728 | setw/setfill writes the text right-aligned, fill characters before it up to the width, and the text unchanged when it is already wide enough |
| Numerals.NatToStringDigits | datatypes.cpp:718-728 | std::to_string of a natural is a non-empty digit string whose value is the number |
| Numerals.ParsePadded | datatypes.cpp:164-176 | stoi of a zero-filled rendering of n gives n back, whatever the width |
| Numerals.StoIOfDigits | datatypes.cpp:164-176 | stoi of a non-empty digit string is its decimal value |
| Ordering.LexTransitive | datatypes.cpp:920-922 | std::string operator< is transitive |
| Ordering.StringCompare | datatypes.cpp:912-934 | the six std::string operators: == and != on the characters, < as the lexicographic order, and >, <=, >= derived from it |
| Ordering.LexTrichotomy | datatypes.cpp:920-922 | for two strings, they are equal or one is lexicographically smaller |
| Ordering.StringCompareIsTotalOrder | datatypes.cpp:912-934 | exactly one of <, ==, > holds between two texts, and <=, >=, != are what their names say |
| Calendar.DateInvariantsAsWritten | datatypes.cpp:284-308 | enforceDateInvariants as written: passing it implies month 1..12 and day 0..month length (day 0 included) |
| Calendar.CheckDate | datatypes.cpp:284-308 | the corrected date check holds exactly for years 0..9999 and a day that exists in that month, February leap-adjusted, and every date it passes also passes the check as written |
| Calendar.DayZeroAccepted | datatypes.cpp:284-308 | the as-written check admits 2024-03-00, whose epoch is that of 2024-02-29, and the corrected check rejects it |
| Calendar.DayZeroAliasesPreviousDay | datatypes.cpp:178-197 | for every valid year and month from 2 to 12, day 0 passes the as-written check and shares its epoch with the previous month's last day |
| Calendar.YearZeroCollides | datatypes.cpp:268-278 | year 0 passes the check, but 0000-12-31 and 0001-01-01 both get epoch 1 |
| Calendar.YearStep | datatypes.cpp:268-278 | each year from 1 on adds its own length (366 exactly in leap years) to the days before it, so the truncating leap-day count agrees with the leap rule |
| Calendar.ConsecutiveDays | datatypes.cpp:178-197 | consecutive calendar days get consecutive epochs, across month and year ends |
| Calendar.EpochWithinYear | datatypes.cpp:178-197 | a date's epoch lies after all days of earlier years and within its own year's length |
| Calendar.EpochOrderIsCalendarOrder | datatypes.cpp:178-197 | from year 1 on, epoch order is exactly the lexicographic order of (year, month, day) |
| Calendar.EpochOfInjective | datatypes.cpp:178-197 | different valid dates from year 1 on have different epochs |
| Calendar.FromEpochUnique | datatypes.cpp:200-255 | the epoch determines the fields epochToDate produces |
| Calendar.DateEpochRoundTrip | datatypes.cpp:200-255 | epochToDate(dateToEpoch(y, m, d)) gives back (y, m, d) for every valid date from year 1 on |
| Calendar.EpochTable | datatypes.cpp:178-197 | the epochs of the source's test table: 0001-01-01 is 1, 1900-03-01 is 693655, 2000-02-29 is 730179, 2024-02-29 is 738945, 9999-12-31 is 3652059, and others |
| Calendar.DateToEpoch | datatypes.cpp:178-197 | the month loop computes the epoch of the year, month and day |
| Calendar.EpochToDate | datatypes.cpp:200-255 | the year and month loops produce fields whose epoch is the input: a valid date for a positive epoch, the epoch as day of January of year 1 otherwise |
| Calendar.PeelYears | datatypes.cpp:205-210 | the year loop stops at the year the epoch falls in, with 1..366 days left for a positive epoch |
| Calendar.PeelMonths | datatypes.cpp:239-253 | the month loop turns a day of the year into a valid month and day whose preceding months and leap day add up to it |
| Calendar.NewDate | datatypes.cpp:153-157 | Date(y, m, d) under the corrected check (day from 1): succeeds exactly when that check passes, and then stores the fields and their epoch |
| Calendar.DateFromEpoch | datatypes.cpp:159-161 | Date(epoch) keeps the epoch and derives the fields epochToDate gives |
| Calendar.ParseYmd | datatypes.cpp:164-176 | a text not ten characters long is rejected; the fields are stoi of characters 0-3, 5-6 and 8-9 |
| Calendar.DateFromString | datatypes.cpp:164-176 | Date(string) fails on an unreadable text and otherwise succeeds exactly when the fields read pass the corrected date check |
| Calendar.FormatDateRoundTrip | datatypes.cpp:718-728 | rendering a checked date as YYYY-MM-DD and reading it back gives its fields |
| Calendar.FormatDate | datatypes.cpp:718-728 | operator<< writes year, month and day zero-filled to widths 4, 2 and 2, joined by - (read back by FormatDateRoundTrip) |
| Calendar.AddMonths | datatypes.cpp:330-362 | months and quarters move 12 * year + month by exactly n, keep the month in 1..12 and clamp the day to the new month's length |
| Calendar.DateAdd | datatypes.cpp:310-381 | dateAdd: days move the epoch by n, weeks by 7n, months by n months, quarters by 3n months, years by n years (Feb 29 to Feb 28 off leap years); months, quarters and years first apply the corrected check to the starting date; the result lands on a calendar date and is not re-checked |
| Calendar.DateSub | datatypes.cpp:383-385 | dateSub(n, unit) is dateAdd(-n, unit) for every unit |
| Calendar.AddedIsDeterministic | datatypes.cpp:310-381 | dateAdd's specification admits one result only |
| Calendar.AddedIsCalendarDate | datatypes.cpp:310-381 | every successful dateAdd lands on a real calendar date |
| Calendar.DateAddExamples | datatypes.cpp:330-377 | Jan 31 + 1 month is Feb 28 or Feb 29; Mar 31 - 1 month is Feb 28; 2024-02-29 + 1 year is 2025-02-28 and + 4 years is 2028-02-29 |
| Calendar.DatePlus | datatypes.cpp:774-776 | operator+ adds the epochs and derives the fields |
| Calendar.DateMinus | datatypes.cpp:778-780 | operator- subtracts the epochs and derives the fields |
| Calendar.PlusAssign | datatypes.cpp:788-794 | operator+= adds the epochs, and it succeeds exactly when the sum lies in 0..epoch of 9999-12-31 |
| Calendar.MinusAssign | datatypes.cpp:782-786 | operator-= subtracts the epochs, and it succeeds exactly when the difference lies in 0..epoch of 9999-12-31 |
| Calendar.CheckedFromEpoch | datatypes.cpp:782-794 | the check after += and -= passes exactly on epochs from 0 to that of 9999-12-31 |
| Calendar.DayOfYearAsWrittenOvercounts | datatypes.cpp:411-419 | the as-written DAYOFYEAR sum exceeds the day of the year by the current month's length: January 1 gives 32 |
| Calendar.DayOfYearFromFields | datatypes.cpp:411-419 | the intended DAYOFYEAR sum: the days of the months before the date's month, the leap day once past February, and the day |
| Calendar.DayOfYearFromFieldsIsEpochOffset | datatypes.cpp:411-419 | the fields' day of the year is the epoch's offset into its year when the epoch matches the fields, and lies in 1 to the year's length for a valid date |
| Calendar.EpochZeroDayOfYear | datatypes.cpp:159-161 | Date(0) is 0000-12-31 with epoch 0, which does not match its fields, and its fields name day 366 of the leap year 0 |
| Calendar.ExtractAsWritten | datatypes.cpp:387-424 | extract as written: DAYOFYEAR is the sum including the current month, the other units read the fields |
| Calendar.ExtractField | datatypes.cpp:387-424 | the QUARTERS extract of a month 1..12 is the quarter 1..4 holding that month |
| Calendar.Extract | datatypes.cpp:387-424 | the corrected extract reads only the fields: DAYOFYEAR is the fields' day of the year, 1 to the year's length for a valid date and the epoch's offset into its year when the epoch matches the fields; the other units read the fields |
| Calendar.DateCompareIsCalendarOrder | datatypes.cpp:886-908 | comparing checked dates by epoch is comparing their fields lexicographically, and == is field equality |
| Calendar.DateCompare | datatypes.cpp:886-908 | the six Date operators compare the epochs alone; DateCompareIsCalendarOrder gives their calendar meaning |
| Clock.TimeInvariantsAsWritten | datatypes.cpp:548-573 | enforceTimeInvariants as written bounds hour by 24, minute and second by 60 and the fraction by 10^precision, inclusive |
| Clock.CheckTime | datatypes.cpp:548-573 | the corrected check implies the as-written one and a duration below 25 hours |
| Clock.MakeTimeAsWritten | datatypes.cpp:460-464 | Time(h, m, s, f, p) as written succeeds exactly when the as-written check passes, with the duration of the components |
| Clock.MakeTime | datatypes.cpp:460-464 | the corrected constructor succeeds exactly when the fields are in range, and then keeps them as exactly the fields of its duration |
| Clock.Midnight | datatypes.cpp:432-435 | Time(precision) is midnight at that precision |
| Clock.DurationToTime | datatypes.cpp:437-442 | Time(duration, precision) succeeds exactly below 25 hours and decomposes the duration into in-range fields |
| Clock.DurationFields | datatypes.cpp:533-546 | durationToTime's divisions give minutes, seconds and fraction in range, and the hour is at most 24 exactly below 25 hours |
| Clock.ComponentsDivide | datatypes.cpp:533-546 | on a checked time, durationToTime's divisions recover each component timeToDuration summed |
| Clock.TimeDurationRoundTrip | datatypes.cpp:527-546 | timeToDuration then durationToTime rebuilds every checked time |
| Clock.SecondSixtyAccepted | datatypes.cpp:548-573 | the as-written check admits 00:00:60, whose duration is that of 00:01:00, so the round trip cannot return the fields |
| Clock.TimeAdd | datatypes.cpp:493-517 | timeAdd moves the duration by exactly n units, does not wrap at midnight, and fails from 25 hours on |
| Clock.TimeSub | datatypes.cpp:519-521 | timeSub succeeds exactly when the moved duration stays below 25 hours, and then moves the duration back by n units |
| Clock.TimeSubUndoesTimeAdd | datatypes.cpp:493-521 | timeSub after a successful timeAdd by the same amount restores the duration |
| Clock.TimeDiff | datatypes.cpp:523-525 | timeDiff is the absolute difference of the durations, defined below 25 hours |
| Clock.TimeDiffSymmetric | datatypes.cpp:523-525 | timeDiff does not depend on the order of its operands |
| Clock.TimeExtract | datatypes.cpp:466-491 | the FRACTIONS extract is, in microseconds, the sub-second part of the duration rounded down to the precision |
| Clock.TimeCompare | datatypes.cpp:861-883 | the six Time operators compare the durations alone |
| Clock.ExtractedFraction | datatypes.cpp:466-491 | a time's fraction, scaled to microseconds, is within one unit below the duration's sub-second part |
| Clock.TimeAddExamples | datatypes.cpp:493-517 | 10:59:58 plus 14 hours is 24:59:58; plus 3 seconds is 11:00:01 |
| Clock.FractionDigits | datatypes.cpp:444-458 | the fraction read from a digit string is below 10^precision |
| Clock.TimeFromString | datatypes.cpp:444-458 | Time(string) fails on text that is not H:M:S[.F] and otherwise is the corrected component constructor on the fields read |
| Clock.FractionDigitsOfPadded | datatypes.cpp:730-741 | the zero-filled fraction digits of a rendered time read back as the fraction |
| Clock.FormatTimeRoundTrip | datatypes.cpp:730-741 | reading the rendering of a checked time gives back hour, minute, second and fraction |
| Clock.FormatTime | datatypes.cpp:730-741 | operator<< writes hour, minute and second zero-filled to width 2, joined by :, then a point and the fraction zero-filled to the precision when it is positive (read back by FormatTimeRoundTrip) |
| Clock.TimeTextRoundTrip | datatypes.cpp:444-458 | Time(string) of the rendering of a checked time rebuilds that time |
| Datetimes.DatetimeFromStrings | datatypes.cpp:580-581 | Datetime(date text, time text) succeeds exactly when both parts pass the corrected date and time checks, and is their pair |
| Datetimes.DateFromText | datatypes.cpp:164-176 | the date Date(string) builds under the corrected check is valid, carries its epoch and the fields read from the text |
| Datetimes.DatetimeFromString | datatypes.cpp:583-584 | Datetime(full) takes the date from characters 0-9 and the time from character 11 on, each under the corrected check |
| Datetimes.FormatDatetimeRoundTrip | datatypes.cpp:743-746 | the date part and the time part of a rendered Datetime read back as its fields |
| Datetimes.FormatDatetime | datatypes.cpp:743-746 | operator<< writes the date, a space and the time |
| Datetimes.DatetimeAddDate | datatypes.cpp:587-593 | datetimeAdd with a date unit moves the date as dateAdd does and keeps the time |
| Datetimes.DatetimeSubDate | datatypes.cpp:617-619 | datetimeSub with a date unit is datetimeAdd by the negated amount |
| Datetimes.Settled | datatypes.cpp:595-615 | settling carries or borrows at most one day, and leaves a duration within the day alone |
| Datetimes.DatetimeAddTime | datatypes.cpp:595-615 | datetimeAdd with a time unit moves the instant (days and duration) by exactly the signed step, measured at the precision of Time(0, 0, 0) given as a parameter, carrying a day into the date |
| Datetimes.DatetimeSubTime | datatypes.cpp:621-623 | datetimeSub with a time unit moves the instant back by the step |
| Datetimes.DatetimeExtractDate | datatypes.cpp:630-632 | extract with a date unit reads the date's fields through the corrected extract: DAYOFYEAR is the fields' day of the year (the epoch's offset into its year when they match), the other units the fields |
| Datetimes.DatetimeExtract | datatypes.cpp:634-645 | DATES and TIMES extract the two parts that make up the instant |
| Datetimes.DatetimeCompareIsLexicographic | datatypes.cpp:819-857 | Datetime order is lexicographic, date first then time; exactly one of <, ==, > holds; <=, >=, != are what their names say |
| Datetimes.DatetimeCompare | datatypes.cpp:819-857 | == and != compare both parts; <, >, <=, >= compare the times when the dates are equal and the dates otherwise, as DatetimeCompareIsLexicographic characterises |
| Datetimes.DatetimeLessTransitive | datatypes.cpp:827-833 | Datetime < is transitive |
| Datetimes.DateDiffAntisymmetric | datatypes.cpp:648-676 | dateDiff in a date unit is antisymmetric and zero from a value to itself |
| Datetimes.DateDiff | datatypes.cpp:648-676 | dateDiff with a date unit: year, month and day differences, WEEKS truncated toward zero, QUARTERS with month / 4 as written, and 0 for DAYOFYEAR, which has no case |
| Datetimes.DateDiffInvertsDateAdd | datatypes.cpp:648-676 | dateDiff in days, months or years measures the n that dateAdd moved |
| Datetimes.SecondsDiffIsInstantDiff | datatypes.cpp:678-699 | the SECONDS dateDiff is the difference of the instants in whole seconds, in unbounded arithmetic |
| Datetimes.TimeDiffIn | datatypes.cpp:678-699 | dateDiff with a time unit: the wall-clock field differences plus whole days, in unbounded arithmetic, and 0 for FRACTIONS, which has no case |
| Datetimes.TimeDiffInAntisymmetric | datatypes.cpp:678-699 | dateDiff in a time unit is antisymmetric |
| Datetimes.LeapYearInHours | datatypes.cpp:678-699 | from 2020-01-01 to 2021-01-01 is 8784 hours |
| Cells.GetString | datatypes.cpp:7-19 | getString succeeds exactly on TEXT, VARCHAR and CHAR cells, with their text (a CHAR's padded value) |
| Cells.GetType | datatypes.cpp:21-37 | getType gives one column type per alternative, and NULLVALUE exactly for the empty one |
| Cells.IsNull | datatypes.cpp:39-41 | isNull holds exactly when getType is NULLVALUE |
| Cells.TagsAgree | datatypes.cpp:21-41 | isNull holds exactly when getType is NULLVALUE, and a null cell has no string |
| Cells.DefaultVarchar | datatypes.cpp:48-51 | Varchar() has length 100 and no text |
| Cells.VarcharOf | datatypes.cpp:53-55 | Varchar(text) takes its length from the text; TextConstructorsAgree shows it is the checked constructor at the text's size |
| Cells.NewVarchar | datatypes.cpp:81-86 | Varchar(length, text) fails exactly when a non-negative length is below the text's size |
| Cells.VarcharGetLength | datatypes.cpp:92-95 | getLength is the size of the text, not the declared length; TextConstructorsAgree bounds it by a non-negative declared length |
| Cells.DefaultSQLChar | datatypes.cpp:102 | SQLChar() has length 100 and no text |
| Cells.SQLCharOf | datatypes.cpp:104 | SQLChar(text) takes its length from the text; TextConstructorsAgree shows it is the padding constructor at the text's size, which adds no spaces |
| Cells.NewSQLChar | datatypes.cpp:123-135 | SQLChar(length, text) fails when the text is longer (or the length negative), and otherwise holds the text followed by spaces to exactly the length |
| Cells.TextConstructorsAgree | datatypes.cpp:53-135 | Varchar(text) and SQLChar(text) equal the checked constructors at the text's own size, which succeed; getLength of a built Varchar is its text's size, at most a non-negative declared length |
| Cells.StripTrailingShape | datatypes.cpp:137-147 | stripping keeps a prefix that does not end in a space and cuts only spaces |
| Cells.GetUnpaddedValueAsWritten | datatypes.cpp:137-147 | the backward loop as written, which keeps one character of an all-space text |
| Cells.GetUnpaddedValue | datatypes.cpp:137-147 | the corrected loop returns the text without its trailing spaces |
| Cells.UnpadAfterPad | datatypes.cpp:123-147 | padding a text that does not end in a space and unpadding it gives the text back |
| Cells.UnpaddedAsWrittenKeepsOneSpace | datatypes.cpp:137-147 | the as-written unpadding of a CHAR padded from the empty text is one space; the corrected one is empty |
| Cells.UnpaddedAgreesOffAllSpaces | datatypes.cpp:137-147 | the two unpaddings agree on every text with a non-space character |
| Cells.PaddedCharEquality | datatypes.cpp:990-1044 | CHAR(3) "ab" and CHAR(4) "ab" each equal "ab" but not each other |
| Cells.SQLCharComparesAsItsText | datatypes.cpp:1042-1064 | a CHAR padded from a text that does not end in a space compares with strings exactly as that text does; through the as-written unpadding this holds for a non-empty text, and a CHAR padded from "" compares as " " |
| Cells.VarcharCompare | datatypes.cpp:912-934 | Varchar against Varchar compares the texts with the std::string operators; the declared lengths play no part |
| Cells.VarcharStringCompare | datatypes.cpp:938-960 | a Varchar on the left of a string compares the texts |
| Cells.SQLCharCompare | datatypes.cpp:990-1012 | CHAR against CHAR compares the padded values, so the same text padded to two lengths is unequal (PaddedCharEquality) |
| Cells.SQLCharStringCompare | datatypes.cpp:1042-1064 | a CHAR on the left of a string compares the value unpadded by the corrected unpadding (SQLCharComparesAsItsText) |
| Cells.SQLCharVarcharCompare | datatypes.cpp:1094-1116 | a CHAR on the left of a Varchar compares the corrected unpadded value with the Varchar's text |
| Cells.Render | datatypes.cpp:748-770 | a text cell is written as its text, a null cell as NULL |
| Cells.RenderIntRoundTrip | datatypes.cpp:748-770 | stoi reads an integer cell's rendering back as its value |
| Cells.NullIfEqualIsSymmetric | column.cpp:564-586 | nullIf's equality is reflexive and symmetric, and a null cell equals only a null cell |
| Cells.NullIfEqual | column.cpp:564-586 | the equality nullIf applies: same-type cells by that type's ==, arithmetic cells by value, string cells by text with a CHAR unpadded by the corrected unpadding unless both are CHAR, other pairs unequal |
| Cells.NullIfEqualAcrossTypes | column.cpp:564-586 | 1 equals true; a CHAR equals the TEXT it was padded from; CHARs of different lengths differ; "1" differs from 1 |
| Cells.DefaultDate | datatypes.cpp:151 | Date() is a checked date carrying its epoch |
| Cells.DefaultTime | datatypes.cpp:435 | Time() is midnight at precision 0 |
| Cells.ValidNonNullDefaultValue | column.cpp:784-823 | the default cell made for a non-null type carries that type and is not null |
| Strings.UpperOf | column.cpp:256-279 | upper maps each character to its upper case, leaving non-letters |
| Strings.LowerOf | column.cpp:281-304 | lower maps each character to its lower case, leaving non-letters |
| Strings.Upper | column.cpp:256-279 | the character loop of upper computes UpperOf |
| Strings.Lower | column.cpp:281-304 | the character loop of lower computes LowerOf |
| Strings.UpperLowerLaws | column.cpp:256-304 | upper leaves no lower-case letter and lower no upper-case one; both are idempotent and each absorbs the other |
| Strings.UpperLowerExamples | column.cpp:256-304 | "HelLo WorLd" becomes "HELLO WORLD" and "hello world" |
| Strings.InitCapOf | column.cpp:306-356 | initCap decides each character by its position and the word start before it |
| Strings.InitCap | column.cpp:306-356 | the character loop of initCap computes InitCapOf |
| Strings.InitCapIdempotent | column.cpp:306-356 | initCap twice is initCap once, and a letter comes out upper-case exactly at a word start |
| Strings.InitCapExamples | column.cpp:306-356 | "HelLo WorLd" gives "Hello World", "all lower" gives "All Lower", "ALL UPPER" gives "All Upper" |
| Strings.Length | column.cpp:214-233 | length is the number of characters |
| Strings.Concat | column.cpp:235-254 | concat is the text followed by the suffix |
| Strings.SubstringIsSlice | column.cpp:358-386 | substring is 1-indexed: a start below 1 clamps to the first character; a start past the end gives ""; otherwise it is the run from there, at most `length` long |
| Strings.Substring | column.cpp:358-386 | substring is at most the text's size and at most a non-negative length long, and from 1 with a length covering the text it is the whole text |
| Strings.SubstringExamples | column.cpp:358-386 | ("abcdefg", 2, 3) is "bcd", (4, 99) is "defg", (0, 3) is "abc", (9, 2) is "" |
| Strings.LeftIsSubstring | column.cpp:482-507 | left(n) is substring from position 1 of length n |
| Strings.Left | column.cpp:482-507 | left(n) is a prefix of the text, n long when 0 <= n <= size and the whole text otherwise (a negative n compares as a large unsigned size) |
| Strings.RightDropsSuffix | column.cpp:509-534 | right(k) followed by the last k characters is the text, so right(k) is left(size - k) |
| Strings.Right | column.cpp:509-534 | right(k) is a prefix of the text, size - k long when 0 <= k <= size and empty otherwise (a negative k compares as a large unsigned size) |
| Strings.TrimLeading | column.cpp:389-447 | the leading loop drops exactly the run of the character at the front |
| Strings.TrimTrailing | column.cpp:389-447 | the trailing loop drops exactly the run of the character at the back |
| Strings.Trim | column.cpp:389-447 | trim in each mode computes Trimmed |
| Strings.TrimmedIsSlice | column.cpp:389-447 | trim keeps one contiguous run of the text, cuts only the character, and the result no longer starts or ends with it at the trimmed ends |
| Strings.TrimIdempotent | column.cpp:389-447 | trimming twice is trimming once |
| Strings.TrimExamples | column.cpp:389-447 | "  hello  " trims to "hello  ", "  hello" and "hello"; "xxxyyyxxx" trims 'x' to "yyy" |
| Strings.FindFrom | column.cpp:450-480 | find returns the first occurrence from an offset, or none when there is no occurrence |
| Strings.Replaced | column.cpp:450-480 | a replace that settles leaves no occurrence of the pattern |
| Strings.Replace | column.cpp:450-480 | the replace loop computes Replaced |
| Strings.ShrinkingReplaceSettles | column.cpp:450-480 | a replacement shorter than the pattern always settles within the text's length of steps |
| Strings.EmptyPatternNeverSettles | column.cpp:450-480 | an empty pattern never settles |
| Strings.ReplaceCascades | column.cpp:450-480 | replacing "ab" by "b" in "aab" cascades to "b" |
| Strings.TerminatedIsJoin | column.cpp:692-706 | the parts each followed by the separator are their join plus one separator |
| Columns.CellFault | column.cpp:726-766 | enforceCellContraint fails exactly on a cell of the wrong tag, a disallowed null, a wrong size or precision, or a duplicate outside bulk operations, each with its reason |
| Columns.DefaultsTakeTheirType | column.h:17-26 | under the default constraints a cell passes exactly when it is null or of the column's type, and the default NULL passes |
| Columns.UnconstrainedSkipsChecks | column.cpp:746-762 | with precision and length at -1 only the tag and the null rule are checked |
| Columns.BulkFault | column.cpp:768-782 | the bulk check passes exactly when every cell passes the per-cell check |
| Columns.WholeColumnFault | column.cpp:768-782 | enforceWholeColumnConstraints passes exactly when every cell passes and a unique column holds no two equal cells |
| Columns.WholeColumnFaultIsUniqueness | column.cpp:768-782 | on cells that pass one by one, only uniqueness can fail |
| Columns.PushAll | column.cpp:92-96 | pushing a list of cells, when it succeeds, appends exactly those cells |
| Columns.PushAllSucceeds | column.cpp:92-96 | the pushes all succeed exactly when each cell passes the check against the cells before it |
| Columns.BuildWithoutUniqueness | column.cpp:52-58 | without uniqueness, a constrained column takes exactly the cells that pass one by one |
| Columns.PushEach | column.cpp:52-58 | the constructor-then-push loop computes Build |
| Columns.KeptIsPart | column.cpp:108-115 | erasing positions keeps a subsequence of the cells |
| Columns.EraseNext | column.cpp:108-115 | erasing one more index, from the highest down, removes exactly that position of what is left |
| Columns.SortDescending | column.cpp:108-115 | bulkErase's sort leaves the index vector descending and a permutation of itself |
| Columns.InsertDescending | column.cpp:108-115 | one insertion step extends the descending prefix and permutes the array |
| Columns.Overwritten | column.cpp:117-125 | bulkUpdate sets exactly the listed positions to the value and leaves the others |
| Columns.ToInt32 | column.cpp:214-233 | the (int) cast of a size is the size below 2^31 and agrees with it modulo 2^32 |
| Columns.Transformed | column.cpp:214-534 | every string function gives a non-null cell of its result type (INT for length, TEXT otherwise), and only a replace that does not settle fails |
| Columns.ApplyTo | column.cpp:214-534 | running each function's own loop gives Transformed |
| Columns.TransformCell | column.cpp:214-534 | a transformed cell is null exactly when the source cell is |
| Columns.TransformedCellsShape | column.cpp:214-534 | a string function's result has one cell per index, in index order, null exactly where the source cell is null, and otherwise the function's value of the cell's text |
| Columns.TransformedCellsSucceed | column.cpp:214-534 | on cells that are null or text, every string function except a non-settling replace succeeds |
| Columns.ResultColumnTakesCells | column.cpp:214-534 | the result column accepts every cell a string function produces |
| Columns.NullIfCells | column.cpp:564-586 | nullIf gives one cell per index, null exactly where the cell was null or equal to the operand, a CHAR compared through the corrected unpadding |
| Columns.NullIfKeepsUnequal | column.cpp:564-586 | with no cell equal to the operand the cells are returned as they are; with every cell equal, all nulls |
| Columns.NullIfExample | column.cpp:564-586 | nullIf(20) on 10, 20, 30, 40 gives 10, NULL, 30, 40 |
| Columns.CoalesceCells | column.cpp:588-602 | coalesce replaces exactly the null cells by the operand |
| Columns.CoalesceHasNoNulls | column.cpp:588-602 | a coalesce column that is built holds no null |
| Columns.CoalesceRejectsOtherDefaults | column.cpp:588-602 | a coalesce on a char or time column with a non-default length or precision fails on its own default value |
| Columns.CoalesceExample | column.cpp:588-602 | coalesce(99) on 10, NULL, 30, NULL gives 10, 99, 30, 99 |
| Columns.NonNullCount | column.cpp:634-643 | count is at most the number of indices |
| Columns.CountAllNonNull | column.cpp:634-643 | count equals the number of indices exactly when none is null, and is 0 exactly when all are |
| Columns.CountExample | column.cpp:634-643 | three of 1, NULL, 2, 4, NULL are counted |
| Columns.Rendered | column.cpp:692-706 | stringAggregate collects one rendering per non-null indexed cell |
| Columns.AggregateStep | column.cpp:692-706 | each index adds its rendering and the separator, unless its cell is null |
| Columns.CutSeparator | column.cpp:692-706 | cutting the separator off the collected text is impossible exactly when nothing was collected and the separator is not empty; otherwise it gives the join |
| Columns.AggregateFailsOnlyOnNulls | column.cpp:692-706 | stringAggregate fails only when every cell is null and the separator is not empty; a single non-null cell is rendered alone |
| Columns.AggregateExamples | column.cpp:692-706 | A, B, NULL, C, D aggregate to "A,B,C,D" and "A->B->C->D" |
| Columns.Column.OfType | column.cpp:40-50 | Column(type) is empty, reports that type and has the default constraints |
| Columns.Column.WithConstraints | column.cpp:52-58 | Column(type, constraints) fails exactly when the default value fails the check |
| Columns.Column.OfCells | column.cpp:60-72 | Column(cells, type) succeeds exactly when the whole-column check passes, holding those cells |
| Columns.Column.OfCellsWithConstraints | column.cpp:74-82 | Column(cells, type, constraints) checks the default value, then the whole column |
| Columns.Column.Size | column.cpp:84-86 | size is the number of cells |
| Columns.Column.At | column.cpp:13-37 | operator[] reads col[i] for 0 <= i < size and col[size + i] for -size <= i < 0, and fails beyond size |
| Columns.Column.PushDefault | column.cpp:88-90 | push() appends the default value |
| Columns.Column.Push | column.cpp:92-96 | push(v) appends exactly v when v passes the check and otherwise changes nothing |
| Columns.Column.Update | column.cpp:98-102 | update(i, v) changes only position i, and only when v passes the check |
| Columns.Column.Erase | column.cpp:104-106 | erase(i) removes exactly position i |
| Columns.Column.BulkErase | column.cpp:108-115 | bulkErase removes exactly the listed positions, keeps the rest in order, and sorts the caller's indices descending |
| Columns.Column.BulkUpdate | column.cpp:117-125 | bulkUpdate sets every listed position to v and no other, after v passes, then runs the whole-column check |
| Columns.Column.Transform | column.cpp:214-534 | a string function on a non-text column fails; otherwise it gives the transformed cells |
| Columns.Column.NullIf | column.cpp:564-586 | nullIf builds a column of the nullIf cells, a CHAR compared through the corrected unpadding |
| Columns.Column.Coalesce | column.cpp:588-602 | coalesce builds a column of the coalesced cells |
| Columns.Column.Count | column.cpp:634-643 | the counting loop gives the number of non-null cells |
| Columns.Column.StringAggregate | column.cpp:692-706 | the aggregate loop gives the join of the non-null renderings |
| Columns.AtFromEitherEnd | column.cpp:13-37 | a cell is reached by its index and by its index minus the size |
| Columns.BulkEraseExample | column.cpp:108-115 | erasing positions 0, 2 and 4 of 10, 0, 30, 0, 50, 0 leaves 0, 0, 0 |
| LegacyTables.AppendRowDistinct | column.cpp:867-877 | with distinct names, inserting a row appends its cell (or NULL) to each named column and touches no other |
| LegacyTables.RowKeepsRectangular | column.cpp:867-877 | a row grows every named column by one |
| LegacyTables.DuplicateNameAppendsTwice | column.cpp:867-877 | a name listed twice gets the row's cell twice |
| LegacyTables.NameSetSize | column.cpp:961-973 | the names fill a set of their own size exactly when none repeats |
| LegacyTables.Table.constructor | column.cpp:830 | a new table has no columns, rows or order and is valid |
| LegacyTables.Table.NullColumn | column.cpp:834-847 | a new column is numRows nulls |
| LegacyTables.Table.InsertColumn | column.cpp:834-847 | insertColumn fails on an unsupported type; otherwise it adds numRows nulls under the name, and validity is kept for a fresh name |
| LegacyTables.Table.InsertCharColumn | column.cpp:849-865 | the sized insertColumn accepts only CHAR and VARCHAR and records the length |
| LegacyTables.Table.InsertRow | column.cpp:867-877 | insertRow appends one cell to every named column, appends the row number to order and increments numRows, keeping every column at numRows cells |
| LegacyTables.Table.AppendCells | column.cpp:867-877 | the row loop appends the row's cells and changes nothing else |
| LegacyTables.Table.GetCharTypeLength | column.cpp:879-884 | the recorded length of a named char column, failing for any other name |
| LegacyTables.Table.ColumnNameExists | column.cpp:955-957 | columnNameExists holds exactly when some position of columnNames holds the name, as std::find reports |
| LegacyTables.IsSupported | column.cpp:947-953 | validDatatype's search accepts exactly the supported type names |
| LegacyTables.ValidDatatype | column.cpp:947-953 | validDatatype holds exactly for the names in supportedDatatypes |
| LegacyTables.ValidityChecks | column.cpp:961-988 | the validity checks pass exactly when no name repeats and every column has numRows cells |
| LegacyTables.InsertKeepsValid | column.cpp:834-877 | a fresh name keeps the table valid; a repeated name breaks it; a row keeps it |
| LegacyTables.InsertScenario | column.cpp:834-877 | two columns and a row that names one of them: both columns reach one cell |
| Tables.NewAlias | table.cpp:16-19 | Alias(name) stores exactly [name] |
| Tables.OriginalName | table.cpp:21-23 | getOriginalName is names[0], which the alias contains |
| Tables.ContainsName | table.cpp:25-27 | containsName holds exactly when some position of names holds the name, as std::find reports |
| Tables.NewAliasNames | table.cpp:16-27 | a new alias's original name is its name, and it contains that name and no other |
| Tables.OriginalNameStays | table.cpp:21-23 | getOriginalName is names[0], whatever names are added after it |
| Tables.Lookup | table.cpp:44-53 | operator[] gives the original name of the first alias containing the name, and fails when none does |
| Tables.FirstWithOriginal | table.cpp:35-42 | the search for the first alias with that original name |
| Tables.Aliases.constructor | table.cpp:29 | a new registry is empty |
| Tables.Aliases.Push | table.cpp:31-33 | push(alias) appends exactly that alias |
| Tables.Aliases.PushNameAsWritten | table.cpp:35-42 | push(trueName, newName) as written leaves the registry unchanged |
| Tables.Aliases.PushName | table.cpp:35-42 | the corrected push adds newName to the first alias whose original name is trueName |
| Tables.Aliases.Resolve | table.cpp:44-53 | the lookup loop computes Lookup |
| Tables.LookupFirst | table.cpp:44-53 | the first alias containing the name decides the lookup |
| Tables.PushedNameResolves | table.cpp:31-53 | a pushed alias for a new name resolves to that name |
| Tables.PushNameResolves | table.cpp:35-42 | after the corrected push, newName resolves to trueName and every name that resolved before resolves as before |
| Tables.PushNameAsWrittenLosesAlias | table.cpp:35-42 | as written, "key" stays unknown after push("id", "key"); the corrected push resolves it to "id" |
| Tables.NextComma | table.cpp:100 | std::find gives the next comma from the position, or the end |
| Tables.SplitAt | table.cpp:89-101 | each pass of the loop takes the field up to the next comma, and the fields after it are the split of the rest |
| Tables.Split | table.cpp:86-104 | the corrected reading of the fields: a comma starts a new field, any other character extends the current one |
| Tables.SplitCommaFree | table.cpp:86-104 | no field of the split holds a comma |
| Tables.SplitCount | table.cpp:86-104 | the split has one field more than the text has commas |
| Tables.SplitJoins | table.cpp:86-104 | joining the fields with commas gives the text back |
| Tables.SplitJoin | table.cpp:86-104 | splitting comma-free fields joined by commas gives the fields back |
| Tables.SplitExample | table.cpp:86-104 | "1,2,3" splits into "1", "2", "3" |
| Tables.AsWrittenKeepsCommas | table.cpp:98-100 | as written, each field after a comma starts with that comma |
| Tables.AsWrittenFields | table.cpp:86-104 | the fields the loop reads as written, from each comma (included) to the next |
| Tables.AsWrittenFieldsCarryCommas | table.cpp:86-104 | the as-written fields are the split's fields, the first unchanged and every later one prefixed by its comma |
| Tables.CommaExample | table.cpp:86-104 | as written, "1,2,3" gives "1", ",2", ",3" |
| Tables.CommaSeparatedToColumnAsWritten | table.cpp:86-104 | the loop as written builds the column from the comma-prefixed fields |
| Tables.CommaSeparatedToColumn | table.cpp:86-104 | the corrected loop builds the column from the split fields |
| Tables.ReadColumnTypes | table.cpp:86-104 | a column read from text takes its cells exactly when each converted field is null or of the column's type, one cell per comma plus one |
| Tables.RenameRoundTrip | table.cpp:80-84 | renaming to a free name and back restores the table, and a rename touches no other name |
| Tables.Table.constructor | table.cpp:62 | a new table has no columns and an empty registry |
| Tables.Table.AddColumn | table.cpp:64-68 | addColumn registers the alias and stores the column under the name |
| Tables.Table.AddColumnFromText | table.cpp:70-74 | addColumn from text stores the column read by the corrected comma split, or fails and changes nothing |
| Tables.Table.DeleteColumn | table.cpp:76-78 | deleteColumn removes exactly that key |
| Tables.Table.RenameColumn | table.cpp:80-84 | renameColumn leaves newName holding the former column of oldName, with oldName absent (deleted when the names are equal) |

## Left out

- **Output.** Console and stream output (`Table::print`, the `cerr`
  messages) is not modelled. `operator<<` appears only as the text it
  writes.
- **Floating point.** Not modelled:
  - the numeric column functions `round`, `ceiling`, `floor`, `absolute`,
    `sum`, `sumDistinct`, `avg`, `avgDistinct`, `max`, `min`,
    `standardDeviation`, and the float-valued `extract` template;
  - the four-decimal rendering of a FLOAT.

  A FLOAT cell holds an exact real, and its rendering is a parameter.
- **The Types cross-type comparator** (the six operators on `Types`, used
  by `countDistinct` and the uniqueness checks) is a parameter, because
  its body is not part of this model. `countDistinct` is left out for the
  same reason. `convertToVariant`, `getNumeric` and the `isString` family
  are not part of this model either. `isString` is read as the three text
  types.
- **File I/O and Table-dependent code.**
  - The CSV constructor of Table is declared but never defined.
  - The Varchar and SQLChar constructors taking a `Table*` call a Table
    revision that is not part of this model.
  - The stale `datatypes.h` is not modelled.
- **Column::pop and the conversion operators** (`operator vector<Types>`,
  `operator Date`, `operator Time`, `operator string`) are left out: they
  only copy a field.
- **Strings.Replaced:** a replace that does not settle within its fuel
  bound fails with FuelExhausted. The source loops forever on an empty
  pattern or a replacement that recreates the pattern.
- **Calendar.DateInvariantsAsWritten:** month 0 with a valid year reads
  `daysPerMonth[-1]` and is excluded.
- **Cells.GetUnpaddedValueAsWritten:** excludes the empty text, where the
  loop steps past the beginning.
- **Columns.Column.At:** excludes index == size, where the source's bound
  check lets the read run past the end.
- **`Date()` and `Time(int)`** leave a field unset. The model gives them
  the epoch of 2000-01-01 (Cells.DefaultDate) and a zero fraction
  (Clock.Midnight).
- **Columns.Column.BulkErase:** requires distinct indices. The source's
  erase of a repeated index removes two different cells.
- **Tables.Table.RenameColumn:** requires the old name to be present. The
  source's `operator[]` on the map needs a default Column, which column.h
  does not declare, so `table[newName]` (table.cpp:81) and `table[name]`
  (table.cpp:67) have no meaning as written, present name or not. The model
  picks a reading: assignment stores under the name, and rename moves an
  existing column.
- **Clock.TimeAdd, Clock.TimeSub and Datetimes.DatetimeAddTime:** require a
  duration that stays non-negative. On a negative duration, durationToTime
  converts a negative `double` to `u_int` (datatypes.cpp:536-542), which is
  undefined.
- **Time fields:** the header declaring Time's fields is not part of this
  model. The model reads hour, minute and second as signed integers, so a
  negative hour passes the `>` checks (Clock.TimeInvariantsAsWritten). The
  `(u_int)` casts at datatypes.cpp:536-542 suggest unsigned fields. Under
  unsigned fields, an hour of -1 would wrap to 4294967295 and fail
  `hour > 24`.
- **Clock.ParseSeconds:** reads the seconds text as digits with an optional
  point and fraction digits. `stod` also reads a sign, a text starting with
  the point (".5"), an exponent ("1e1") and hexadecimal, infinity and NaN
  forms. On "00:00:1e1" the source reads second 10 where the model reads 1,
  and on "00:00:.5" the source reads half a second where the model rejects
  the text.
- **Datetimes.DatetimeFromString:** requires at least 11 characters. The
  source's iterator arithmetic is undefined on a shorter text.
- **Columns.Column.Count:** the result is an unbounded integer. A count
  beyond 2^31 cells is not modelled.
- **Datetimes.TimeDiffIn and Datetimes.SecondsDiffIsInstantDiff:** the
  result is an unbounded integer. The source accumulates it in a 32-bit
  `int` (`jumps`, datatypes.cpp:678-699), which overflows once the answer
  passes 2147483647: in SECONDS for spans of 24 856 days or more (about 68
  years, so 1950-01-01 to 2020-01-01, 2208988800 seconds, already
  overflows), in MINUTES beyond about 4 083 years and in HOURS beyond about
  245 000 years. The model's answer is the mathematical one on those spans.
- **Calendar.DateAdd and Calendar.DateSub:** the arithmetic is on unbounded
  integers. The source multiplies the `int` difference by 7 for WEEKS and
  by 3 for QUARTERS in place (datatypes.cpp:316, 331) and adds it to the
  `int` epoch or year (datatypes.cpp:319, 350, 367), so a difference beyond
  306 783 378 weeks, or a sum past 2^31 - 1, overflows there and not in
  the model.
- **Clock.TimeAdd and Clock.TimeSub:** the step is an unbounded integer.
  The source computes `difference * 60` and `difference * 3600` in `int`
  (datatypes.cpp:507, 511), which overflows beyond 35 791 394 minutes or
  596 523 hours.
- **Clock.TimeDiff:** takes the result's precision as a parameter. Its
  default is declared in a header that is not part of this model.
- **Datetimes.DatetimeAddTime and Datetimes.DatetimeSubTime:** take the
  precision of `Time(0, 0, 0)` as a parameter. That time measures the step,
  so n FRACTIONS is n whole seconds at precision 0 and n microseconds at 6.
  The defaulted argument is declared in a header that is not part of this
  model.
- **Datetimes.DatetimeAddDate, Datetimes.DatetimeSubDate,
  Datetimes.DatetimeAddTime and Datetimes.DatetimeSubTime:** take an integer
  difference. The source takes a `double` and truncates it toward zero when
  it passes it (or its magnitude) to the `int` parameter of `dateAdd` or
  `timeAdd`. A difference with a fractional part is not modelled.
- **Cells.ValidNonNullDefaultValue and Columns.Column.Coalesce:** require a
  type other than NULL. The source's switch over the column type
  (column.cpp:784-820) has no NULL case and falls off its end.
- **Time:** modelled with integer microseconds, so a precision above 6 is
  outside the model.
- **String comparison and string lengths:** `std::string` comparison is
  modelled on characters, and so are `length`, `substring`, `left` and
  `right` (Strings.Length, Strings.Substring, Strings.Left, Strings.Right).
  The source counts bytes, so on multi-byte text the model's counts and
  positions differ. Locale and encoding are not modelled.
- **The corrected definitions.** Each finding below has an as-written
  member and a corrected one. The operations of the model use the corrected
  one, so each operation listed next departs from the source on that
  finding's input.
- **Calendar.NewDate:** uses the corrected check, so `Date(2024, 3, 0)`
  fails. The source accepts it with the epoch of 2024-02-29.
- **Calendar.DateFromString:** uses the corrected check, so "2024-03-00"
  fails. The source accepts it.
- **Datetimes.DateFromText:** uses the corrected check, so "2024-03-00"
  fails. The source accepts it.
- **Calendar.DateAdd and Calendar.DateSub:** the month, quarter and year
  units fail on a starting date with day 0. The source builds
  `Date(year, month, 0)`, which its check accepts, and moves it.
- **Datetimes.DatetimeAddDate and Datetimes.DatetimeSubDate:** inherit the
  day-0 departure of Calendar.DateAdd.
- **Clock.TimeFromString:** uses the corrected time check, so "00:00:60",
  "00:60:00" and "-1:00:00" fail. The source's `>` checks accept them (the
  last only with signed fields, as Time fields above says).
- **Datetimes.DatetimeFromStrings:** inherits both departures: a date text
  with day 0 fails, and so does a time text with minute or second 60 or a
  negative hour, minute or second.
- **Datetimes.DatetimeFromString:** inherits the departures of
  Datetimes.DatetimeFromStrings.
- **Datetimes.DatetimeExtractDate:** uses the corrected DAYOFYEAR, so
  2025-01-01 gives 1. The source calls the as-written `Date::extract`,
  which gives 32.
- **Cells.SQLCharStringCompare and Cells.SQLCharVarcharCompare:** use the
  corrected unpadding, so `SQLChar(3, "") == ""` holds. In the source the
  value unpads to " " and the comparison is false.
- **Cells.NullIfEqual:** compares a CHAR cell through the corrected
  unpadding, so an all-space CHAR equals the empty TEXT. The source's
  operator does not make them equal.
- **Columns.NullIfCells:** inherits the departure of Cells.NullIfEqual:
  `nullIf("")` turns an all-space CHAR cell into NULL, where the source
  keeps the cell.
- **Columns.Column.NullIf:** inherits the departure of Columns.NullIfCells.
- **Tables.Table.AddColumnFromText:** reads the fields with the corrected
  split, so "1,2,3" gives "1", "2", "3". The source calls the as-written
  loop, which gives "1", ",2", ",3".

## Findings

| source | as written | input that shows it | evidently intended | confidence | as-written member | corrected member |
|---|---|---|---|---|---|---|
| datatypes.cpp:284-308 | the day check is `day >= 0`, so day 0 passes | Date(2024, 3, 0) is accepted and gets the epoch of 2024-02-29 | a day from 1 to the month's length | not executed | Calendar.DayZeroAliasesPreviousDay | Calendar.CheckDate |
| datatypes.cpp:411-419 | DAYOFYEAR sums daysPerMonth over the months up to and including the current one | extract(DAYOFYEAR) of 2025-01-01 is 32 | sum only the months before the current one | not executed | Calendar.DayOfYearAsWrittenOvercounts | Calendar.Extract |
| datatypes.cpp:548-573 | minute, second and fraction are checked with `>`, so 60, and 10^precision for the fraction, pass | Time(0, 0, 60) is accepted, with the duration of 00:01:00 | each field strictly below its unit | not executed | Clock.SecondSixtyAccepted | Clock.TimeDurationRoundTrip |
| datatypes.cpp:137-147 | the backward loop stops at the first character, so one character of an all-space text is kept | getUnpaddedValue of SQLChar(3, "") is " " | the empty text | not executed | Cells.UnpaddedAsWrittenKeepsOneSpace | Cells.UnpadAfterPad |
| table.cpp:35-42 | the loop iterates by value (`for (Alias a : names)`), so the pushed name goes into a copy | after push("id", "key"), Aliases["key"] still fails | add the name to the stored alias | not executed | Tables.PushNameAsWrittenLosesAlias | Tables.PushNameResolves |
| table.cpp:98-100 | `begin = end` keeps the comma in every later field | "1,2,3" gives the fields "1", ",2", ",3" | `begin = end + 1` | not executed | Tables.AsWrittenFieldsCarryCommas | Tables.SplitJoin |
