/** The cell values of a column (the Types variant), the two character
    types Varchar and SQLChar, and the helpers every column operation uses:
    getType, getString, isNull, the stream rendering of a cell and the
    equality rule of nullIf. */
module Cells {
  import opened Results
  import opened Numerals
  import opened Ordering
  import opened Calendar
  import opened Clock
  import opened Datetimes

  newtype int16 = x: int | -0x8000 <= x < 0x8000
  newtype int32 = x: int | -0x8000_0000 <= x < 0x8000_0000
  newtype int64 = x: int | -0x8000_0000_0000_0000 <= x < 0x8000_0000_0000_0000

  /** The column types, one per alternative of Types. */
  datatype Datatypes =
    | NullValue | Integer | SmallInt | BigInt | Float | VarcharType | CharType
    | TextType | DateType | TimeType | DatetimeType | BoolType

  /** A VARCHAR value: the declared length and the text. */
  datatype Varchar = Varchar(length: int, value: string)

  /** A CHAR value: the declared length and the text, padded with spaces
      when built from a length. */
  datatype SQLChar = SQLChar(length: int, value: string)

  /** One cell.  FLOAT holds an exact real: the model has no floating point. */
  datatype Types =
    | NullCell
    | IntCell(i: int32)
    | SmallIntCell(s: int16)
    | BigIntCell(b: int64)
    | FloatCell(f: real)
    | VarcharCell(v: Varchar)
    | CharCell(c: SQLChar)
    | TextCell(t: string)
    | DateCell(date: Date)
    | TimeCell(time: Time)
    | DatetimeCell(datetime: Datetime)
    | BoolCell(flag: bool)

  // ---------------------------------------------------------------------
  // Tags

  /** getType: the column type of a cell's alternative. */
  function GetType(cell: Types): (t: Datatypes)
    ensures t == NullValue <==> cell.NullCell?
  {
    match cell
    case NullCell => NullValue
    case IntCell(_) => Integer
    case SmallIntCell(_) => SmallInt
    case BigIntCell(_) => BigInt
    case FloatCell(_) => Float
    case VarcharCell(_) => VarcharType
    case CharCell(_) => CharType
    case TextCell(_) => TextType
    case DateCell(_) => DateType
    case TimeCell(_) => TimeType
    case DatetimeCell(_) => DatetimeType
    case BoolCell(_) => BoolType
  }

  /** isNull: the cell holds the empty alternative. */
  predicate IsNull(cell: Types): (b: bool)
    ensures b <==> GetType(cell) == NullValue
  {
    cell.NullCell?
  }

  /** isString of a column type: the three text-valued types.  Its body is
      not part of this model; this is the reading its uses imply. */
  predicate IsStringType(t: Datatypes)
  {
    t == VarcharType || t == CharType || t == TextType
  }

  /** getString: the text of a TEXT, VARCHAR or CHAR cell (a CHAR cell's
      padded value); any other cell stops the program. */
  function GetString(cell: Types): (r: Result<string>)
    ensures r.Success? <==> IsStringType(GetType(cell))
    ensures r.Failure? ==> r.error == NotAString
    ensures cell.TextCell? ==> r == Success(cell.t)
    ensures cell.VarcharCell? ==> r == Success(cell.v.value)
    ensures cell.CharCell? ==> r == Success(cell.c.value)
  {
    match cell
    case TextCell(t) => Success(t)
    case VarcharCell(v) => Success(v.value)
    case CharCell(c) => Success(c.value)
    case _ => Failure(NotAString)
  }

  /** The tag of a cell tells whether it is null, and a null cell has no
      string. */
  lemma TagsAgree(cell: Types)
    ensures IsNull(cell) <==> GetType(cell) == NullValue
    ensures IsNull(cell) ==> GetString(cell).Failure?
    ensures GetString(cell).Success? ==> !IsNull(cell)
  {
  }

  // ---------------------------------------------------------------------
  // Varchar

  /** Varchar(): length 100 and no text. */
  function DefaultVarchar(): (v: Varchar)
    ensures v.length == 100 && v.value == ""
  {
    Varchar(100, "")
  }

  /** Varchar(string): the length is the text's size. */
  function VarcharOf(value: string): (v: Varchar)
    ensures v.value == value && v.length == |value|
  {
    Varchar(|value|, value)
  }

  /** Varchar(length, value): fails when the text is longer than a
      non-negative length.  The source compares the unsigned size with the
      signed length, so a negative length constrains nothing. */
  function NewVarchar(length: int, value: string): (r: Result<Varchar>)
    ensures r.Failure? <==> 0 <= length < |value|
    ensures r.Failure? ==> r.error == LengthExceeded
    ensures r.Success? ==> r.value.value == value && r.value.length == length
    ensures r.Success? && length >= 0 ==> |r.value.value| <= r.value.length
  {
    if 0 <= length < |value| then Failure(LengthExceeded) else Success(Varchar(length, value))
  }

  /** Varchar::getLength: the size of the text, not the declared length. */
  function VarcharGetLength(v: Varchar): (n: nat)
    ensures n == |v.value|
  {
    |v.value|
  }

  // ---------------------------------------------------------------------
  // SQLChar

  /** SQLChar(): as Varchar(), without padding. */
  function DefaultSQLChar(): (c: SQLChar)
    ensures c.length == 100 && c.value == ""
  {
    SQLChar(100, "")
  }

  /** SQLChar(string): as Varchar(string); nothing to pad. */
  function SQLCharOf(value: string): (c: SQLChar)
    ensures c.value == value && c.length == |value|
  {
    SQLChar(|value|, value)
  }

  predicate AllSpaces(s: string)
  {
    forall i :: 0 <= i < |s| ==> s[i] == ' '
  }

  /** SQLChar(length, value): the Varchar check, then padding with spaces
      to exactly `length`.  A negative length passes the unsigned check and
      then asks for a padding of negative size, which throws. */
  function NewSQLChar(length: int, value: string): (r: Result<SQLChar>)
    ensures r.Success? <==> 0 <= |value| <= length
    ensures r.Failure? ==> r.error == (if length < 0 then BadCharLength else LengthExceeded)
    ensures r.Success? ==> r.value.length == length && |r.value.value| == length
    ensures r.Success? ==> r.value.value[..|value|] == value && AllSpaces(r.value.value[|value|..])
  {
    if length < 0 then Failure(BadCharLength)
    else if |value| > length then Failure(LengthExceeded)
    else Success(SQLChar(length, value + Repeat(' ', length - |value|)))
  }

  /** The one-argument text constructors are the checked constructors at
      the text's own size, which always succeed; and the getLength of a
      built Varchar is its text's size, within a non-negative declared
      length. */
  lemma TextConstructorsAgree(length: int, value: string)
    ensures NewVarchar(|value|, value) == Success(VarcharOf(value))
    ensures NewSQLChar(|value|, value) == Success(SQLCharOf(value))
    ensures VarcharGetLength(VarcharOf(value)) == VarcharOf(value).length
    ensures NewVarchar(length, value).Success? ==> VarcharGetLength(NewVarchar(length, value).value) == |value|
    ensures NewVarchar(length, value).Success? && length >= 0 ==> VarcharGetLength(NewVarchar(length, value).value) <= length
  {
    assert value + Repeat(' ', 0) == value;
  }

  /** The text without its trailing spaces. */
  function StripTrailing(s: string): string
  {
    if s == [] || s[|s| - 1] != ' ' then s else StripTrailing(s[..|s| - 1])
  }

  /** Stripping keeps a prefix that does not end in a space and cuts only
      spaces. */
  lemma {:induction false} StripTrailingShape(s: string)
    ensures var r := StripTrailing(s);
      |r| <= |s| && r == s[..|r|] && AllSpaces(s[|r|..]) && (r == [] || r[|r| - 1] != ' ')
    decreases |s|
  {
    if s != [] && s[|s| - 1] == ' ' {
      var front := s[..|s| - 1];
      StripTrailingShape(front);
      var r := StripTrailing(front);
      assert front[..|r|] == s[..|r|];
      assert s[|r|..] == front[|r|..] + [' '];
    } else {
      assert s[..|s|] == s;
    }
  }

  /** The value getUnpaddedValue returns as written: for a text that is
      all spaces the loop stops on the first character and keeps it. */
  function UnpaddedAsWrittenValue(s: string): string
    requires |s| >= 1
  {
    if AllSpaces(s) then s[..1] else StripTrailing(s)
  }

  /** SQLChar::getUnpaddedValue as written: walk back from the end past
      spaces, then keep everything up to one past the stopping point.  An
      empty text makes the source step past its end and is excluded. */
  method GetUnpaddedValueAsWritten(c: SQLChar) returns (r: string)
    requires |c.value| >= 1
    ensures r == UnpaddedAsWrittenValue(c.value)
  {
    var end := |c.value|;
    var stop := false;
    while end != 0 && !stop
      invariant 0 <= end <= |c.value|
      invariant !stop ==> AllSpaces(c.value[end..])
      invariant stop ==> end < |c.value| && c.value[end] != ' ' && AllSpaces(c.value[end + 1..])
    {
      end := end - 1;
      stop := c.value[end] != ' ';
    }
    r := c.value[..end + 1];
    if !stop {
      assert AllSpaces(c.value);
    } else {
      TrailingSpacesStrip(c.value, end);
    }
  }

  /** Stripping a text whose last non-space character is at `k` keeps
      exactly the characters up to `k`. */
  lemma {:induction false} TrailingSpacesStrip(s: string, k: int)
    requires 0 <= k < |s| && s[k] != ' ' && AllSpaces(s[k + 1..])
    ensures !AllSpaces(s)
    ensures StripTrailing(s) == s[..k + 1]
    decreases |s|
  {
    if k + 1 < |s| {
      assert s[|s| - 1] == s[k + 1..][|s| - 1 - (k + 1)];
      assert s[..|s| - 1][k + 1..] == s[k + 1..|s| - 1];
      TrailingSpacesStrip(s[..|s| - 1], k);
      assert s[..|s| - 1][..k + 1] == s[..k + 1];
    }
  }

  /** getUnpaddedValue with the all-spaces case giving the empty text. */
  method GetUnpaddedValue(c: SQLChar) returns (r: string)
    ensures r == StripTrailing(c.value)
  {
    var end := |c.value|;
    assert c.value[..end] == c.value;
    while end != 0 && c.value[end - 1] == ' '
      invariant 0 <= end <= |c.value|
      invariant StripTrailing(c.value) == StripTrailing(c.value[..end])
    {
      StripStep(c.value, end);
      end := end - 1;
    }
    StripDone(c.value[..end]);
    r := c.value[..end];
  }

  /** One trailing space of a prefix goes. */
  lemma StripStep(s: string, end: nat)
    requires 0 < end <= |s| && s[end - 1] == ' '
    ensures StripTrailing(s[..end]) == StripTrailing(s[..end - 1])
  {
    assert s[..end - 1] == s[..end][..end - 1];
  }

  /** A text not ending in a space is its own stripped form. */
  lemma StripDone(s: string)
    requires s == [] || s[|s| - 1] != ' '
    ensures StripTrailing(s) == s
  {
  }

  /** Char padding round trip: padding a text that does not end in a space
      and stripping it again gives the text back. */
  lemma {:induction false} UnpadAfterPad(length: int, value: string)
    requires 0 <= |value| <= length
    requires value == [] || value[|value| - 1] != ' '
    ensures StripTrailing(NewSQLChar(length, value).value.value) == value
  {
    var padded := NewSQLChar(length, value).value.value;
    if |padded| > |value| {
      assert padded[|value|..] == padded[|value|..|padded| - 1] + [padded[|padded| - 1]];
      assert padded[|padded| - 1] == ' ';
      if value == [] {
        AllSpacesStrip(padded);
      } else {
        TrailingSpacesStrip(padded, |value| - 1);
        assert padded[..|value|] == value;
      }
    } else {
      assert padded == value;
    }
  }

  lemma {:induction false} AllSpacesStrip(s: string)
    requires AllSpaces(s)
    ensures StripTrailing(s) == []
    decreases |s|
  {
    if s != [] {
      AllSpacesStrip(s[..|s| - 1]);
    }
  }

  /** The as-written unpadding keeps one space of a CHAR value built from
      the empty text, where the empty text was meant. */
  lemma UnpaddedAsWrittenKeepsOneSpace(length: int)
    requires length >= 1
    ensures UnpaddedAsWrittenValue(NewSQLChar(length, "").value.value) == " "
    ensures StripTrailing(NewSQLChar(length, "").value.value) == ""
  {
    var padded := NewSQLChar(length, "").value.value;
    assert AllSpaces(padded) by {
      assert padded == "" + Repeat(' ', length);
    }
    AllSpacesStrip(padded);
    AllSpacesUnpadAsWritten(padded);
  }

  /** The as-written unpadding of a text of spaces keeps its first one. */
  lemma AllSpacesUnpadAsWritten(s: string)
    requires |s| >= 1 && AllSpaces(s)
    ensures UnpaddedAsWrittenValue(s) == " "
  {
    assert s[..1] == [s[0]];
  }

  /** The two unpaddings differ only there: on a text with a non-space
      character they agree. */
  lemma UnpaddedAgreesOffAllSpaces(s: string)
    requires |s| >= 1 && !AllSpaces(s)
    ensures UnpaddedAsWrittenValue(s) == StripTrailing(s)
  {
  }

  // ---------------------------------------------------------------------
  // Comparisons of the character types

  /** Varchar against Varchar, or against a string: the texts compare. */
  predicate VarcharCompare(lhs: Varchar, rhs: Varchar, op: CompareOp)
  {
    StringCompare(lhs.value, rhs.value, op)
  }

  predicate VarcharStringCompare(lhs: Varchar, rhs: string, op: CompareOp)
  {
    StringCompare(lhs.value, rhs, op)
  }

  /** SQLChar against SQLChar: the padded values compare. */
  predicate SQLCharCompare(lhs: SQLChar, rhs: SQLChar, op: CompareOp)
  {
    StringCompare(lhs.value, rhs.value, op)
  }

  /** SQLChar against a string or a Varchar: the unpadded value compares. */
  predicate SQLCharStringCompare(lhs: SQLChar, rhs: string, op: CompareOp)
  {
    StringCompare(StripTrailing(lhs.value), rhs, op)
  }

  predicate SQLCharVarcharCompare(lhs: SQLChar, rhs: Varchar, op: CompareOp)
  {
    StringCompare(StripTrailing(lhs.value), rhs.value, op)
  }

  /** A padded CHAR value equals its text as a string, yet two CHAR values
      padded from the same text to different lengths are unequal: the
      character-type equalities are not transitive. */
  lemma PaddedCharEquality()
    ensures SQLCharStringCompare(NewSQLChar(3, "ab").value, "ab", Equal)
    ensures SQLCharStringCompare(NewSQLChar(4, "ab").value, "ab", Equal)
    ensures !SQLCharCompare(NewSQLChar(3, "ab").value, NewSQLChar(4, "ab").value, Equal)
  {
    UnpadAfterPad(3, "ab");
    UnpadAfterPad(4, "ab");
  }

  /** A CHAR value built from a text that does not end in a space compares
      with strings exactly as that text does.  The comparator as written,
      through the as-written unpadding, agrees for a non-empty text; a CHAR
      padded from the empty text compares there as a single space. */
  lemma SQLCharComparesAsItsText(length: int, value: string, other: string, op: CompareOp)
    requires 0 <= |value| <= length
    requires value == [] || value[|value| - 1] != ' '
    ensures SQLCharStringCompare(NewSQLChar(length, value).value, other, op) <==> StringCompare(value, other, op)
    ensures value != [] ==>
      (StringCompare(UnpaddedAsWrittenValue(NewSQLChar(length, value).value.value), other, op) <==> StringCompare(value, other, op))
    ensures value == [] && length >= 1 ==>
      (StringCompare(UnpaddedAsWrittenValue(NewSQLChar(length, value).value.value), other, op) <==> StringCompare(" ", other, op))
  {
    UnpadAfterPad(length, value);
    var padded := NewSQLChar(length, value).value.value;
    if value != [] {
      assert padded[|value| - 1] != ' ';
      UnpaddedAgreesOffAllSpaces(padded);
    } else if length >= 1 {
      UnpaddedAsWrittenKeepsOneSpace(length);
    }
  }

  // ---------------------------------------------------------------------
  // Rendering

  /** operator<< of a cell.  FLOAT is written with four fixed decimals,
      which the model takes as the parameter `floatText`; booleans print as
      1 and 0. */
  function Render(cell: Types, floatText: real -> string): (text: string)
    ensures IsStringType(GetType(cell)) ==> text == GetString(cell).value
    ensures cell.NullCell? ==> text == "NULL"
  {
    match cell
    case NullCell => "NULL"
    case TextCell(t) => t
    case CharCell(c) => c.value
    case VarcharCell(v) => v.value
    case FloatCell(f) => floatText(f)
    case IntCell(i) => IntToString(i as int)
    case SmallIntCell(s) => IntToString(s as int)
    case BigIntCell(b) => IntToString(b as int)
    case DateCell(d) => FormatDate(d)
    case TimeCell(t) => FormatTime(t)
    case DatetimeCell(dt) => FormatDatetime(dt)
    case BoolCell(flag) => if flag then "1" else "0"
  }

  /** The integer renderings read back as the same number. */
  lemma RenderIntRoundTrip(cell: Types, floatText: real -> string)
    requires cell.IntCell? || cell.SmallIntCell? || cell.BigIntCell?
    ensures StoI(Render(cell, floatText)) == Some(IntegerValue(cell))
  {
    IntTextRoundTrip(IntegerValue(cell));
  }

  function IntegerValue(cell: Types): int
    requires cell.IntCell? || cell.SmallIntCell? || cell.BigIntCell?
  {
    match cell
    case IntCell(i) => i as int
    case SmallIntCell(s) => s as int
    case BigIntCell(b) => b as int
  }

  lemma IntTextRoundTrip(i: int)
    ensures StoI(IntToString(i)) == Some(i)
  {
    if i >= 0 {
      ParsePadded(i, 0);
    } else {
      var u := NatToString(-i);
      NatToStringDigits(-i);
      DigitRunAll(u);
      assert ("-" + u)[1..] == u;
      assert u[..DigitRun(u)] == u;
    }
  }

  // ---------------------------------------------------------------------
  // The equality of nullIf

  /** The arithmetic alternatives (bool included, as is_arithmetic counts
      it) and their numeric values. */
  predicate IsArithmetic(cell: Types)
  {
    cell.IntCell? || cell.SmallIntCell? || cell.BigIntCell? || cell.FloatCell? || cell.BoolCell?
  }

  function NumericValue(cell: Types): real
    requires IsArithmetic(cell)
  {
    match cell
    case IntCell(i) => i as real
    case SmallIntCell(s) => s as real
    case BigIntCell(b) => b as real
    case FloatCell(f) => f
    case BoolCell(flag) => if flag then 1.0 else 0.0
  }

  predicate IsStringCell(cell: Types)
  {
    cell.TextCell? || cell.VarcharCell? || cell.CharCell?
  }

  /** The text a string cell compares by against a different string
      alternative: a CHAR value drops its padding, the others do not. */
  function ComparedText(cell: Types): string
    requires IsStringCell(cell)
  {
    match cell
    case TextCell(t) => t
    case VarcharCell(v) => v.value
    case CharCell(c) => StripTrailing(c.value)
  }

  /** The equality nullIf applies: cells of the same alternative compare
      with that alternative's ==, two arithmetic cells compare numerically,
      two string cells compare their texts (a CHAR value unpadded unless
      both are CHAR), and any other pair is unequal. */
  predicate NullIfEqual(lhs: Types, rhs: Types)
  {
    if GetType(lhs) == GetType(rhs) then
      match lhs
      case NullCell => true
      case VarcharCell(v) => v.value == rhs.v.value
      case CharCell(c) => c.value == rhs.c.value
      case TextCell(t) => t == rhs.t
      case DateCell(d) => DateCompare(d, rhs.date, Equal)
      case TimeCell(t) => TimeCompare(t, rhs.time, Equal)
      case DatetimeCell(dt) => DatetimeCompare(dt, rhs.datetime, Equal)
      case _ => NumericValue(lhs) == NumericValue(rhs)
    else if IsArithmetic(lhs) && IsArithmetic(rhs) then NumericValue(lhs) == NumericValue(rhs)
    else if IsStringCell(lhs) && IsStringCell(rhs) then ComparedText(lhs) == ComparedText(rhs)
    else false
  }

  /** The nullIf equality is reflexive and symmetric; a null cell equals only
      a null cell. */
  lemma NullIfEqualIsSymmetric(a: Types, b: Types)
    ensures NullIfEqual(a, a)
    ensures NullIfEqual(a, b) <==> NullIfEqual(b, a)
    ensures IsNull(a) ==> (NullIfEqual(a, b) <==> IsNull(b))
  {
    if GetType(a) == GetType(b) && a.DatetimeCell? {
      DatetimeCompareIsLexicographic(a.datetime, b.datetime);
      DatetimeCompareIsLexicographic(b.datetime, b.datetime);
    }
    if a.DatetimeCell? {
      DatetimeCompareIsLexicographic(a.datetime, a.datetime);
    }
  }

  /** Across alternatives: the integer 1 equals the boolean true, and a CHAR
      value equals the TEXT it was padded from. */
  lemma NullIfEqualAcrossTypes()
    ensures NullIfEqual(IntCell(1), BoolCell(true))
    ensures NullIfEqual(CharCell(NewSQLChar(4, "ab").value), TextCell("ab"))
    ensures !NullIfEqual(CharCell(NewSQLChar(4, "ab").value), CharCell(NewSQLChar(3, "ab").value))
    ensures !NullIfEqual(TextCell("1"), IntCell(1))
  {
    UnpadAfterPad(4, "ab");
  }

  // ---------------------------------------------------------------------
  // Default values

  /** Date(): 2000-01-01.  The source leaves the epoch unset; the model
      gives it the epoch of that date. */
  function DefaultDate(): (d: Date)
    ensures CheckDate(d.year, d.month, d.day) && d.epoch == EpochOf(d.year, d.month, d.day)
  {
    Date(2000, 1, 1, EpochOf(2000, 1, 1))
  }

  /** Time(): midnight at precision 0. */
  function DefaultTime(): (t: Time)
    ensures t.duration == 0 && t.precision == 0 && Decomposes(t)
  {
    Midnight(0)
  }

  /** validNonNullDefaultValue: a non-null cell of the given type.  NULL has
      no case in the source's switch and is excluded. */
  function ValidNonNullDefaultValue(t: Datatypes): (cell: Types)
    requires t != NullValue
    ensures GetType(cell) == t && !IsNull(cell)
  {
    match t
    case BigInt => BigIntCell(0)
    case BoolType => BoolCell(false)
    case CharType => CharCell(DefaultSQLChar())
    case DateType => DateCell(DefaultDate())
    case DatetimeType => DatetimeCell(Datetime(DefaultDate(), DefaultTime()))
    case Float => FloatCell(0.0)
    case Integer => IntCell(0)
    case SmallInt => SmallIntCell(0)
    case TextType => TextCell("")
    case TimeType => TimeCell(DefaultTime())
    case VarcharType => VarcharCell(DefaultVarchar())
  }
}
