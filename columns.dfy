/** The Column class: a typed sequence of cells with its constraints, the
    per-cell and whole-column checks, the mutators, signed indexing, the
    per-cell string functions, nullIf and coalesce, and the count and
    stringAggregate aggregates. */
module Columns {
  import opened Results
  import opened Cells
  import opened Strings

  // ---------------------------------------------------------------------
  // Constraints

  /** The constraints a column carries.  A time precision or char length of
      -1 leaves that property unconstrained. */
  datatype ColumnConstraints = ColumnConstraints(
    unique: bool, takesNulls: bool, isPrimaryKey: bool, isForeignKey: bool,
    defaultValue: Types, timePrecision: int, charLength: int)

  const Unconstrained: int := -1

  /** The defaults: not unique, nulls allowed, not a key, a null default,
      no precision and no char length. */
  const DefaultConstraints: ColumnConstraints :=
    ColumnConstraints(false, true, false, false, NullCell, Unconstrained, Unconstrained)

  /** The precision of a TIME or DATETIME cell. */
  function PrecisionOf(cell: Types): Option<int>
  {
    match cell
    case TimeCell(t) => Some(t.precision)
    case DatetimeCell(dt) => Some(dt.time.precision)
    case _ => None
  }

  /** The declared length of a VARCHAR or CHAR cell. */
  function CharLengthOf(cell: Types): Option<int>
  {
    match cell
    case VarcharCell(v) => Some(v.length)
    case CharCell(c) => Some(c.length)
    case _ => None
  }

  /** The per-cell rules, each on its own: the cell is null or of the column
      type, null only where nulls are taken, and of the required precision
      and char length where those are constrained. */
  predicate Conforms(t: Datatypes, cons: ColumnConstraints, cell: Types)
  {
    && (IsNull(cell) || GetType(cell) == t)
    && (IsNull(cell) ==> cons.takesNulls)
    && (cons.timePrecision != Unconstrained && PrecisionOf(cell).Some? ==> PrecisionOf(cell).value == cons.timePrecision)
    && (cons.charLength != Unconstrained && CharLengthOf(cell).Some? ==> CharLengthOf(cell).value == cons.charLength)
  }

  /** Some cell of the column equals the given one. */
  predicate Occurs(cells: seq<Types>, cell: Types, same: (Types, Types) -> bool)
  {
    exists k :: 0 <= k < |cells| && same(cells[k], cell)
  }

  /** The uniqueness rule of a single incoming cell. */
  predicate Duplicate(cons: ColumnConstraints, same: (Types, Types) -> bool, existing: seq<Types>, cell: Types, fromBulk: bool)
  {
    cons.unique && !fromBulk && !same(cell, NullCell) && Occurs(existing, cell, same)
  }

  /** enforceCellContraint: the first check, in the source's order, that the
      cell fails against a column holding `existing`. */
  function CellFault(t: Datatypes, cons: ColumnConstraints, same: (Types, Types) -> bool,
                     existing: seq<Types>, cell: Types, fromBulk: bool): (f: Option<Fault>)
    ensures f.None? <==> Conforms(t, cons, cell) && !Duplicate(cons, same, existing, cell, fromBulk)
    ensures !IsNull(cell) && GetType(cell) != t ==> f == Some(TypeMismatch)
    ensures Duplicate(cons, same, existing, cell, fromBulk) && GetType(cell) == t ==> f == Some(NotUnique)
  {
    if GetType(cell) != t && GetType(cell) != NullValue then Some(TypeMismatch)
    else if cons.unique && !fromBulk && !same(cell, NullCell) && Occurs(existing, cell, same) then Some(NotUnique)
    else if IsNull(cell) && !cons.takesNulls then Some(NullNotAllowed)
    else if cell.TimeCell? && cons.timePrecision != Unconstrained && cell.time.precision != cons.timePrecision then
      Some(TimePrecisionMismatch)
    else if cell.DatetimeCell? && cons.timePrecision != Unconstrained && cell.datetime.time.precision != cons.timePrecision then
      Some(TimePrecisionMismatch)
    else if cell.VarcharCell? && cons.charLength != Unconstrained && cell.v.length != cons.charLength then
      Some(CharLengthMismatch)
    else if cell.CharCell? && cons.charLength != Unconstrained && cell.c.length != cons.charLength then
      Some(CharLengthMismatch)
    else None
  }

  /** The default constraints take every cell of the column's type, and null. */
  lemma DefaultsTakeTheirType(t: Datatypes, cell: Types)
    ensures Conforms(t, DefaultConstraints, cell) <==> IsNull(cell) || GetType(cell) == t
    ensures Conforms(t, DefaultConstraints, DefaultConstraints.defaultValue)
  {
  }

  /** A time precision or char length of -1 is no constraint at all: the
      checks of such a column are those of the same column with any
      precision or length dropped to the cell's own. */
  lemma UnconstrainedSkipsChecks(t: Datatypes, cons: ColumnConstraints, cell: Types)
    requires cons.timePrecision == Unconstrained && cons.charLength == Unconstrained
    ensures Conforms(t, cons, cell) <==> (IsNull(cell) || GetType(cell) == t) && (IsNull(cell) ==> cons.takesNulls)
  {
  }

  /** The first cell failing the per-cell check of a bulk operation (the
      uniqueness check is skipped, so the column's cells are not consulted). */
  function BulkFault(t: Datatypes, cons: ColumnConstraints, same: (Types, Types) -> bool, cells: seq<Types>): (f: Option<Fault>)
    ensures f.None? <==> forall k :: 0 <= k < |cells| ==> Conforms(t, cons, cells[k])
    decreases |cells|
  {
    if cells == [] then None
    else match CellFault(t, cons, same, [], cells[0], true)
      case Some(fault) => Some(fault)
      case None =>
        assert forall k :: 1 <= k < |cells| ==> cells[k] == cells[1..][k - 1];
        BulkFault(t, cons, same, cells[1..])
  }

  /** Two positions of the column hold equal cells. */
  predicate HasDuplicates(cells: seq<Types>, same: (Types, Types) -> bool)
  {
    exists i, j :: 0 <= i < j < |cells| && same(cells[i], cells[j])
  }

  /** enforceWholeColumnConstraints: every cell passes the bulk check, then a
      unique column holds no two equal cells. */
  function WholeColumnFault(t: Datatypes, cons: ColumnConstraints, same: (Types, Types) -> bool, cells: seq<Types>): (f: Option<Fault>)
    ensures f.None? <==>
      (forall k :: 0 <= k < |cells| ==> Conforms(t, cons, cells[k])) && !(cons.unique && HasDuplicates(cells, same))
  {
    var cellFault := BulkFault(t, cons, same, cells);
    if cellFault.Some? then cellFault
    else if cons.unique && HasDuplicates(cells, same) then Some(NotUnique)
    else None
  }

  /** A column whose cells already pass the per-cell checks can fail the
      whole-column check only on uniqueness. */
  lemma WholeColumnFaultIsUniqueness(t: Datatypes, cons: ColumnConstraints, same: (Types, Types) -> bool, cells: seq<Types>)
    requires forall k :: 0 <= k < |cells| ==> Conforms(t, cons, cells[k])
    ensures WholeColumnFault(t, cons, same, cells) == (if cons.unique && HasDuplicates(cells, same) then Some(NotUnique) else None)
  {
  }

  // ---------------------------------------------------------------------
  // Building a column cell by cell

  /** Pushing the cells one after another onto a column that holds
      `existing`: each push is checked against the cells before it, and the
      first failing push stops the program. */
  function PushAll(t: Datatypes, cons: ColumnConstraints, same: (Types, Types) -> bool,
                   existing: seq<Types>, cells: seq<Types>): (r: Result<seq<Types>>)
    ensures r.Success? ==> r.value == existing + cells
    decreases |cells|
  {
    if cells == [] then Success(existing)
    else match CellFault(t, cons, same, existing, cells[0], false)
      case Some(fault) => Failure(fault)
      case None =>
        var rest := PushAll(t, cons, same, existing + [cells[0]], cells[1..]);
        assert existing + [cells[0]] + cells[1..] == existing + cells;
        rest
  }

  /** The pushes all succeed exactly when each cell passes the check against
      the cells before it. */
  lemma {:induction false} PushAllSucceeds(t: Datatypes, cons: ColumnConstraints, same: (Types, Types) -> bool,
                                           existing: seq<Types>, cells: seq<Types>)
    ensures PushAll(t, cons, same, existing, cells).Success? <==>
      forall k :: 0 <= k < |cells| ==> CellFault(t, cons, same, existing + cells[..k], cells[k], false).None?
    decreases |cells|
  {
    if cells != [] {
      var head := cells[0];
      var tail := cells[1..];
      var grown := existing + [head];
      assert existing + cells[..0] == existing;
      if CellFault(t, cons, same, existing, head, false).None? {
        PushAllSucceeds(t, cons, same, grown, tail);
        forall k | 1 <= k < |cells|
          ensures existing + cells[..k] == grown + tail[..k - 1] && cells[k] == tail[k - 1]
        {
          assert cells[..k] == [head] + tail[..k - 1];
        }
      }
    }
  }

  /** Column(type, constraints) followed by one push per cell: the default
      value is checked first, as the constructor does. */
  function Build(t: Datatypes, cons: ColumnConstraints, same: (Types, Types) -> bool, cells: seq<Types>): (r: Result<seq<Types>>)
  {
    match CellFault(t, cons, same, [], cons.defaultValue, true)
    case Some(fault) => Failure(fault)
    case None => PushAll(t, cons, same, [], cells)
  }

  /** Without uniqueness, a column takes exactly the cells that pass the
      per-cell checks. */
  lemma BuildWithoutUniqueness(t: Datatypes, cons: ColumnConstraints, same: (Types, Types) -> bool, cells: seq<Types>)
    requires !cons.unique
    ensures Build(t, cons, same, cells).Success? <==>
      Conforms(t, cons, cons.defaultValue) && forall k :: 0 <= k < |cells| ==> Conforms(t, cons, cells[k])
    ensures Build(t, cons, same, cells).Success? ==> Build(t, cons, same, cells).value == cells
  {
    var r := PushAll(t, cons, same, [], cells);
    PushAllSucceeds(t, cons, same, [], cells);
    if forall k :: 0 <= k < |cells| ==> Conforms(t, cons, cells[k]) {
      assert forall k :: 0 <= k < |cells| ==> CellFault(t, cons, same, cells[..k], cells[k], false).None?;
    }
    if r.Success? {
      forall k | 0 <= k < |cells|
        ensures Conforms(t, cons, cells[k])
      {
        assert CellFault(t, cons, same, [] + cells[..k], cells[k], false).None?;
      }
    }
  }

  /** One push of PushAll. */
  lemma PushAllStep(t: Datatypes, cons: ColumnConstraints, same: (Types, Types) -> bool,
                    existing: seq<Types>, cells: seq<Types>)
    requires cells != []
    ensures CellFault(t, cons, same, existing, cells[0], false).Some? ==>
      PushAll(t, cons, same, existing, cells) == Failure(CellFault(t, cons, same, existing, cells[0], false).value)
    ensures CellFault(t, cons, same, existing, cells[0], false).None? ==>
      PushAll(t, cons, same, existing, cells) == PushAll(t, cons, same, existing + [cells[0]], cells[1..])
  {
  }

  /** Column(type, constraints) and its pushes, cell by cell. */
  method PushEach(t: Datatypes, cons: ColumnConstraints, same: (Types, Types) -> bool, cells: seq<Types>)
    returns (r: Result<seq<Types>>)
    ensures r == Build(t, cons, same, cells)
  {
    var fault := CellFault(t, cons, same, [], cons.defaultValue, true);
    if fault.Some? {
      return Failure(fault.value);
    }
    ghost var target := PushAll(t, cons, same, [], cells);
    assert target == Build(t, cons, same, cells);
    var out: seq<Types> := [];
    var k := 0;
    assert cells[0..] == cells;
    while k < |cells|
      invariant 0 <= k <= |cells|
      invariant PushAll(t, cons, same, out, cells[k..]) == target
    {
      ghost var rest := cells[k..];
      assert rest[0] == cells[k] && rest[1..] == cells[k + 1..];
      PushAllStep(t, cons, same, out, rest);
      var cellFault := CellFault(t, cons, same, out, cells[k], false);
      if cellFault.Some? {
        return Failure(cellFault.value);
      }
      out := out + [cells[k]];
      k := k + 1;
    }
    assert cells[k..] == [];
    r := Success(out);
  }

  // ---------------------------------------------------------------------
  // Positions

  /** The distinct values of a sequence of positions. */
  function Elements(s: seq<int>): set<int>
  {
    set x | x in s
  }

  predicate Distinct(s: seq<int>)
  {
    forall m, n :: 0 <= m < n < |s| ==> s[m] != s[n]
  }

  predicate Descending(s: seq<int>)
  {
    forall m, n :: 0 <= m < n < |s| ==> s[m] >= s[n]
  }

  /** The cells left once the positions in `gone` are removed, in their
      original order. */
  function Kept<T>(s: seq<T>, gone: set<int>): (r: seq<T>)
    decreases |s|
  {
    if |s| == 0 then []
    else Kept(s[..|s| - 1], gone) + if |s| - 1 in gone then [] else [s[|s| - 1]]
  }

  /** What is kept is a part of the sequence. */
  lemma {:induction false} KeptIsPart<T>(s: seq<T>, gone: set<int>)
    ensures |Kept(s, gone)| <= |s|
    ensures forall x :: x in Kept(s, gone) ==> x in s
    decreases |s|
  {
    if |s| > 0 {
      KeptIsPart(s[..|s| - 1], gone);
      assert forall x :: x in s[..|s| - 1] ==> x in s;
    }
  }

  /** Removing no position inside the sequence keeps all of it. */
  lemma {:induction false} KeptNone<T>(s: seq<T>, gone: set<int>)
    requires forall x :: x in gone ==> x >= |s| || x < 0
    ensures Kept(s, gone) == s
    decreases |s|
  {
    if |s| > 0 {
      KeptNone(s[..|s| - 1], gone);
    }
  }

  /** Removing one more position below all removed ones is erasing it from
      what is kept. */
  lemma {:induction false} EraseStep<T>(s: seq<T>, gone: set<int>, i: int)
    requires 0 <= i < |s| && i !in gone
    requires forall x :: x in gone ==> x > i
    ensures |Kept(s, gone)| > i
    ensures Kept(s, gone + {i}) == Kept(s, gone)[..i] + Kept(s, gone)[i + 1..]
    decreases |s|
  {
    var n := |s| - 1;
    var front := s[..n];
    var tail: seq<T> := if n in gone then [] else [s[n]];
    assert Kept(s, gone) == Kept(front, gone) + tail;
    if n == i {
      KeptNone(front, gone);
      KeptNone(front, gone + {i});
      assert Kept(s, gone + {i}) == front;
      DropLast(front, s[n]);
    } else {
      EraseStep(front, gone, i);
      assert Kept(s, gone + {i}) == Kept(front, gone + {i}) + tail;
      DropBefore(Kept(front, gone), tail, i);
    }
  }

  lemma DropLast<T>(front: seq<T>, x: T)
    ensures (front + [x])[..|front|] + (front + [x])[|front| + 1..] == front
  {
    assert (front + [x])[..|front|] == front;
  }

  /** Dropping position i of k + tail drops it from k. */
  lemma DropBefore<T>(k: seq<T>, tail: seq<T>, i: int)
    requires 0 <= i < |k|
    ensures (k + tail)[..i] + (k + tail)[i + 1..] == k[..i] + k[i + 1..] + tail
  {
    assert (k + tail)[..i] == k[..i];
    assert (k + tail)[i + 1..] == k[i + 1..] + tail;
  }

  /** A sequence without repeats counts each value at most once. */
  lemma {:induction false} DistinctCounts(s: seq<int>)
    requires Distinct(s)
    ensures forall x :: multiset(s)[x] <= 1
    decreases |s|
  {
    if |s| > 0 {
      var front := s[..|s| - 1];
      DistinctCounts(front);
      assert s == front + [s[|s| - 1]];
      assert s[|s| - 1] !in front;
    }
  }

  /** A sequence counting each value at most once has no repeats. */
  lemma CountsDistinct(s: seq<int>)
    requires forall x :: multiset(s)[x] <= 1
    ensures Distinct(s)
  {
    forall m, n | 0 <= m < n < |s|
      ensures s[m] != s[n]
    {
      assert s == s[..m + 1] + s[m + 1..];
      assert s[m] in multiset(s[..m + 1]);
      assert s[n] == s[m + 1..][n - m - 1];
      assert s[n] in multiset(s[m + 1..]);
      assert multiset(s) == multiset(s[..m + 1]) + multiset(s[m + 1..]);
      assert multiset(s)[s[m]] <= 1 && multiset(s)[s[n]] <= 1;
      assert multiset(s[..m + 1])[s[m]] >= 1 && multiset(s[m + 1..])[s[n]] >= 1;
    }
  }

  /** A permutation of distinct in-range positions is distinct, in range
      and names the same positions. */
  lemma SamePositions(given: seq<int>, sorted: seq<int>, size: int)
    requires multiset(given) == multiset(sorted)
    requires forall x :: multiset(given)[x] <= 1
    requires InRange(given, size)
    ensures Distinct(sorted) && InRange(sorted, size) && Elements(given) == Elements(sorted)
  {
    CountsDistinct(sorted);
    forall x
      ensures x in given <==> x in sorted
    {
      assert x in given <==> x in multiset(given);
      assert x in sorted <==> x in multiset(sorted);
    }
    forall k | 0 <= k < |sorted|
      ensures 0 <= sorted[k] < size
    {
      assert sorted[k] in multiset(given);
    }
  }

  /** Erasing the next position of a descending list of distinct positions
      from what the earlier ones left. */
  lemma EraseNext<T>(s: seq<T>, sorted: seq<int>, k: int)
    requires Descending(sorted) && Distinct(sorted) && InRange(sorted, |s|) && 0 <= k < |sorted|
    ensures |Kept(s, Elements(sorted[..k]))| > sorted[k]
    ensures Kept(s, Elements(sorted[..k + 1])) ==
      Kept(s, Elements(sorted[..k]))[..sorted[k]] + Kept(s, Elements(sorted[..k]))[sorted[k] + 1..]
  {
    var i := sorted[k];
    assert sorted[..k + 1] == sorted[..k] + [i];
    assert Elements(sorted[..k + 1]) == Elements(sorted[..k]) + {i};
    forall x | x in Elements(sorted[..k])
      ensures x > i
    {
      var m :| 0 <= m < k && sorted[m] == x;
    }
    EraseStep(s, Elements(sorted[..k]), i);
  }

  /** Cells taken from a column whose cells all pass the per-cell checks
      pass them too. */
  lemma PartConforms(t: Datatypes, cons: ColumnConstraints, whole: seq<Types>, part: seq<Types>)
    requires forall k :: 0 <= k < |whole| ==> Conforms(t, cons, whole[k])
    requires forall x :: x in part ==> x in whole
    ensures forall k :: 0 <= k < |part| ==> Conforms(t, cons, part[k])
  {
    forall k | 0 <= k < |part|
      ensures Conforms(t, cons, part[k])
    {
      assert part[k] in whole;
    }
  }

  /** The sort bulkErase applies to its argument: greatest first, in place. */
  method SortDescending(a: array<int>)
    modifies a
    ensures Descending(a[..])
    ensures multiset(a[..]) == multiset(old(a[..]))
  {
    var i := 0;
    while i < a.Length
      invariant 0 <= i <= a.Length
      invariant Descending(a[..i])
      invariant multiset(a[..]) == multiset(old(a[..]))
    {
      InsertDescending(a, i);
      i := i + 1;
    }
    assert a[..i] == a[..];
  }

  /** One insertion step: a[i] moves left past every smaller value, so the
      first i + 1 positions are in descending order. */
  method InsertDescending(a: array<int>, i: int)
    modifies a
    requires 0 <= i < a.Length && Descending(a[..i])
    ensures Descending(a[..i + 1])
    ensures multiset(a[..]) == multiset(old(a[..]))
  {
    var j := i;
    while j > 0 && a[j - 1] < a[j]
      invariant 0 <= j <= i
      invariant forall m, n :: 0 <= m < n <= i && m != j && n != j ==> a[m] >= a[n]
      invariant forall n :: j < n <= i ==> a[j] > a[n]
      invariant multiset(a[..]) == multiset(old(a[..]))
    {
      a[j - 1], a[j] := a[j], a[j - 1];
      j := j - 1;
    }
  }

  /** Overwriting the listed positions with one value. */
  function Overwritten(s: seq<Types>, indices: seq<int>, value: Types): (r: seq<Types>)
    ensures |r| == |s|
    ensures forall k :: 0 <= k < |s| ==> r[k] == if k in indices then value else s[k]
  {
    seq(|s|, k requires 0 <= k < |s| => if k in indices then value else s[k])
  }

  // ---------------------------------------------------------------------
  // String functions

  /** The string functions a column applies cell by cell. */
  datatype StringFunction =
    | LengthOf
    | ConcatWith(suffix: string)
    | UpperCase
    | LowerCase
    | InitCapital
    | SubstringOf(startPos: int, count: int)
    | TrimOf(mode: TrimModes, toRemove: char)
    | ReplaceWith(pattern: string, newVal: string, fuel: nat)
    | LeftOf(cutoff: int)
    | RightOf(k: int)

  /** The type of the column a string function returns. */
  function ResultType(f: StringFunction): Datatypes
  {
    if f.LengthOf? then Integer else TextType
  }

  /** The (int) cast of a size: its low 32 bits, read as a signed value. */
  function ToInt32(n: nat): (i: int32)
    ensures n < 0x8000_0000 ==> i as int == n
    ensures (i as int - n) % 0x1_0000_0000 == 0
  {
    var low := n % 0x1_0000_0000;
    if low < 0x8000_0000 then low as int32 else (low - 0x1_0000_0000) as int32
  }

  /** The cell a string function makes of one text. */
  function Transformed(f: StringFunction, text: string): (r: Result<Types>)
    ensures r.Success? ==> !IsNull(r.value) && GetType(r.value) == ResultType(f)
    ensures r.Failure? ==> f.ReplaceWith? && r.error == FuelExhausted
  {
    match f
    case LengthOf => Success(IntCell(ToInt32(Length(text))))
    case ConcatWith(suffix) => Success(TextCell(Concat(text, suffix)))
    case UpperCase => Success(TextCell(UpperOf(text)))
    case LowerCase => Success(TextCell(LowerOf(text)))
    case InitCapital => Success(TextCell(InitCapOf(text)))
    case SubstringOf(startPos, count) => Success(TextCell(Substring(text, startPos, count)))
    case TrimOf(mode, toRemove) => Success(TextCell(Trimmed(text, mode, toRemove)))
    case ReplaceWith(pattern, newVal, fuel) =>
      (match Replaced(text, pattern, newVal, fuel)
       case Success(t) => Success(TextCell(t))
       case Failure(e) => Failure(e))
    case LeftOf(cutoff) => Success(TextCell(Left(text, cutoff)))
    case RightOf(k) => Success(TextCell(Right(text, k)))
  }

  /** One text through a string function, by the loops of its own. */
  method ApplyTo(f: StringFunction, text: string) returns (r: Result<Types>)
    ensures r == Transformed(f, text)
  {
    match f
    case UpperCase =>
      var t := Upper(text);
      r := Success(TextCell(t));
    case LowerCase =>
      var t := Lower(text);
      r := Success(TextCell(t));
    case InitCapital =>
      var t := InitCap(text);
      r := Success(TextCell(t));
    case TrimOf(mode, toRemove) =>
      var t := Trim(text, mode, toRemove);
      r := Success(TextCell(t));
    case ReplaceWith(pattern, newVal, fuel) =>
      var t := Replace(text, pattern, newVal, fuel);
      r := if t.Success? then Success(TextCell(t.value)) else Failure(t.error);
    case _ =>
      r := Transformed(f, text);
  }

  /** The result cell for one source cell: null stays null, any other cell
      gives its text to the function. */
  function TransformCell(cell: Types, f: StringFunction): (r: Result<Types>)
    ensures r.Success? ==> (IsNull(r.value) <==> IsNull(cell))
  {
    if IsNull(cell) then Success(NullCell)
    else match GetString(cell)
      case Failure(e) => Failure(e)
      case Success(text) => Transformed(f, text)
  }

  predicate InRange(indices: seq<int>, size: int)
  {
    forall k :: 0 <= k < |indices| ==> 0 <= indices[k] < size
  }

  /** The cells of a string function's result, in index order; the first
      cell that fails stops the program. */
  function TransformedCells(cells: seq<Types>, indices: seq<int>, f: StringFunction): (r: Result<seq<Types>>)
    requires InRange(indices, |cells|)
    decreases |indices|
  {
    if indices == [] then Success([])
    else
      var n := |indices| - 1;
      match TransformedCells(cells, indices[..n], f)
      case Failure(e) => Failure(e)
      case Success(front) =>
        match TransformCell(cells[indices[n]], f)
        case Failure(e) => Failure(e)
        case Success(cell) => Success(front + [cell])
  }

  /** Once a prefix of the indices fails, so does the whole. */
  lemma {:induction false} FailurePersists(cells: seq<Types>, indices: seq<int>, f: StringFunction, k: int)
    requires InRange(indices, |cells|) && 0 <= k <= |indices|
    requires TransformedCells(cells, indices[..k], f).Failure?
    ensures TransformedCells(cells, indices, f) == TransformedCells(cells, indices[..k], f)
    decreases |indices| - k
  {
    if k < |indices| {
      assert indices[..k + 1][..k] == indices[..k];
      FailurePersists(cells, indices, f, k + 1);
    } else {
      assert indices[..k] == indices;
    }
  }

  /** A string function's result has one cell per index, in index order,
      null exactly where the source cell is null, and otherwise the
      function's value of that cell's text. */
  lemma {:induction false} TransformedCellsShape(cells: seq<Types>, indices: seq<int>, f: StringFunction)
    requires InRange(indices, |cells|)
    requires TransformedCells(cells, indices, f).Success?
    ensures var r := TransformedCells(cells, indices, f).value;
      && |r| == |indices|
      && (forall k :: 0 <= k < |r| ==> TransformCell(cells[indices[k]], f) == Success(r[k]))
      && (forall k :: 0 <= k < |r| ==> (IsNull(r[k]) <==> IsNull(cells[indices[k]])))
    decreases |indices|
  {
    if indices != [] {
      TransformedCellsShape(cells, indices[..|indices| - 1], f);
    }
  }

  /** On a column whose cells are null or text, every string function other
      than a replace that does not settle succeeds. */
  lemma {:induction false} TransformedCellsSucceed(cells: seq<Types>, indices: seq<int>, f: StringFunction)
    requires InRange(indices, |cells|)
    requires forall k :: 0 <= k < |cells| ==> IsNull(cells[k]) || IsStringType(GetType(cells[k]))
    requires f.ReplaceWith? ==> forall k :: 0 <= k < |cells| && !IsNull(cells[k]) ==>
      Replaced(GetString(cells[k]).value, f.pattern, f.newVal, f.fuel).Success?
    ensures TransformedCells(cells, indices, f).Success?
    decreases |indices|
  {
    if indices != [] {
      TransformedCellsSucceed(cells, indices[..|indices| - 1], f);
    }
  }

  /** The result column (a TEXT or INT column with the default constraints)
      takes every cell a string function produces: its pushes cannot fail. */
  lemma ResultColumnTakesCells(cells: seq<Types>, indices: seq<int>, f: StringFunction, same: (Types, Types) -> bool)
    requires InRange(indices, |cells|)
    requires TransformedCells(cells, indices, f).Success?
    ensures var r := TransformedCells(cells, indices, f).value;
      Build(ResultType(f), DefaultConstraints, same, r) == Success(r)
  {
    var r := TransformedCells(cells, indices, f).value;
    TransformedCellsShape(cells, indices, f);
    forall k | 0 <= k < |r|
      ensures Conforms(ResultType(f), DefaultConstraints, r[k])
    {
      assert TransformCell(cells[indices[k]], f) == Success(r[k]);
    }
    BuildWithoutUniqueness(ResultType(f), DefaultConstraints, same, r);
  }

  // ---------------------------------------------------------------------
  // nullIf and coalesce

  /** The cells nullIf pushes: null where the cell equals `rhs`, the cell
      itself elsewhere. */
  function NullIfCells(cells: seq<Types>, indices: seq<int>, rhs: Types): (r: seq<Types>)
    requires InRange(indices, |cells|)
    ensures |r| == |indices|
    ensures forall k :: 0 <= k < |r| ==> (IsNull(r[k]) <==> IsNull(cells[indices[k]]) || NullIfEqual(cells[indices[k]], rhs))
  {
    seq(|indices|, k requires 0 <= k < |indices| =>
          if NullIfEqual(cells[indices[k]], rhs) then NullCell else cells[indices[k]])
  }

  /** The constraints of nullIf's result column: the column's own, nulls allowed. */
  function NullIfConstraints(cons: ColumnConstraints): ColumnConstraints
  {
    cons.(takesNulls := true)
  }

  /** The cells coalesce pushes: `rhs` in place of a null, the cell itself
      elsewhere. */
  function CoalesceCells(cells: seq<Types>, indices: seq<int>, rhs: Types): (r: seq<Types>)
    requires InRange(indices, |cells|)
    ensures |r| == |indices|
    ensures forall k :: 0 <= k < |r| ==> r[k] == if IsNull(cells[indices[k]]) then rhs else cells[indices[k]]
  {
    seq(|indices|, k requires 0 <= k < |indices| => if IsNull(cells[indices[k]]) then rhs else cells[indices[k]])
  }

  /** The constraints of coalesce's result column: the column's own, nulls
      refused, and a non-null default of the column's type. */
  function CoalesceConstraints(t: Datatypes, cons: ColumnConstraints): ColumnConstraints
    requires t != NullValue
  {
    cons.(takesNulls := false, defaultValue := ValidNonNullDefaultValue(t))
  }

  /** Whatever coalesce returns holds no null. */
  lemma CoalesceHasNoNulls(t: Datatypes, cons: ColumnConstraints, same: (Types, Types) -> bool, cells: seq<Types>)
    requires t != NullValue
    requires Build(t, CoalesceConstraints(t, cons), same, cells).Success?
    ensures forall k :: 0 <= k < |cells| ==> !IsNull(Build(t, CoalesceConstraints(t, cons), same, cells).value[k])
  {
    var c := CoalesceConstraints(t, cons);
    PushAllSucceeds(t, c, same, [], cells);
    forall k | 0 <= k < |cells|
      ensures !IsNull(cells[k])
    {
      assert CellFault(t, c, same, [] + cells[..k], cells[k], false).None?;
    }
  }

  /** coalesce checks the default of its result column, which for VARCHAR and
      CHAR has length 100 and for TIME and DATETIME precision 0: a column
      constraining either to anything else cannot be coalesced. */
  lemma CoalesceRejectsOtherDefaults(t: Datatypes, cons: ColumnConstraints, same: (Types, Types) -> bool, cells: seq<Types>)
    requires t in {VarcharType, CharType, TimeType, DatetimeType}
    requires t in {VarcharType, CharType} ==> cons.charLength != Unconstrained && cons.charLength != 100
    requires t in {TimeType, DatetimeType} ==> cons.timePrecision != Unconstrained && cons.timePrecision != 0
    ensures Build(t, CoalesceConstraints(t, cons), same, cells).Failure?
  {
  }

  /** A column holding no null and no value equal to `rhs` is returned as it
      is by nullIf; nullIf of a value every cell equals is all nulls. */
  lemma NullIfKeepsUnequal(cells: seq<Types>, indices: seq<int>, rhs: Types)
    requires InRange(indices, |cells|)
    ensures (forall k :: 0 <= k < |indices| ==> !NullIfEqual(cells[indices[k]], rhs)) ==>
      NullIfCells(cells, indices, rhs) == seq(|indices|, k requires 0 <= k < |indices| => cells[indices[k]])
    ensures (forall k :: 0 <= k < |indices| ==> NullIfEqual(cells[indices[k]], rhs)) ==>
      NullIfCells(cells, indices, rhs) == seq(|indices|, k => NullCell)
  {
  }

  /** The source's nullIf example on an INT column. */
  lemma NullIfExample()
    ensures NullIfCells([IntCell(10), IntCell(20), IntCell(30), IntCell(40)], [0, 1, 2, 3], IntCell(20))
         == [IntCell(10), NullCell, IntCell(30), IntCell(40)]
  {
  }

  /** The source's coalesce example on an INT column: the nulls become 99,
      and the result column takes the cells. */
  lemma CoalesceExample(same: (Types, Types) -> bool)
    ensures CoalesceCells([IntCell(10), NullCell, IntCell(30), NullCell], [0, 1, 2, 3], IntCell(99))
         == [IntCell(10), IntCell(99), IntCell(30), IntCell(99)]
    ensures Build(Integer, CoalesceConstraints(Integer, DefaultConstraints), same,
                  [IntCell(10), IntCell(99), IntCell(30), IntCell(99)]).Success?
  {
    var cons := CoalesceConstraints(Integer, DefaultConstraints);
    var cells := [IntCell(10), IntCell(99), IntCell(30), IntCell(99)];
    assert Conforms(Integer, cons, cons.defaultValue);
    assert forall k :: 0 <= k < |cells| ==> Conforms(Integer, cons, cells[k]);
    BuildWithoutUniqueness(Integer, cons, same, cells);
  }

  // ---------------------------------------------------------------------
  // Aggregates

  /** The number of non-null cells among the indexed ones. */
  function NonNullCount(cells: seq<Types>, indices: seq<int>): (n: nat)
    requires InRange(indices, |cells|)
    ensures n <= |indices|
    decreases |indices|
  {
    if indices == [] then 0
    else
      var n := |indices| - 1;
      NonNullCount(cells, indices[..n]) + if IsNull(cells[indices[n]]) then 0 else 1
  }

  /** count is the number of indices exactly when none points at a null. */
  lemma {:induction false} CountAllNonNull(cells: seq<Types>, indices: seq<int>)
    requires InRange(indices, |cells|)
    ensures NonNullCount(cells, indices) == |indices| <==> forall k :: 0 <= k < |indices| ==> !IsNull(cells[indices[k]])
    ensures NonNullCount(cells, indices) == 0 <==> forall k :: 0 <= k < |indices| ==> IsNull(cells[indices[k]])
    decreases |indices|
  {
    if indices != [] {
      var n := |indices| - 1;
      CountAllNonNull(cells, indices[..n]);
      assert forall k :: 0 <= k < n ==> indices[..n][k] == indices[k];
    }
  }

  /** The renderings of the non-null indexed cells, in index order. */
  function Rendered(cells: seq<Types>, indices: seq<int>, floatText: real -> string): (r: seq<string>)
    requires InRange(indices, |cells|)
    ensures |r| == NonNullCount(cells, indices)
    decreases |indices|
  {
    if indices == [] then []
    else
      var n := |indices| - 1;
      Rendered(cells, indices[..n], floatText) +
        if IsNull(cells[indices[n]]) then [] else [Render(cells[indices[n]], floatText)]
  }

  /** stringAggregate's result: the renderings joined by the separator.  The
      source cuts the separator's size off the collected text, which fails
      when nothing was collected and the separator is not empty. */
  function Aggregated(cells: seq<Types>, indices: seq<int>, separator: string, floatText: real -> string): (r: Result<string>)
    requires InRange(indices, |cells|)
  {
    var parts := Rendered(cells, indices, floatText);
    if parts == [] && separator != "" then Failure(EmptyAggregate) else Success(Join(parts, separator))
  }

  /** One more index adds its rendering and the separator, unless its cell
      is null. */
  lemma AggregateStep(cells: seq<Types>, indices: seq<int>, k: int, sep: string, floatText: real -> string)
    requires InRange(indices, |cells|) && 0 <= k < |indices|
    ensures IsNull(cells[indices[k]]) ==>
      Terminated(Rendered(cells, indices[..k + 1], floatText), sep) == Terminated(Rendered(cells, indices[..k], floatText), sep)
    ensures !IsNull(cells[indices[k]]) ==>
      Terminated(Rendered(cells, indices[..k + 1], floatText), sep) ==
      Terminated(Rendered(cells, indices[..k], floatText), sep) + Render(cells[indices[k]], floatText) + sep
  {
    assert indices[..k + 1][..k] == indices[..k];
    var parts := Rendered(cells, indices[..k], floatText);
    if IsNull(cells[indices[k]]) {
      assert Rendered(cells, indices[..k + 1], floatText) == parts + [];
      assert parts + [] == parts;
    } else {
      var part := Render(cells[indices[k]], floatText);
      assert Rendered(cells, indices[..k + 1], floatText) == parts + [part];
      assert (parts + [part])[..|parts|] == parts;
    }
  }

  /** Cutting the separator's size off the terminated parts: impossible
      exactly when there are no parts and the separator is not empty, and the
      join otherwise. */
  lemma CutSeparator(parts: seq<string>, sep: string)
    ensures var t := Terminated(parts, sep);
      && (|t| < |sep| <==> parts == [] && sep != "")
      && (|t| >= |sep| ==> t[..|t| - |sep|] == Join(parts, sep))
  {
    if parts != [] {
      TerminatedIsJoin(parts, sep);
    }
  }

  /** stringAggregate fails only when every indexed cell is null (and the
      separator is not empty); a single non-null cell is rendered alone. */
  lemma AggregateFailsOnlyOnNulls(cells: seq<Types>, indices: seq<int>, separator: string, floatText: real -> string)
    requires InRange(indices, |cells|)
    ensures Aggregated(cells, indices, separator, floatText).Failure? <==>
      separator != "" && forall k :: 0 <= k < |indices| ==> IsNull(cells[indices[k]])
    ensures NonNullCount(cells, indices) == 1 ==>
      Aggregated(cells, indices, separator, floatText) == Success(Rendered(cells, indices, floatText)[0])
  {
    CountAllNonNull(cells, indices);
  }

  /** The source's count and stringAggregate examples. */
  lemma AggregateExamples(floatText: real -> string)
    ensures var cells := [TextCell("A"), TextCell("B"), NullCell, TextCell("C"), TextCell("D")];
      && Aggregated(cells, [0, 1, 2, 3, 4], ",", floatText) == Success("A,B,C,D")
      && Aggregated(cells, [0, 1, 2, 3, 4], "->", floatText) == Success("A->B->C->D")
  {
    RenderedExample(floatText);
    JoinExamples();
  }

  /** The source's count test: three of the five cells are not null. */
  lemma CountExample()
    ensures NonNullCount([IntCell(1), NullCell, IntCell(2), IntCell(4), NullCell], [0, 1, 2, 3, 4]) == 3
  {
    PrefixesOfOrder();
    var ints := [IntCell(1), NullCell, IntCell(2), IntCell(4), NullCell];
    assert NonNullCount(ints, [0, 1, 2]) == 2;
  }

  lemma PrefixesOfOrder()
    ensures [0, 1, 2, 3, 4][..4] == [0, 1, 2, 3] && [0, 1, 2, 3][..3] == [0, 1, 2]
    ensures [0, 1, 2][..2] == [0, 1] && [0, 1][..1] == [0] && [0][..0] == []
  {
  }

  lemma RenderedExample(floatText: real -> string)
    ensures Rendered([TextCell("A"), TextCell("B"), NullCell, TextCell("C"), TextCell("D")], [0, 1, 2, 3, 4], floatText)
         == ["A", "B", "C", "D"]
  {
    PrefixesOfOrder();
  }

  lemma JoinExamples()
    ensures Join(["A", "B", "C", "D"], ",") == "A,B,C,D"
    ensures Join(["A", "B", "C", "D"], "->") == "A->B->C->D"
  {
    assert ["A", "B", "C", "D"][..3] == ["A", "B", "C"];
    assert ["A", "B", "C"][..2] == ["A", "B"];
    assert ["A", "B"][..1] == ["A"];
    assert Join(["A", "B"], ",") == "A,B";
    assert Join(["A", "B", "C"], ",") == "A,B,C";
    assert Join(["A", "B"], "->") == "A->B";
    assert Join(["A", "B", "C"], "->") == "A->B->C";
  }


  // ---------------------------------------------------------------------
  // The column

  class Column {
    const columnType: Datatypes
    const constraints: ColumnConstraints
    /** The equality of the cell comparator, used by the uniqueness checks. */
    const same: (Types, Types) -> bool
    var col: seq<Types>

    /** What construction establishes and every mutator keeps: the default
        and every cell pass the per-cell checks. */
    predicate Valid()
      reads this
    {
      && Conforms(columnType, constraints, constraints.defaultValue)
      && forall k :: 0 <= k < |col| ==> Conforms(columnType, constraints, col[k])
    }

    constructor Of(t: Datatypes, cons: ColumnConstraints, same: (Types, Types) -> bool, cells: seq<Types>)
      ensures columnType == t && constraints == cons && this.same == same && col == cells
    {
      columnType := t;
      constraints := cons;
      this.same := same;
      col := cells;
    }

    /** Column(type): empty, with the default constraints. */
    constructor OfType(t: Datatypes, same: (Types, Types) -> bool)
      ensures columnType == t && constraints == DefaultConstraints && this.same == same && col == []
      ensures Valid()
    {
      columnType := t;
      constraints := DefaultConstraints;
      this.same := same;
      col := [];
    }

    /** Column(type, constraints): the default value is checked. */
    static method WithConstraints(t: Datatypes, cons: ColumnConstraints, same: (Types, Types) -> bool)
      returns (r: Result<Column>)
      ensures r.Failure? <==> CellFault(t, cons, same, [], cons.defaultValue, true).Some?
      ensures r.Failure? ==> r.error == CellFault(t, cons, same, [], cons.defaultValue, true).value
      ensures r.Success? ==> fresh(r.value) && r.value.Valid() && r.value.col == []
      ensures r.Success? ==> r.value.columnType == t && r.value.constraints == cons && r.value.same == same
    {
      var fault := CellFault(t, cons, same, [], cons.defaultValue, true);
      if fault.Some? {
        return Failure(fault.value);
      }
      var c := new Column.Of(t, cons, same, []);
      r := Success(c);
    }

    /** Column(cells, type): the default constraints, and the whole column
        checked. */
    static method OfCells(cells: seq<Types>, t: Datatypes, same: (Types, Types) -> bool)
      returns (r: Result<Column>)
      ensures r.Failure? <==> WholeColumnFault(t, DefaultConstraints, same, cells).Some?
      ensures r.Failure? ==> r.error == WholeColumnFault(t, DefaultConstraints, same, cells).value
      ensures r.Success? ==> fresh(r.value) && r.value.Valid() && r.value.col == cells
      ensures r.Success? ==> r.value.columnType == t && r.value.constraints == DefaultConstraints && r.value.same == same
    {
      var fault := WholeColumnFault(t, DefaultConstraints, same, cells);
      if fault.Some? {
        return Failure(fault.value);
      }
      var c := new Column.Of(t, DefaultConstraints, same, cells);
      r := Success(c);
    }

    /** Column(cells, type, constraints): the default value, then the whole
        column, checked. */
    static method OfCellsWithConstraints(cells: seq<Types>, t: Datatypes, cons: ColumnConstraints, same: (Types, Types) -> bool)
      returns (r: Result<Column>)
      ensures r.Success? <==>
        CellFault(t, cons, same, cells, cons.defaultValue, true).None? && WholeColumnFault(t, cons, same, cells).None?
      ensures r.Success? ==> fresh(r.value) && r.value.Valid() && r.value.col == cells
      ensures r.Success? ==> r.value.columnType == t && r.value.constraints == cons && r.value.same == same
    {
      var fault := CellFault(t, cons, same, cells, cons.defaultValue, true);
      if fault.Some? {
        return Failure(fault.value);
      }
      fault := WholeColumnFault(t, cons, same, cells);
      if fault.Some? {
        return Failure(fault.value);
      }
      var c := new Column.Of(t, cons, same, cells);
      r := Success(c);
    }

    function Size(): (n: nat)
      reads this
      ensures n == |col|
    {
      |col|
    }

    /** operator[]: a non-negative index counts from the front, a negative one
        from the back; an index beyond the size in either direction stops the
        program.  The index equal to the size passes the source's check and
        reads past the end, so it is excluded. */
    function At(index: int): (r: Result<Types>)
      reads this
      requires index != |col|
      ensures 0 <= index < |col| ==> r == Success(col[index])
      ensures -|col| <= index < 0 ==> r == Success(col[|col| + index])
      ensures r.Failure? <==> index > |col| || index < -|col|
    {
      if index > |col| || -index > |col| then Failure(IndexOutOfRange)
      else if index < 0 then Success(col[|col| + index])
      else Success(col[index])
    }

    /** push(): the default value, unchecked. */
    method PushDefault()
      modifies this
      requires Valid()
      ensures col == old(col) + [constraints.defaultValue]
      ensures Valid()
    {
      col := col + [constraints.defaultValue];
    }

    /** push(value): checked against the column as it is, then appended. */
    method Push(value: Types) returns (fault: Option<Fault>)
      modifies this
      requires Valid()
      ensures fault == CellFault(columnType, constraints, same, old(col), value, false)
      ensures col == if fault.None? then old(col) + [value] else old(col)
      ensures Valid()
    {
      fault := CellFault(columnType, constraints, same, col, value, false);
      if fault.None? {
        col := col + [value];
      }
    }

    /** update(index, value): checked against the column as it is (the cell
        being replaced included), then stored at that position alone. */
    method Update(index: int, value: Types) returns (fault: Option<Fault>)
      modifies this
      requires Valid() && 0 <= index < |col|
      ensures fault == CellFault(columnType, constraints, same, old(col), value, false)
      ensures col == if fault.None? then old(col)[index := value] else old(col)
      ensures Valid()
    {
      fault := CellFault(columnType, constraints, same, col, value, false);
      if fault.None? {
        col := col[index := value];
      }
    }

    /** erase(index): the cell at that position removed, the others kept in
        order. */
    method Erase(index: int)
      modifies this
      requires Valid() && 0 <= index < |col|
      ensures col == old(col)[..index] + old(col)[index + 1..]
      ensures Valid()
    {
      col := col[..index] + col[index + 1..];
    }

    /** bulkErase(indices): sorts the caller's indices greatest first, then
        erases each; the listed positions are gone and the rest are kept in
        order. */
    method BulkErase(indices: array<int>)
      modifies this, indices
      requires Valid()
      requires Distinct(indices[..]) && InRange(indices[..], |col|)
      ensures Descending(indices[..]) && multiset(indices[..]) == multiset(old(indices[..]))
      ensures col == Kept(old(col), Elements(old(indices[..])))
      ensures Valid()
    {
      ghost var original := col;
      ghost var given := indices[..];
      DistinctCounts(given);
      SortDescending(indices);
      ghost var sorted := indices[..];
      SamePositions(given, sorted, |original|);
      KeptNone(original, {});
      assert Elements(sorted[..0]) == {};
      var k := 0;
      while k < indices.Length
        modifies this
        invariant 0 <= k <= indices.Length && indices[..] == sorted
        invariant col == Kept(original, Elements(sorted[..k]))
        invariant Valid()
      {
        var i := indices[k];
        EraseNext(original, sorted, k);
        col := col[..i] + col[i + 1..];
        KeptIsPart(original, Elements(sorted[..k + 1]));
        PartConforms(columnType, constraints, original, col);
        k := k + 1;
      }
      assert sorted[..indices.Length] == sorted;
    }

    /** bulkUpdate(indices, value): the value is checked against the column
        as it is; if it passes, every listed position takes it, and the whole
        column is checked afterwards (its failure leaves the update done). */
    method BulkUpdate(indices: seq<int>, value: Types) returns (fault: Option<Fault>)
      modifies this
      requires Valid() && InRange(indices, |col|)
      ensures CellFault(columnType, constraints, same, old(col), value, false).Some? ==>
        fault == CellFault(columnType, constraints, same, old(col), value, false) && col == old(col)
      ensures CellFault(columnType, constraints, same, old(col), value, false).None? ==>
        col == Overwritten(old(col), indices, value) && fault == WholeColumnFault(columnType, constraints, same, col)
      ensures Valid()
    {
      fault := CellFault(columnType, constraints, same, col, value, false);
      if fault.Some? {
        return;
      }
      ghost var original := col;
      var k := 0;
      while k < |indices|
        invariant 0 <= k <= |indices|
        invariant col == Overwritten(original, indices[..k], value)
      {
        assert forall x :: x in indices[..k + 1] <==> x in indices[..k] || x == indices[k] by {
          assert indices[..k + 1] == indices[..k] + [indices[k]];
        }
        col := col[indices[k] := value];
        k := k + 1;
      }
      assert indices[..k] == indices;
      fault := WholeColumnFault(columnType, constraints, same, col);
    }

    /** length, concat, upper, lower, initCap, substring, trim, replace, left
        and right: a column that is not text-valued stops the program;
        otherwise the cells of the result column, one per index. */
    method Transform(indices: seq<int>, f: StringFunction) returns (r: Result<seq<Types>>)
      requires InRange(indices, |col|)
      ensures !IsStringType(columnType) ==> r == Failure(NotAString)
      ensures IsStringType(columnType) ==> r == TransformedCells(col, indices, f)
    {
      if !IsStringType(columnType) {
        return Failure(NotAString);
      }
      var out: seq<Types> := [];
      var k := 0;
      while k < |indices|
        invariant 0 <= k <= |indices|
        invariant TransformedCells(col, indices[..k], f) == Success(out)
      {
        assert indices[..k + 1][..k] == indices[..k];
        var cell := col[indices[k]];
        var next: Result<Types>;
        if IsNull(cell) {
          next := Success(NullCell);
        } else {
          var text := GetString(cell);
          if text.Failure? {
            FailurePersists(col, indices, f, k + 1);
            return Failure(text.error);
          }
          next := ApplyTo(f, text.value);
        }
        if next.Failure? {
          FailurePersists(col, indices, f, k + 1);
          return Failure(next.error);
        }
        out := out + [next.value];
        k := k + 1;
      }
      assert indices[..k] == indices;
      r := Success(out);
    }

    /** nullIf(indices, rhs): null where the cell equals rhs, pushed into a
        column with these constraints but nulls allowed. */
    method NullIf(indices: seq<int>, rhs: Types) returns (r: Result<seq<Types>>)
      requires InRange(indices, |col|)
      ensures r == Build(columnType, NullIfConstraints(constraints), same, NullIfCells(col, indices, rhs))
    {
      var cells: seq<Types> := [];
      var k := 0;
      while k < |indices|
        invariant 0 <= k <= |indices|
        invariant cells == NullIfCells(col, indices, rhs)[..k]
      {
        var cell := col[indices[k]];
        cells := cells + [if NullIfEqual(cell, rhs) then NullCell else cell];
        k := k + 1;
      }
      assert cells == NullIfCells(col, indices, rhs);
      r := PushEach(columnType, NullIfConstraints(constraints), same, cells);
    }

    /** coalesce(indices, rhs): rhs in place of a null, pushed into a column
        refusing nulls whose default is a non-null value of the type. */
    method Coalesce(indices: seq<int>, rhs: Types) returns (r: Result<seq<Types>>)
      requires columnType != NullValue && InRange(indices, |col|)
      ensures r == Build(columnType, CoalesceConstraints(columnType, constraints), same, CoalesceCells(col, indices, rhs))
    {
      var cells: seq<Types> := [];
      var k := 0;
      while k < |indices|
        invariant 0 <= k <= |indices|
        invariant cells == CoalesceCells(col, indices, rhs)[..k]
      {
        var cell := col[indices[k]];
        cells := cells + [if IsNull(cell) then rhs else cell];
        k := k + 1;
      }
      assert cells == CoalesceCells(col, indices, rhs);
      r := PushEach(columnType, CoalesceConstraints(columnType, constraints), same, cells);
    }

    /** count(indices): the indexed cells that are not null. */
    method Count(indices: seq<int>) returns (n: int)
      requires InRange(indices, |col|)
      ensures n == NonNullCount(col, indices)
    {
      n := 0;
      var k := 0;
      while k < |indices|
        invariant 0 <= k <= |indices|
        invariant n == NonNullCount(col, indices[..k])
      {
        assert indices[..k + 1][..k] == indices[..k];
        if !IsNull(col[indices[k]]) {
          n := n + 1;
        }
        k := k + 1;
      }
      assert indices[..k] == indices;
    }

    /** stringAggregate(indices, separator): each non-null cell's rendering
        followed by the separator, with the last separator cut off. */
    method StringAggregate(indices: seq<int>, separator: string, floatText: real -> string) returns (r: Result<string>)
      requires InRange(indices, |col|)
      ensures r == Aggregated(col, indices, separator, floatText)
    {
      var result := "";
      var k := 0;
      while k < |indices|
        invariant 0 <= k <= |indices|
        invariant result == Terminated(Rendered(col, indices[..k], floatText), separator)
      {
        AggregateStep(col, indices, k, separator, floatText);
        var cell := col[indices[k]];
        if !IsNull(cell) {
          result := result + Render(cell, floatText) + separator;
        }
        k := k + 1;
      }
      assert indices[..k] == indices;
      CutSeparator(Rendered(col, indices, floatText), separator);
      if |result| < |separator| {
        return Failure(EmptyAggregate);
      }
      r := Success(result[..|result| - |separator|]);
    }
  }

  /** Signed indexing reads the same cell from either end. */
  lemma AtFromEitherEnd(c: Column, index: int)
    requires 0 <= index < |c.col|
    ensures c.At(index) == c.At(index - |c.col|) == Success(c.col[index])
  {
  }

  /** The source's bulkErase example: positions 0, 2 and 4 of six cells. */
  lemma BulkEraseExample()
    ensures Kept([IntCell(10), IntCell(0), IntCell(30), IntCell(0), IntCell(50), IntCell(0)], {0, 2, 4})
         == [IntCell(0), IntCell(0), IntCell(0)]
  {
    var s := [IntCell(10), IntCell(0), IntCell(30), IntCell(0), IntCell(50), IntCell(0)];
    var g := {0, 2, 4};
    KeptExampleFront(s, g);
    assert s[..6][..5] == s[..5] && s[..6] == s;
    assert 5 !in g;
  }

  lemma KeptExampleFront(s: seq<Types>, g: set<int>)
    requires s == [IntCell(10), IntCell(0), IntCell(30), IntCell(0), IntCell(50), IntCell(0)] && g == {0, 2, 4}
    ensures Kept(s[..5], g) == [IntCell(0), IntCell(0)]
  {
    assert 0 in g && 1 !in g && 2 in g && 3 !in g && 4 in g;
    assert Kept(s[..1], g) == [] by { assert s[..1][..0] == []; }
    assert Kept(s[..2], g) == [IntCell(0)] by { assert s[..2][..1] == s[..1]; }
    assert Kept(s[..3], g) == [IntCell(0)] by { assert s[..3][..2] == s[..2]; }
    assert Kept(s[..4], g) == [IntCell(0), IntCell(0)] by { assert s[..4][..3] == s[..3]; }
    assert s[..5][..4] == s[..4];
  }
}
