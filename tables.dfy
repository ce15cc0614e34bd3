/** The table module: aliases of column names and a table as a map from
    column names to columns, with columns read from comma-separated text. */
module Tables {
  import opened Results
  import opened Cells
  import opened Columns
  import opened Strings

  // ---------------------------------------------------------------------
  // Alias

  /** A column's names: the original one first, then its aliases. */
  datatype Alias = Alias(names: seq<string>)

  /** The position of the original name. */
  const OriginalNameLocation: nat := 0

  /** Alias(name): the name alone. */
  function NewAlias(name: string): (a: Alias)
    ensures |a.names| == 1 && a.names[OriginalNameLocation] == name
  {
    Alias([name])
  }

  /** getOriginalName: the first name. */
  function OriginalName(a: Alias): (r: string)
    requires |a.names| > OriginalNameLocation
    ensures ContainsName(a, r)
  {
    a.names[OriginalNameLocation]
  }

  /** containsName: the name is one of the alias's names. */
  predicate ContainsName(a: Alias, name: string): (b: bool)
    ensures b <==> exists i :: 0 <= i < |a.names| && a.names[i] == name
  {
    name in a.names
  }

  /** A fresh alias answers to its name alone and gives it back as original. */
  lemma NewAliasNames(name: string, other: string)
    ensures OriginalName(NewAlias(name)) == name
    ensures ContainsName(NewAlias(name), other) <==> other == name
  {
  }

  /** An alias with names added keeps its original name. */
  lemma OriginalNameStays(a: Alias, more: seq<string>)
    requires |a.names| > 0
    ensures OriginalName(Alias(a.names + more)) == OriginalName(a)
    ensures forall n :: ContainsName(a, n) ==> ContainsName(Alias(a.names + more), n)
  {
  }

  // ---------------------------------------------------------------------
  // Aliases

  /** operator[] of Aliases: the original name of the first alias naming
      `name`; no such alias stops the program. */
  function Lookup(aliases: seq<Alias>, name: string): (r: Result<string>)
    requires forall i :: 0 <= i < |aliases| ==> |aliases[i].names| > 0
    ensures r.Failure? <==> forall i :: 0 <= i < |aliases| ==> !ContainsName(aliases[i], name)
    ensures r.Failure? ==> r.error == UnknownName
    ensures r.Success? ==> exists i :: FirstNaming(aliases, name, i) && r.value == OriginalName(aliases[i])
    decreases |aliases|
  {
    if aliases == [] then Failure(UnknownName)
    else if ContainsName(aliases[0], name) then
      assert FirstNaming(aliases, name, 0);
      Success(OriginalName(aliases[0]))
    else
      var rest := Lookup(aliases[1..], name);
      assert forall i :: 1 <= i < |aliases| ==> aliases[i] == aliases[1..][i - 1];
      if rest.Success? then
        var j :| FirstNaming(aliases[1..], name, j) && rest.value == OriginalName(aliases[1..][j]);
        assert FirstNaming(aliases, name, j + 1);
        rest
      else rest
  }

  /** Alias i is the first to name `name`. */
  predicate FirstNaming(aliases: seq<Alias>, name: string, i: int)
  {
    0 <= i < |aliases| && ContainsName(aliases[i], name) && forall j :: 0 <= j < i ==> !ContainsName(aliases[j], name)
  }

  /** The first alias whose original name is `trueName`. */
  function FirstWithOriginal(aliases: seq<Alias>, trueName: string): (r: Option<nat>)
    requires forall i :: 0 <= i < |aliases| ==> |aliases[i].names| > 0
    ensures r.Some? ==> r.value < |aliases| && OriginalName(aliases[r.value]) == trueName
    ensures r.Some? ==> forall j :: 0 <= j < r.value ==> OriginalName(aliases[j]) != trueName
    ensures r.None? ==> forall j :: 0 <= j < |aliases| ==> OriginalName(aliases[j]) != trueName
    decreases |aliases|
  {
    if aliases == [] then None
    else if OriginalName(aliases[0]) == trueName then Some(0)
    else
      assert forall i :: 1 <= i < |aliases| ==> aliases[i] == aliases[1..][i - 1];
      match FirstWithOriginal(aliases[1..], trueName)
      case None => None
      case Some(j) => Some(j + 1)
  }

  /** The aliases once `newName` is added to the first alias originally
      named `trueName` (unchanged when there is none). */
  function WithAlias(aliases: seq<Alias>, trueName: string, newName: string): seq<Alias>
    requires forall i :: 0 <= i < |aliases| ==> |aliases[i].names| > 0
  {
    match FirstWithOriginal(aliases, trueName)
    case None => aliases
    case Some(i) => aliases[i := Alias(aliases[i].names + [newName])]
  }

  /** The alias registry. */
  class Aliases {
    var names: seq<Alias>

    /** Every alias has its original name. */
    predicate Valid()
      reads this
    {
      forall i :: 0 <= i < |names| ==> |names[i].names| > 0
    }

    constructor ()
      ensures names == [] && Valid()
    {
      names := [];
    }

    /** push(alias): appended at the end. */
    method Push(alias: Alias)
      modifies this
      requires Valid() && |alias.names| > 0
      ensures names == old(names) + [alias] && Valid()
    {
      names := names + [alias];
    }

    /** push(trueName, newName) as written: the loop walks over copies of
        the aliases, so the name is added to a copy and the registry is left
        as it was. */
    method PushNameAsWritten(trueName: string, newName: string)
      modifies this
      requires Valid()
      ensures names == old(names) && Valid()
    {
      var i := 0;
      while i < |names|
        invariant 0 <= i <= |names| && names == old(names)
      {
        var a := names[i];
        if a.names[OriginalNameLocation] == trueName {
          a := Alias(a.names + [newName]);
          return;
        }
        i := i + 1;
      }
    }

    /** push(trueName, newName) as intended: `newName` joins the names of the
        first alias originally called `trueName`. */
    method PushName(trueName: string, newName: string)
      modifies this
      requires Valid()
      ensures names == WithAlias(old(names), trueName, newName) && Valid()
    {
      var i := 0;
      while i < |names|
        invariant 0 <= i <= |names| && names == old(names)
        invariant forall j :: 0 <= j < i ==> OriginalName(names[j]) != trueName
      {
        if names[i].names[OriginalNameLocation] == trueName {
          names := names[i := Alias(names[i].names + [newName])];
          return;
        }
        i := i + 1;
      }
    }

    /** operator[]: the search through the aliases in order. */
    method Resolve(name: string) returns (r: Result<string>)
      requires Valid()
      ensures r == Lookup(names, name)
    {
      var i := 0;
      while i < |names|
        invariant 0 <= i <= |names|
        invariant forall j :: 0 <= j < i ==> !ContainsName(names[j], name)
        invariant Lookup(names, name) == Lookup(names[i..], name)
      {
        assert names[i..][1..] == names[i + 1..];
        if name in names[i].names {
          return Success(names[i].names[OriginalNameLocation]);
        }
        i := i + 1;
      }
      r := Failure(UnknownName);
    }
  }

  /** Looking up a name skips the aliases before the first that names it. */
  lemma {:induction false} LookupFirst(aliases: seq<Alias>, name: string, i: int)
    requires forall k :: 0 <= k < |aliases| ==> |aliases[k].names| > 0
    requires FirstNaming(aliases, name, i)
    ensures Lookup(aliases, name) == Success(OriginalName(aliases[i]))
    decreases i
  {
    if i > 0 {
      assert FirstNaming(aliases[1..], name, i - 1);
      LookupFirst(aliases[1..], name, i - 1);
    }
  }

  /** A registered column name resolves to itself, unless an earlier alias
      already claims it. */
  lemma PushedNameResolves(aliases: seq<Alias>, name: string)
    requires forall k :: 0 <= k < |aliases| ==> |aliases[k].names| > 0
    requires forall k :: 0 <= k < |aliases| ==> !ContainsName(aliases[k], name)
    ensures Lookup(aliases + [NewAlias(name)], name) == Success(name)
  {
    LookupFirst(aliases + [NewAlias(name)], name, |aliases|);
  }

  /** After the intended push, the new name resolves to the true name
      (when no earlier alias already claims the new name), and every name
      resolving before still resolves the same. */
  lemma PushNameResolves(aliases: seq<Alias>, trueName: string, newName: string, other: string)
    requires forall k :: 0 <= k < |aliases| ==> |aliases[k].names| > 0
    requires FirstWithOriginal(aliases, trueName).Some?
    requires forall k :: 0 <= k < |aliases| ==> !ContainsName(aliases[k], newName)
    ensures Lookup(WithAlias(aliases, trueName, newName), newName) == Success(trueName)
    ensures Lookup(aliases, other).Success? ==> Lookup(WithAlias(aliases, trueName, newName), other) == Lookup(aliases, other)
  {
    var i := FirstWithOriginal(aliases, trueName).value;
    var after := WithAlias(aliases, trueName, newName);
    assert FirstNaming(after, newName, i);
    LookupFirst(after, newName, i);
    if Lookup(aliases, other).Success? {
      var j :| FirstNaming(aliases, other, j) && Lookup(aliases, other).value == OriginalName(aliases[j]);
      LookupFirst(aliases, other, j);
      assert FirstNaming(after, other, j);
      LookupFirst(after, other, j);
    }
  }

  /** As written, push(trueName, newName) leaves a new name unresolvable. */
  lemma PushNameAsWrittenLosesAlias()
    ensures Lookup([NewAlias("id")], "key") == Failure(UnknownName)
    ensures Lookup(WithAlias([NewAlias("id")], "id", "key"), "key") == Success("id")
  {
    PushNameResolves([NewAlias("id")], "id", "key", "key");
  }

  // ---------------------------------------------------------------------
  // Comma-separated values

  /** The first comma at or after `from`, or the end of the text. */
  function NextComma(values: string, from: nat): (e: nat)
    requires from <= |values|
    ensures from <= e <= |values|
    ensures e < |values| ==> values[e] == ','
    decreases |values| - from
  {
    if from == |values| || values[from] == ',' then from else NextComma(values, from + 1)
  }

  /** The fields commaSeparatedToColumn reads as written: the first runs to
      the first comma, every later one starts at its comma. */
  function FieldsFrom(values: string, begin: nat, end: nat): (r: seq<string>)
    requires begin <= end <= |values|
    ensures |r| > 0
    decreases |values| - end
  {
    if end == |values| then [values[begin..end]]
    else [values[begin..end]] + FieldsFrom(values, end, NextComma(values, end + 1))
  }

  function AsWrittenFields(values: string): seq<string>
  {
    FieldsFrom(values, 0, NextComma(values, 0))
  }

  /** The fields between the commas, read character by character: a comma
      starts a new field, any other character extends the current one. */
  function Split(values: string): (r: seq<string>)
    ensures |r| > 0
    decreases |values|
  {
    if values == [] then [""]
    else
      var rest := Split(values[1..]);
      if values[0] == ',' then [""] + rest else [[values[0]] + rest[0]] + rest[1..]
  }

  /** The first field of a text runs to its next comma. */
  lemma {:induction false} SplitAt(values: string, begin: nat)
    requires begin <= |values|
    ensures NextComma(values, begin) < |values| ==>
      Split(values[begin..]) == [values[begin..NextComma(values, begin)]] + Split(values[NextComma(values, begin) + 1..])
    ensures NextComma(values, begin) == |values| ==> Split(values[begin..]) == [values[begin..]]
    decreases |values| - begin
  {
    if begin < |values| {
      var text := values[begin..];
      assert text[1..] == values[begin + 1..];
      var rest := Split(values[begin + 1..]);
      var e := NextComma(values, begin);
      if values[begin] == ',' {
        assert Split(text) == [""] + rest;
        assert values[begin..e] == "";
      } else {
        SplitAt(values, begin + 1);
        assert Split(text) == [[values[begin]] + rest[0]] + rest[1..];
        assert values[begin..e] == [values[begin]] + values[begin + 1..e];
        if e < |values| {
          assert rest[1..] == Split(values[e + 1..]);
        } else {
          assert text == [values[begin]] + values[begin + 1..];
        }
      }
    }
  }

  /** No field holds a comma. */
  lemma {:induction false} SplitCommaFree(values: string)
    ensures forall k :: 0 <= k < |Split(values)| ==> ',' !in Split(values)[k]
    decreases |values|
  {
    if values != [] {
      SplitCommaFree(values[1..]);
    }
  }

  /** Every field but the first keeps its leading comma: as written, the
      fields are the comma-free ones with a comma put back in front of all
      but the first. */
  lemma {:induction false} AsWrittenKeepsCommas(values: string, begin: nat)
    requires begin < |values| && values[begin] == ','
    ensures CommaMarked(FieldsFrom(values, begin, NextComma(values, begin + 1)), Split(values[begin + 1..]))
    decreases |values| - begin
  {
    var e := NextComma(values, begin + 1);
    SplitAt(values, begin + 1);
    assert values[begin..e] == "," + values[begin + 1..e];
    if e < |values| {
      FieldsFromStep(values, begin, e);
      AsWrittenKeepsCommas(values, e);
      MarkedCons(values[begin..e], FieldsFrom(values, e, NextComma(values, e + 1)), values[begin + 1..e], Split(values[e + 1..]));
    } else {
      MarkedCons(values[begin..e], [], values[begin + 1..e], []);
    }
  }

  /** `written` is `fields` with a comma put in front of every field. */
  predicate CommaMarked(written: seq<string>, fields: seq<string>)
  {
    |written| == |fields| && forall k :: 0 <= k < |fields| ==> written[k] == "," + fields[k]
  }

  lemma MarkedCons(w: string, written: seq<string>, f: string, fields: seq<string>)
    requires w == "," + f && CommaMarked(written, fields)
    ensures CommaMarked([w] + written, [f] + fields)
  {
    forall k | 1 <= k < |fields| + 1
      ensures ([w] + written)[k] == "," + ([f] + fields)[k]
    {
      assert ([w] + written)[k] == written[k - 1];
    }
  }

  /** The fields as written from a comma that is not the last character. */
  lemma FieldsFromStep(values: string, begin: nat, end: nat)
    requires begin <= end < |values|
    ensures FieldsFrom(values, begin, end) == [values[begin..end]] + FieldsFrom(values, end, NextComma(values, end + 1))
  {
  }

  /** The fields as written against the intended ones: the first agrees, the
      others carry a comma in front. */
  lemma AsWrittenFieldsCarryCommas(values: string)
    ensures |AsWrittenFields(values)| == |Split(values)|
    ensures AsWrittenFields(values)[0] == Split(values)[0]
    ensures forall k :: 1 <= k < |Split(values)| ==> AsWrittenFields(values)[k] == "," + Split(values)[k]
  {
    var e := NextComma(values, 0);
    SplitAt(values, 0);
    assert values[0..] == values;
    if e < |values| {
      var written := FieldsFrom(values, e, NextComma(values, e + 1));
      var later := Split(values[e + 1..]);
      FieldsFromStep(values, 0, e);
      AsWrittenKeepsCommas(values, e);
      FirstThenMarked(values[0..e], written, later);
    }
  }

  lemma FirstThenMarked(first: string, written: seq<string>, fields: seq<string>)
    requires CommaMarked(written, fields)
    ensures |[first] + written| == |[first] + fields|
    ensures forall k :: 1 <= k < |fields| + 1 ==> ([first] + written)[k] == "," + ([first] + fields)[k]
  {
    forall k | 1 <= k < |fields| + 1
      ensures ([first] + written)[k] == "," + ([first] + fields)[k]
    {
      assert ([first] + written)[k] == written[k - 1];
      assert ([first] + fields)[k] == fields[k - 1];
    }
  }

  /** The intended reading of "1,2,3". */
  lemma SplitExample()
    ensures Split("1,2,3") == ["1", "2", "3"]
  {
    assert Join(["1", "2", "3"], ",") == "1,2,3" by {
      assert ["1", "2", "3"][..2] == ["1", "2"];
      assert ["1", "2"][..1] == ["1"];
    }
    SplitJoin(["1", "2", "3"]);
  }

  /** The source's reading of "1,2,3": the later fields keep their commas. */
  lemma CommaExample()
    ensures AsWrittenFields("1,2,3") == ["1", ",2", ",3"]
  {
    var v := "1,2,3";
    SplitExample();
    AsWrittenFieldsCarryCommas(v);
    var w := AsWrittenFields(v);
    assert w[0] == "1";
    assert w[1] == "," + "2" == ",2";
    assert w[2] == "," + "3" == ",3";
    assert w == [w[0], w[1], w[2]];
  }

  /** The number of commas in a text. */
  function Commas(values: string): nat
  {
    multiset(values)[',']
  }

  /** The text splits into one more field than it has commas. */
  lemma {:induction false} SplitCount(values: string)
    ensures |Split(values)| == Commas(values) + 1
    decreases |values|
  {
    if values != [] {
      SplitCount(values[1..]);
      assert values == [values[0]] + values[1..];
      assert multiset(values) == multiset([values[0]]) + multiset(values[1..]);
    }
  }

  /** Joining the fields with commas gives the text back. */
  lemma {:induction false} SplitJoins(values: string)
    ensures Join(Split(values), ",") == values
    decreases |values|
  {
    if values != [] {
      var rest := Split(values[1..]);
      SplitJoins(values[1..]);
      assert values == [values[0]] + values[1..];
      if values[0] == ',' {
        assert Split(values) == [""] + rest;
        JoinFront("", rest, ",");
      } else {
        assert Split(values) == [[values[0]] + rest[0]] + rest[1..];
        JoinPrefix(values[0], rest, ",");
      }
    }
  }

  /** A character put in front of the first part comes first in the join. */
  lemma JoinPrefix(c: char, parts: seq<string>, sep: string)
    requires |parts| > 0
    ensures Join([[c] + parts[0]] + parts[1..], sep) == [c] + Join(parts, sep)
  {
    if |parts| > 1 {
      assert parts == [parts[0]] + parts[1..];
      JoinFront(parts[0], parts[1..], sep);
      JoinFront([c] + parts[0], parts[1..], sep);
    }
  }

  /** Joining a part in front of others. */
  lemma {:induction false} JoinFront(first: string, rest: seq<string>, sep: string)
    requires |rest| > 0
    ensures Join([first] + rest, sep) == first + sep + Join(rest, sep)
    decreases |rest|
  {
    var all := [first] + rest;
    if |rest| == 1 {
      assert all[..1] == [first];
    } else {
      var n := |rest| - 1;
      JoinFront(first, rest[..n], sep);
      assert all[..|all| - 1] == [first] + rest[..n];
    }
  }

  /** Split inverts Join with commas for fields free of commas. */
  lemma {:induction false} SplitJoin(parts: seq<string>)
    requires |parts| > 0 && forall k :: 0 <= k < |parts| ==> ',' !in parts[k]
    ensures Split(Join(parts, ",")) == parts
    decreases |parts|
  {
    if |parts| == 1 {
      SplitSingle(parts[0]);
    } else {
      var rest := parts[1..];
      assert parts == [parts[0]] + rest;
      JoinFront(parts[0], rest, ",");
      SplitCons(parts[0], Join(rest, ","));
      SplitJoin(rest);
    }
  }

  /** A comma-free text is one field. */
  lemma {:induction false} SplitSingle(field: string)
    requires ',' !in field
    ensures Split(field) == [field]
    decreases |field|
  {
    if field != [] {
      SplitSingle(field[1..]);
      assert field == [field[0]] + field[1..];
    }
  }

  /** A comma-free field, a comma, then more text: the field comes first. */
  lemma {:induction false} SplitCons(first: string, tail: string)
    requires ',' !in first
    ensures Split(first + "," + tail) == [first] + Split(tail)
    decreases |first|
  {
    var text := first + "," + tail;
    if first == [] {
      assert text[1..] == tail;
    } else {
      assert text[1..] == first[1..] + "," + tail;
      SplitCons(first[1..], tail);
      assert first == [first[0]] + first[1..];
    }
  }

  /** Column(type) and one push per field, the field converted by the conversion the column
      module leaves unseen.  Pushing onto a column with the default
      constraints only checks the type. */
  function ConvertedCells(fields: seq<string>, t: Datatypes, convertToVariant: (string, Datatypes) -> Types): (cells: seq<Types>)
    ensures |cells| == |fields|
  {
    seq(|fields|, k requires 0 <= k < |fields| => convertToVariant(fields[k], t))
  }

  /** commaSeparatedToColumn as written, the loop that advances `begin` to
      the comma it found. */
  method CommaSeparatedToColumnAsWritten(t: Datatypes, values: string, convertToVariant: (string, Datatypes) -> Types,
                                        same: (Types, Types) -> bool) returns (r: Result<seq<Types>>)
    ensures r == Build(t, DefaultConstraints, same, ConvertedCells(AsWrittenFields(values), t, convertToVariant))
  {
    var fields: seq<string> := [];
    var begin := 0;
    var end := NextComma(values, 0);
    while true
      invariant begin <= end <= |values|
      invariant fields + FieldsFrom(values, begin, end) == AsWrittenFields(values)
      decreases |values| - end
    {
      ghost var rest := FieldsFrom(values, begin, end);
      ghost var before := fields;
      fields := fields + [values[begin..end]];
      if end == |values| {
        assert rest == [values[begin..end]];
        assert fields == AsWrittenFields(values);
        break;
      }
      var next := NextComma(values, end + 1);
      assert rest == [values[begin..end]] + FieldsFrom(values, end, next);
      assert before + rest == fields + FieldsFrom(values, end, next);
      begin := end;
      end := next;
    }
    r := PushEach(t, DefaultConstraints, same, ConvertedCells(fields, t, convertToVariant));
  }

  /** commaSeparatedToColumn as intended: the fields between the commas. */
  method CommaSeparatedToColumn(t: Datatypes, values: string, convertToVariant: (string, Datatypes) -> Types,
                                same: (Types, Types) -> bool) returns (r: Result<seq<Types>>)
    ensures r == Build(t, DefaultConstraints, same, ConvertedCells(Split(values), t, convertToVariant))
  {
    var fields: seq<string> := [];
    var begin := 0;
    while true
      invariant begin <= |values|
      invariant fields + Split(values[begin..]) == Split(values)
      decreases |values| - begin
    {
      var end := NextComma(values, begin);
      SplitAt(values, begin);
      ghost var before := fields;
      fields := fields + [values[begin..end]];
      if end == |values| {
        assert values[begin..end] == values[begin..];
        assert fields == Split(values);
        break;
      }
      Regroup(before, values[begin..end], Split(values[end + 1..]));
      begin := end + 1;
    }
    r := PushEach(t, DefaultConstraints, same, ConvertedCells(fields, t, convertToVariant));
  }

  lemma Regroup(before: seq<string>, field: string, after: seq<string>)
    ensures before + ([field] + after) == (before + [field]) + after
  {
  }

  /** A column read from text takes its cells exactly when every converted
      field is null or of the column's type, one per field. */
  lemma ReadColumnTypes(t: Datatypes, values: string, convertToVariant: (string, Datatypes) -> Types, same: (Types, Types) -> bool)
    ensures var cells := ConvertedCells(Split(values), t, convertToVariant);
      && (Build(t, DefaultConstraints, same, cells).Success? <==>
          forall k :: 0 <= k < |cells| ==> IsNull(cells[k]) || GetType(cells[k]) == t)
      && (Build(t, DefaultConstraints, same, cells).Success? ==> |Build(t, DefaultConstraints, same, cells).value| == Commas(values) + 1)
  {
    var cells := ConvertedCells(Split(values), t, convertToVariant);
    BuildWithoutUniqueness(t, DefaultConstraints, same, cells);
    SplitCount(values);
  }

  // ---------------------------------------------------------------------
  // Table

  /** A column as the table stores it, by value. */
  datatype ColumnValue = ColumnValue(columnType: Datatypes, constraints: ColumnConstraints, cells: seq<Types>)

  /** The table once a column is renamed: the new name holds the old name's
      column and the old name is gone; renaming a column to its own name
      deletes it. */
  function Renamed(table: map<string, ColumnValue>, oldName: string, newName: string): map<string, ColumnValue>
    requires oldName in table
  {
    if oldName == newName then table - {oldName} else table[newName := table[oldName]] - {oldName}
  }

  /** Renaming to a free name and back restores the table; a rename touches
      no other name. */
  lemma RenameRoundTrip(table: map<string, ColumnValue>, oldName: string, newName: string)
    requires oldName in table && newName !in table
    ensures newName in Renamed(table, oldName, newName)
    ensures Renamed(Renamed(table, oldName, newName), newName, oldName) == table
    ensures forall n :: n in table && n != oldName ==> n in Renamed(table, oldName, newName) && Renamed(table, oldName, newName)[n] == table[n]
  {
    var once := Renamed(table, oldName, newName);
    assert Renamed(once, newName, oldName).Keys == table.Keys;
  }

  class Table {
    var table: map<string, ColumnValue>
    const aliases: Aliases

    constructor ()
      ensures table == map[] && fresh(aliases) && aliases.names == [] && aliases.Valid()
    {
      table := map[];
      aliases := new Aliases();
    }

    /** addColumn(column, name): the name is registered as an alias of
        itself and the column stored under it (replacing any before). */
    method AddColumn(column: Column, name: string)
      modifies this, aliases
      requires aliases.Valid()
      ensures aliases.names == old(aliases.names) + [NewAlias(name)] && aliases.Valid()
      ensures table == old(table)[name := ColumnValue(column.columnType, column.constraints, column.col)]
    {
      aliases.Push(NewAlias(name));
      table := table[name := ColumnValue(column.columnType, column.constraints, column.col)];
    }

    /** addColumn(name, type, values): the column read from the text; a
        field of the wrong type stops the program. */
    method AddColumnFromText(name: string, t: Datatypes, values: string,
                             convertToVariant: (string, Datatypes) -> Types, same: (Types, Types) -> bool)
      returns (fault: Option<Fault>)
      modifies this, aliases
      requires aliases.Valid()
      ensures var read := Build(t, DefaultConstraints, same, ConvertedCells(Split(values), t, convertToVariant));
        && (fault.Some? <==> read.Failure?)
        && (read.Failure? ==> table == old(table) && aliases.names == old(aliases.names))
        && (read.Success? ==>
              table == old(table)[name := ColumnValue(t, DefaultConstraints, read.value)] &&
              aliases.names == old(aliases.names) + [NewAlias(name)])
      ensures aliases.Valid()
    {
      var read := CommaSeparatedToColumn(t, values, convertToVariant, same);
      if read.Failure? {
        return Some(read.error);
      }
      fault := None;
      var column := new Column.Of(t, DefaultConstraints, same, read.value);
      AddColumn(column, name);
    }

    /** deleteColumn(name): exactly that name removed. */
    method DeleteColumn(name: string)
      modifies this
      ensures table == old(table) - {name}
      ensures name !in table && forall n :: n in old(table) && n != name ==> n in table && table[n] == old(table)[n]
    {
      table := table - {name};
    }

    /** renameColumn(oldName, newName): the new name is made present, the two
        columns are swapped, and the old name is erased.  The source's map
        operator[] needs a default value, which the column type does not
        declare; the model reads rename as moving an existing column, so the
        old name must be present. */
    method RenameColumn(oldName: string, newName: string)
      modifies this
      requires oldName in table
      ensures table == Renamed(old(table), oldName, newName)
    {
      var moved := table[oldName];
      var displaced := if newName in table then table[newName] else moved;
      table := table[newName := moved][oldName := displaced];
      table := table - {oldName};
    }
  }
}
