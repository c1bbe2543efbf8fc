/**
 Cells of Flux results and the look-up of a cell by column name
 (internal/repository/telemetry/telemetry_repository_impl.go).
 */
module Flux {
  import opened Common
  import opened Decimal

  /** A floating point number; ParseFloat reads negative zero, infinities and NaN too. */
  datatype Number = Finite(x: real) | NegativeZero | Infinite(negative: bool) | NotANumber

  const ZERO := Finite(0.0)

  /** What parseValue makes of a cell. */
  datatype Value = Nil | Int(i: int) | Float(x: Number) | Text(s: string)

  /** A time with its zone offset; two texts of one instant in different zones are different times. */
  datatype Time = Time(instant: int, zone: int)

  const ZERO_TIME := Time(0, 0)

  /** The library calls: strconv.Atoi, strconv.ParseFloat, the text of a float, time.Parse with either layout. */
  datatype Lib = Lib(atoi: string -> Option<int>, float: string -> Option<Number>, showFloat: Number -> string,
                     time: string -> Option<Time>)

  datatype Series = Series(name: string, tags: map<string, string>, columns: seq<string>, values: seq<seq<Value>>)

  function ParseValue(lib: Lib, s: string): Value {
    if s == "" then Nil
    else if lib.atoi(s).Some? then Int(lib.atoi(s).value)
    else if lib.float(s).Some? then Float(lib.float(s).value)
    else Text(s)
  }

  function ToText(lib: Lib, v: Value): string {
    match v
    case Nil => ""
    case Text(s) => s
    case Int(i) => Numeral(i)
    case Float(x) => lib.showFloat(x)
  }

  function ToFloat(v: Value): Number {
    match v
    case Float(x) => x
    case Int(i) => Finite(i as real)
    case _ => ZERO
  }

  /** Which cells are nil, integers, floats and texts. */
  lemma ParsedExactly(lib: Lib, s: string)
    ensures ParseValue(lib, s) == Nil <==> s == ""
    ensures forall i :: ParseValue(lib, s) == Int(i) <==> s != "" && lib.atoi(s) == Some(i)
    ensures forall x :: ParseValue(lib, s) == Float(x) <==> s != "" && lib.atoi(s).None? && lib.float(s) == Some(x)
    ensures forall t :: ParseValue(lib, s) == Text(t) <==>
      s != "" && lib.atoi(s).None? && lib.float(s).None? && t == s
  {
  }

  /** What counts as a number: numbers themselves; text and nil count as 0. */
  lemma NumbersKept(i: int, x: Number, s: string)
    ensures ToFloat(Int(i)) == Finite(i as real) && ToFloat(Float(x)) == x
    ensures ToFloat(Text(s)) == ToFloat(Nil) == Finite(0.0)
  {
  }

  /** What values are written as. */
  lemma WrittenAs(lib: Lib, i: int, x: Number, s: string)
    ensures ToText(lib, Text(s)) == s && ToText(lib, Nil) == "" && ToText(lib, Float(x)) == lib.showFloat(x)
    ensures WellFormed(ToText(lib, Int(i))) && Read(ToText(lib, Int(i))) == i
  {
    NumeralReads(i);
  }

  /** The position of a column; of several with one name the last counts. */
  function LastIndex(columns: seq<string>, name: string): (at: Option<nat>)
    ensures at.Some? ==> at.value < |columns| && columns[at.value] == name
    ensures at.None? <==> name !in columns
    ensures at.Some? ==> forall k :: at.value < k < |columns| ==> columns[k] != name
  {
    if columns == [] then None
    else if columns[|columns| - 1] == name then Some(|columns| - 1)
    else LastIndex(columns[..|columns| - 1], name)
  }

  /** The cell of a row in a column; None without the column or when the row is too short. */
  function Field<T>(columns: seq<string>, row: seq<T>, name: string): Option<T> {
    var at := LastIndex(columns, name);
    if at.Some? && at.value < |row| then Some(row[at.value]) else None
  }

  /** The text of the cell of a row in a column. */
  function TextField(lib: Lib, columns: seq<string>, row: seq<Value>, name: string): Option<string> {
    var cell := Field(columns, row, name);
    if cell.Some? then Some(ToText(lib, cell.value)) else None
  }

  ghost predicate IsIndex(index: map<string, nat>, columns: seq<string>) {
    forall name ::
      if name in index then Some(index[name]) == LastIndex(columns, name) else LastIndex(columns, name) == None
  }

  /** The column index every parser starts with. */
  method IndexColumns(columns: seq<string>) returns (index: map<string, nat>)
    ensures IsIndex(index, columns)
  {
    index := map[];
    for i := 0 to |columns|
      invariant IsIndex(index, columns[..i])
    {
      assert columns[..i + 1][..i] == columns[..i];
      index := index[columns[i] := i];
    }
    assert columns[..|columns|] == columns;
  }

  method ReadField<T>(index: map<string, nat>, columns: seq<string>, row: seq<T>, name: string)
    returns (cell: Option<T>)
    requires IsIndex(index, columns)
    ensures cell == Field(columns, row, name)
  {
    if name in index && index[name] < |row| {
      return Some(row[index[name]]);
    }
    return None;
  }

  method ReadText(lib: Lib, index: map<string, nat>, columns: seq<string>, row: seq<Value>, name: string)
    returns (text: Option<string>)
    requires IsIndex(index, columns)
    ensures text == TextField(lib, columns, row, name)
  {
    var cell := ReadField(index, columns, row, name);
    text := if cell.Some? then Some(ToText(lib, cell.value)) else None;
  }
}
