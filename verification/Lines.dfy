/**
 The lines of a query result and the cells they have, as a reader of the result sees them: what the
 parsers make of a result is stated in these terms
 (internal/repository/telemetry/telemetry_repository_impl.go).
 */
module Lines {
  import opened Common
  import opened Flux

  /** The row has a cell in column i, which is the last of that name. */
  ghost predicate IsCellAt<T>(columns: seq<string>, row: seq<T>, name: string, i: nat) {
    i < |columns| && columns[i] == name && i < |row| && forall k :: i < k < |columns| ==> columns[k] != name
  }

  /** The row's cell in the last column of that name, if there is one. */
  ghost function CellOf<T>(columns: seq<string>, row: seq<T>, name: string): Option<T> {
    if i: nat :| IsCellAt(columns, row, name, i) then Some(row[i]) else None
  }

  /** That is the cell that the parsers look up. */
  lemma CellIsField<T>(columns: seq<string>, row: seq<T>, name: string)
    ensures CellOf(columns, row, name) == Field(columns, row, name)
  {
    var at := LastIndex(columns, name);
    if at.Some? && at.value < |row| {
      assert IsCellAt(columns, row, name, at.value);
      forall i: nat | IsCellAt(columns, row, name, i) ensures i == at.value {
      }
    }
  }

  lemma CellIsAt<T>(columns: seq<string>, row: seq<T>, name: string, i: nat)
    requires IsCellAt(columns, row, name, i)
    ensures CellOf(columns, row, name) == Some(row[i])
  {
    forall k: nat | IsCellAt(columns, row, name, k) ensures k == i {
    }
  }

  datatype Line = Line(columns: seq<string>, row: seq<Value>)

  /** The lines of all series that have columns, in order. */
  function LinesOf(series: seq<Series>): seq<Line> {
    if series == [] then [] else
    var s := series[|series| - 1];
    LinesOf(series[..|series| - 1])
    + if s.columns == [] then [] else seq(|s.values|, j requires 0 <= j < |s.values| => Line(s.columns, s.values[j]))
  }

  ghost function ValueIn(l: Line, column: string): Value { Or(CellOf(l.columns, l.row, column), Nil) }

  ghost function TextIn(lib: Lib, l: Line, column: string): string {
    var cell := CellOf(l.columns, l.row, column);
    if cell.Some? then ToText(lib, cell.value) else ""
  }

  /** The time that a line gives; the zero time without a readable one. */
  ghost function TimeIn(lib: Lib, l: Line): Time {
    var cell := CellOf(l.columns, l.row, "timestamp");
    if cell.Some? && cell.value.Text? && lib.time(cell.value.s).Some? then lib.time(cell.value.s).value else Time(0, 0)
  }

  /** The line is about a device. */
  ghost predicate IsOf(lib: Lib, l: Line, sn: string) { TextIn(lib, l, "device_sn") == sn }

  /** The line is about a field of a device. */
  ghost predicate Says(lib: Lib, l: Line, sn: string, field: string) {
    IsOf(lib, l, sn) && TextIn(lib, l, "_field") == field
  }
}
