/**
 * The eight-column schema that the dashboard imposes on the sheet export by
 * assigning `data.columns` positionally, and the rows of the renamed table.
 */
module Schema {
  import opened Wrappers
  import opened Cells

  /** The columns of the response table, in the order they are assigned. */
  datatype Column =
    | Timestamp | Location | Notes | SampleDate
    | PatientInitials | TestResult | Treated | Ept

  /** The column order; position i of every raw row lands in `Columns[i]`. */
  const Columns: seq<Column> :=
    [Timestamp, Location, Notes, SampleDate, PatientInitials, TestResult, Treated, Ept]

  /** The label each column is given by the rename. */
  function Name(c: Column): string
  {
    match c
    case Timestamp => "Timestamp"
    case Location => "Location"
    case Notes => "Notes"
    case SampleDate => "Date of Sample Collection"
    case PatientInitials => "Patient Initials"
    case TestResult => "Test Result"
    case Treated => "Treated"
    case Ept => "EPT"
  }

  /** The header labels, in column order. */
  function ColumnNames(): (names: seq<string>)
    ensures |names| == |Columns|
    ensures forall i :: 0 <= i < |Columns| ==> names[i] == Name(Columns[i])
    ensures forall i, j :: 0 <= i < j < |names| ==> names[i] != names[j]
  {
    seq(|Columns|, i requires 0 <= i < |Columns| => Name(Columns[i]))
  }

  /** One response after the rename: one named field per column. */
  datatype Row = Row(
    timestamp: Cell,
    location: Cell,
    notes: Cell,
    sampleDate: Cell,
    patientInitials: Cell,
    testResult: Cell,
    treated: Cell,
    ept: Cell)

  /** `row[name]`: the cell of `r` in column `c`. */
  function Get(r: Row, c: Column): Cell
  {
    match c
    case Timestamp => r.timestamp
    case Location => r.location
    case Notes => r.notes
    case SampleDate => r.sampleDate
    case PatientInitials => r.patientInitials
    case TestResult => r.testResult
    case Treated => r.treated
    case Ept => r.ept
  }

  /** The cells of `r` read left to right. */
  function RowCells(r: Row): (cells: seq<Cell>)
    ensures |cells| == |Columns|
    ensures forall i :: 0 <= i < |Columns| ==> cells[i] == Get(r, Columns[i])
  {
    [r.timestamp, r.location, r.notes, r.sampleDate,
     r.patientInitials, r.testResult, r.treated, r.ept]
  }

  /** A row of exactly eight positional cells, read under the fixed schema. */
  function FromCells(cells: seq<Cell>): (r: Row)
    requires |cells| == |Columns|
    ensures forall i :: 0 <= i < |Columns| ==> Get(r, Columns[i]) == cells[i]
  {
    Row(cells[0], cells[1], cells[2], cells[3], cells[4], cells[5], cells[6], cells[7])
  }

  /** Reading a row positionally and writing it back loses nothing, either way round. */
  lemma CellsRoundTrip(r: Row, cells: seq<Cell>)
    requires |cells| == |Columns|
    ensures FromCells(RowCells(r)) == r
    ensures RowCells(FromCells(cells)) == cells
  {
  }

  /** `data["X"]`: the column `c` of a table, one cell per row, in row order. */
  function Series(rows: seq<Row>, c: Column): (col: seq<Cell>)
    ensures |col| == |rows|
    ensures forall i :: 0 <= i < |rows| ==> col[i] == Get(rows[i], c)
  {
    seq(|rows|, i requires 0 <= i < |rows| => Get(rows[i], c))
  }

  /** A table as `read_csv` returns it: its header labels and its rows of cells. */
  datatype RawFrame = RawFrame(header: seq<string>, rows: seq<seq<Cell>>)

  /** Every row of a data frame has one cell per header label. */
  predicate Rectangular(f: RawFrame)
  {
    forall i :: 0 <= i < |f.rows| ==> |f.rows[i]| == |f.header|
  }

  /**
   * The ValueError pandas raises when the new labels do not match the column
   * count: the frame's axis has `axis` columns, the new values give `newValues` labels.
   */
  datatype RenameError = LengthMismatch(axis: nat, newValues: nat)

  /**
   * `data.columns = [...]`: the sheet's own labels are discarded and the
   * eight fixed ones assigned by position. Any other column count is an error.
   */
  function Rename(f: RawFrame): (r: Result<seq<Row>, RenameError>)
    requires Rectangular(f)
    ensures r.Ok? <==> |f.header| == |Columns|
    ensures r.Err? ==> r.error == LengthMismatch(|f.header|, |Columns|)
    ensures r.Ok? ==> |r.value| == |f.rows|
    ensures r.Ok? ==> forall i :: 0 <= i < |f.rows| ==> RowCells(r.value[i]) == f.rows[i]
  {
    if |f.header| != |Columns| then
      Err(LengthMismatch(|f.header|, |Columns|))
    else
      Ok(seq(|f.rows|, i requires 0 <= i < |f.rows| => FromCells(f.rows[i])))
  }
}
