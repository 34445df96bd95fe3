/**
 * The table view the application files build from a sheet read
 * (`read_sheet_to_df`): the first row names the columns, the remaining rows
 * become records, short rows are padded with missing cells, and the texts
 * '', 'None', 'NaN' and 'nan' all read as ''. A read whose data rows are not
 * as wide as the header fails inside the table constructor; the failure is
 * caught and the read yields the empty table.
 */
module Frames {
  import opened Text
  import opened Sheets

  /** A record cell: `None` is a cell the row did not have. */
  type Cell = Option<string>

  datatype Frame = Frame(columns: seq<string>, records: seq<seq<Cell>>)

  /** A read of the column range `A` to the `width`-th column: longer rows are cut. */
  function ReadRange(values: seq<Row>, width: nat): (r: seq<Row>)
    ensures |r| == |values|
    ensures forall i :: 0 <= i < |r| ==> r[i] == if |values[i]| <= width then values[i] else values[i][..width]
  {
    seq(|values|, i requires 0 <= i < |values| => if |values[i]| <= width then values[i] else values[i][..width])
  }

  /** The number of cells in the widest row. */
  function MaxWidth(rows: seq<Row>): (w: nat)
    ensures forall i :: 0 <= i < |rows| ==> |rows[i]| <= w
    ensures rows != [] ==> exists i :: 0 <= i < |rows| && |rows[i]| == w
  {
    if rows == [] then 0
    else
      var w := MaxWidth(rows[1..]);
      if |rows[0]| >= w then |rows[0]|
      else
        assert exists i :: 0 <= i < |rows[1..]| && |rows[1..][i]| == w;
        w
  }

  /** `df.replace(['', 'None', 'NaN', 'nan'], '')` on one cell. */
  function Clean(c: string): string {
    if c == "None" || c == "NaN" || c == "nan" then "" else c
  }

  /** One data row as a record of `n` cells. */
  function Record(row: Row, n: nat): (r: seq<Cell>)
    requires |row| <= n
    ensures |r| == n
    ensures forall j :: 0 <= j < |row| ==> r[j] == Some(Clean(row[j]))
    ensures forall j :: |row| <= j < n ==> r[j] == None
  {
    seq(n, j requires 0 <= j < n => if j < |row| then Some(Clean(row[j])) else None)
  }

  /** The table constructor accepts the data rows: none or as wide as the header at their widest. */
  predicate Readable(values: seq<Row>) {
    values != [] && (|values| == 1 || MaxWidth(values[1..]) == |values[0]|)
  }

  /** `read_sheet_to_df` over what the range read returned. */
  function ReadFrame(values: seq<Row>): (f: Frame)
    ensures !Readable(values) ==> f == Frame([], [])
    ensures Readable(values) ==> f.columns == values[0] && |f.records| == |values| - 1
    ensures Readable(values) ==> forall i :: 1 <= i < |values| ==>
              f.records[i - 1] == Record(values[i], |values[0]|)
  {
    if !Readable(values) then Frame([], [])
    else
      var data := values[1..];
      var n := |values[0]|;
      Frame(values[0], seq(|data|, i requires 0 <= i < |data| => Record(data[i], n)))
  }

  /** `df.empty`: no records or no columns. */
  predicate IsEmpty(f: Frame) { |f.records| == 0 || |f.columns| == 0 }

  /** `len(df)`: the number of records. */
  function Len(f: Frame): nat { |f.records| }

  /** Position of the first column called `name`; `None` is the `KeyError`. */
  function ColumnIndex(columns: seq<string>, name: string): (r: Option<nat>)
    ensures r.Some? ==> r.value < |columns| && columns[r.value] == name
                        && forall j :: 0 <= j < r.value ==> columns[j] != name
    ensures r.None? ==> name !in columns
  {
    if columns == [] then None
    else if columns[0] == name then Some(0)
    else match ColumnIndex(columns[1..], name)
      case None => None
      case Some(j) => Some(j + 1)
  }

  /** The number of data rows the table view counts, for a readable sheet. */
  lemma LenOfReadable(values: seq<Row>)
    requires Readable(values)
    ensures Len(ReadFrame(values)) == |values| - 1
  {
  }

  /** Appending a row exactly as wide as the header keeps the sheet readable. */
  lemma {:induction false} AppendKeepsReadable(values: seq<Row>, row: Row)
    requires Readable(values)
    requires |row| == |values[0]|
    ensures Readable(values + [row])
  {
    var after := values + [row];
    assert after[0] == values[0];
    MaxWidthSnoc(values[1..], row);
    assert after[1..] == values[1..] + [row];
  }

  lemma {:induction false} MaxWidthSnoc(rows: seq<Row>, row: Row)
    ensures MaxWidth(rows + [row]) == if |row| >= MaxWidth(rows) then |row| else MaxWidth(rows)
    decreases |rows|
  {
    if rows == [] {
      assert rows + [row] == [row];
      assert [row][1..] == [];
    } else {
      assert (rows + [row])[1..] == rows[1..] + [row];
      MaxWidthSnoc(rows[1..], row);
    }
  }
}
