/**
 * The spreadsheet service seen as a row store: a sheet is a sequence of rows,
 * each a sequence of cell strings, with the header at index 0 and sheet row
 * numbers counted from 1. The store appends whole rows and overwrites single
 * cells; either call may fail, and the caller only learns a success flag.
 */
module Sheets {

  type Row = seq<string>

  /** `row` extended with empty cells up to `n` cells (never shortened). */
  function PadRow(row: Row, n: nat): (r: Row)
    ensures |r| == if |row| < n then n else |row|
    ensures r[..|row|] == row
    ensures forall j :: |row| <= j < |r| ==> r[j] == ""
    decreases n - |row|
  {
    if |row| < n then PadRow(row + [""], n) else row
  }

  /**
   * The table after the cell in column `col` (0-based: A is 0) of sheet row
   * `rowNo` (1-based) is set to `v`. Writing past the end of the table or of
   * the row grows it with empty rows and empty cells, as the service does.
   */
  function SetCell(t: seq<Row>, rowNo: nat, col: nat, v: string): (r: seq<Row>)
    requires rowNo >= 1
    ensures |r| == if |t| < rowNo then rowNo else |t|
    ensures forall i :: 0 <= i < |t| && i != rowNo - 1 ==> r[i] == t[i]
    ensures forall i :: |t| <= i < |r| && i != rowNo - 1 ==> r[i] == []
    ensures CellWritten(if rowNo - 1 < |t| then t[rowNo - 1] else [], r[rowNo - 1], col, v)
  {
    var grown := PadTable(t, rowNo);
    var row := PadRow(grown[rowNo - 1], col + 1);
    grown[rowNo - 1 := row[col := v]]
  }

  /**
   * Row `after` is row `before` with cell `col` set to `v`: grown with empty
   * cells when `col` lay past its end, every other cell as it was.
   */
  ghost predicate CellWritten(before: Row, after: Row, col: nat, v: string) {
    && |after| == (if col < |before| then |before| else col + 1)
    && after[col] == v
    && forall j :: 0 <= j < |after| && j != col ==> after[j] == (if j < |before| then before[j] else "")
  }

  /** `t` extended with empty rows up to `n` rows. */
  function PadTable(t: seq<Row>, n: nat): (r: seq<Row>)
    ensures |r| == if |t| < n then n else |t|
    ensures r[..|t|] == t
    ensures forall i :: |t| <= i < |r| ==> r[i] == []
    decreases n - |t|
  {
    if |t| < n then PadTable(t + [[]], n) else t
  }

  /** One sheet of the spreadsheet, as the rows a full-range read returns. */
  class Sheet {
    var rows: seq<Row>

    constructor (initial: seq<Row>)
      ensures rows == initial
    {
      rows := initial;
    }

    /** `values().append(...)` of one row; `ok` is false when the call raised. */
    method Append(row: Row) returns (ok: bool)
      modifies this
      ensures rows == if ok then old(rows) + [row] else old(rows)
    {
      ok := *;
      if ok {
        rows := rows + [row];
      }
    }

    /**
     * `values().update(...)` of the single cell `col`/`rowNo`. A row number
     * below 1 names no cell, so the service refuses it.
     */
    method UpdateCell(col: nat, rowNo: int, value: string) returns (ok: bool)
      modifies this
      ensures ok ==> rowNo >= 1
      ensures rows == if ok then SetCell(old(rows), rowNo, col, value) else old(rows)
    {
      ok := *;
      if rowNo < 1 {
        ok := false;
      }
      if ok {
        rows := SetCell(rows, rowNo, col, value);
      }
    }
  }

  /** One point update: the value for column `col` of the row being written. */
  datatype Write = Write(col: nat, value: string)

  function Columns(ws: seq<Write>): set<nat> {
    set k | 0 <= k < |ws| :: ws[k].col
  }

  /**
   * The table after the writes `ws` to sheet row `rowNo`, in order, where
   * `done[k]` says whether write `k` went through.
   */
  function ApplyWrites(t: seq<Row>, rowNo: int, ws: seq<Write>, done: seq<bool>): (r: seq<Row>)
    requires |done| == |ws|
    ensures |r| >= |t|
    ensures 1 <= rowNo <= |t| ==> |r[rowNo - 1]| >= |t[rowNo - 1]|
    decreases |ws|
  {
    if ws == [] then t
    else
      var t' := if done[0] && rowNo >= 1 then SetCell(t, rowNo, ws[0].col, ws[0].value) else t;
      ApplyWrites(t', rowNo, ws[1..], done[1..])
  }

  function AllDone(n: nat): (r: seq<bool>)
    ensures |r| == n && forall k :: 0 <= k < n ==> r[k]
  {
    seq(n, _ => true)
  }

  /** Row `after` keeps every cell of row `before` outside the columns `cols`. */
  predicate SameOutside(before: Row, after: Row, cols: set<nat>) {
    |after| >= |before| && forall j :: 0 <= j < |before| && j !in cols ==> after[j] == before[j]
  }

  /** Writes aimed at one row leave every other row, and the other cells of that row, as they were. */
  lemma {:induction false} ApplyWritesFrame(t: seq<Row>, rowNo: int, ws: seq<Write>, done: seq<bool>)
    requires |done| == |ws|
    ensures var r := ApplyWrites(t, rowNo, ws, done);
            && |r| >= |t|
            && (forall i :: 0 <= i < |t| && i != rowNo - 1 ==> r[i] == t[i])
            && (1 <= rowNo <= |t| ==> SameOutside(t[rowNo - 1], r[rowNo - 1], Columns(ws)))
    decreases |ws|
  {
    if ws != [] {
      var t' := if done[0] && rowNo >= 1 then SetCell(t, rowNo, ws[0].col, ws[0].value) else t;
      ApplyWritesFrame(t', rowNo, ws[1..], done[1..]);
      assert Columns(ws[1..]) <= Columns(ws) by {
        forall c | c in Columns(ws[1..]) ensures c in Columns(ws) {
          var k :| 0 <= k < |ws[1..]| && ws[1..][k].col == c;
          assert ws[k + 1].col == c;
        }
      }
      assert ws[0].col in Columns(ws);
    }
  }

  /**
   * When every write of a run went through, the last write to a column is
   * what the row holds there.
   */
  lemma {:induction false} ApplyWritesLastWins(t: seq<Row>, rowNo: int, ws: seq<Write>, k: nat)
    requires rowNo >= 1 && k < |ws|
    requires forall m :: k < m < |ws| ==> ws[m].col != ws[k].col
    ensures var r := ApplyWrites(t, rowNo, ws, AllDone(|ws|));
            rowNo - 1 < |r| && ws[k].col < |r[rowNo - 1]| && r[rowNo - 1][ws[k].col] == ws[k].value
    decreases |ws|
  {
    var t' := SetCell(t, rowNo, ws[0].col, ws[0].value);
    assert AllDone(|ws|)[1..] == AllDone(|ws| - 1);
    if k == 0 {
      LastWinsHead(t, rowNo, ws);
    } else {
      ApplyWritesLastWins(t', rowNo, ws[1..], k - 1);
    }
  }

  lemma LastWinsHead(t: seq<Row>, rowNo: int, ws: seq<Write>)
    requires rowNo >= 1 && |ws| > 0
    requires forall m :: 0 < m < |ws| ==> ws[m].col != ws[0].col
    ensures var r := ApplyWrites(t, rowNo, ws, AllDone(|ws|));
            rowNo - 1 < |r| && ws[0].col < |r[rowNo - 1]| && r[rowNo - 1][ws[0].col] == ws[0].value
  {
    var t' := SetCell(t, rowNo, ws[0].col, ws[0].value);
    assert AllDone(|ws|)[1..] == AllDone(|ws| - 1);
    assert ApplyWrites(t, rowNo, ws, AllDone(|ws|)) == ApplyWrites(t', rowNo, ws[1..], AllDone(|ws| - 1));
    assert ws[0].col !in Columns(ws[1..]) by {
      forall m | 0 <= m < |ws[1..]| ensures ws[1..][m].col != ws[0].col {
        assert ws[1..][m] == ws[m + 1];
      }
    }
    assert CellWritten(if rowNo - 1 < |t| then t[rowNo - 1] else [], t'[rowNo - 1], ws[0].col, ws[0].value);
    assert t'[rowNo - 1][ws[0].col] == ws[0].value;
    ApplyWritesFrame(t', rowNo, ws[1..], AllDone(|ws| - 1));
  }

  /** The writes `ws` to sheet row `rowNo`, one by one; a failed write does not stop the others. */
  method WriteAll(sheet: Sheet, rowNo: int, ws: seq<Write>) returns (ghost done: seq<bool>)
    modifies sheet
    ensures |done| == |ws|
    ensures rowNo < 1 ==> forall k :: 0 <= k < |ws| ==> !done[k]
    ensures sheet.rows == ApplyWrites(old(sheet.rows), rowNo, ws, done)
  {
    done := [];
    var k := 0;
    while k < |ws|
      invariant 0 <= k <= |ws| && |done| == k
      invariant rowNo < 1 ==> forall m :: 0 <= m < k ==> !done[m]
      invariant sheet.rows == ApplyWrites(old(sheet.rows), rowNo, ws[..k], done)
    {
      var ok := sheet.UpdateCell(ws[k].col, rowNo, ws[k].value);
      ApplyWritesSnoc(old(sheet.rows), rowNo, ws[..k], done, ws[k], ok);
      assert ws[..k + 1] == ws[..k] + [ws[k]];
      done := done + [ok];
      k := k + 1;
    }
    assert ws[..k] == ws;
  }

  lemma {:induction false} ApplyWritesSnoc(t: seq<Row>, rowNo: int, ws: seq<Write>, done: seq<bool>, w: Write, ok: bool)
    requires |done| == |ws|
    ensures ApplyWrites(t, rowNo, ws + [w], done + [ok])
            == var r := ApplyWrites(t, rowNo, ws, done);
               if ok && rowNo >= 1 then SetCell(r, rowNo, w.col, w.value) else r
    decreases |ws|
  {
    if ws == [] {
      assert ws + [w] == [w] && done + [ok] == [ok];
    } else {
      var t' := if done[0] && rowNo >= 1 then SetCell(t, rowNo, ws[0].col, ws[0].value) else t;
      assert (ws + [w])[1..] == ws[1..] + [w];
      assert (done + [ok])[1..] == done[1..] + [ok];
      ApplyWritesSnoc(t', rowNo, ws[1..], done[1..], w, ok);
    }
  }

  /**
   * The writes `ws` to sheet row `rowNo`, in order, stopping at the first one
   * that fails; `written` of them went through.
   */
  method WriteUntilFailure(sheet: Sheet, rowNo: nat, ws: seq<Write>) returns (ok: bool, ghost written: nat)
    requires rowNo >= 1
    modifies sheet
    ensures written <= |ws| && (ok <==> written == |ws|)
    ensures sheet.rows == ApplyWrites(old(sheet.rows), rowNo, ws[..written], AllDone(written))
  {
    var k := 0;
    while k < |ws|
      invariant k <= |ws|
      invariant sheet.rows == ApplyWrites(old(sheet.rows), rowNo, ws[..k], AllDone(k))
    {
      var w := sheet.UpdateCell(ws[k].col, rowNo, ws[k].value);
      if !w {
        return false, k;
      }
      AllDoneStep(old(sheet.rows), rowNo, ws, k);
      k := k + 1;
    }
    return true, k;
  }

  /** One more successful write extends a fully successful run. */
  lemma AllDoneStep(t: seq<Row>, rowNo: int, ws: seq<Write>, k: nat)
    requires rowNo >= 1 && k < |ws|
    ensures ApplyWrites(t, rowNo, ws[..k + 1], AllDone(k + 1))
            == SetCell(ApplyWrites(t, rowNo, ws[..k], AllDone(k)), rowNo, ws[k].col, ws[k].value)
  {
    assert ws[..k + 1] == ws[..k] + [ws[k]];
    assert AllDone(k + 1) == AllDone(k) + [true];
    ApplyWritesSnoc(t, rowNo, ws[..k], AllDone(k), ws[k], true);
  }
}
