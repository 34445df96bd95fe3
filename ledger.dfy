/**
 * The expenses ledger sheet shared by the three application variants: twelve
 * columns `id`, `teacher_id`, `date`, `category`, `vendor`, `amount`,
 * `description`, `status`, `submitted_date`, `approved_by`, `approved_date`,
 * `comments` (A to L). New rows take the id "number of records + 1"; the
 * approval screen turns an id back into the sheet row `id + 1` and records a
 * decision in columns H, J, K and L of that row.
 */
module Ledger {
  import opened Text
  import opened Sheets
  import opened Frames
  import opened Codec

  const Width: nat := 12
  const StatusCol: nat := 7
  const ApproverCol: nat := 9
  const ApprovedDateCol: nat := 10
  const CommentsCol: nat := 11

  /** The id the next ledger row receives: the record count of an `A:L` read, plus one. */
  function NextId(rows: seq<Row>): (id: nat)
    ensures id >= 1
  {
    Len(ReadFrame(ReadRange(rows, Width))) + 1
  }

  /**
   * A ledger in which data row `i` (sheet row `i + 1`) carries the id `i`:
   * the header is twelve cells wide, the table view reads every row, and the
   * ids count up from 1 without gaps.
   */
  predicate Numbered(t: seq<Row>) {
    && |t| >= 1
    && |t[0]| == Width
    && (forall i :: 1 <= i < |t| ==> |t[i]| == Width)
    && (forall i :: 1 <= i < |t| ==> t[i][0] == IntToString(i))
  }

  lemma ReadRangeOfNumbered(t: seq<Row>)
    requires Numbered(t)
    ensures ReadRange(t, Width) == t
    ensures Readable(t)
  {
    if |t| > 1 {
      var w := MaxWidth(t[1..]);
      assert |t[1..][0]| == Width;
      assert w == Width;
    }
  }

  /** In a numbered ledger the next id is the number of the row about to be appended, minus one. */
  lemma NextIdOfNumbered(t: seq<Row>)
    requires Numbered(t)
    ensures NextId(t) == |t|
  {
    ReadRangeOfNumbered(t);
    LenOfReadable(t);
  }

  /** Appending a twelve-cell row that carries the next id keeps the ledger numbered. */
  lemma AppendKeepsNumbered(t: seq<Row>, row: Row)
    requires Numbered(t)
    requires |row| == Width && row[0] == IntToString(NextId(t))
    ensures Numbered(t + [row])
  {
    NextIdOfNumbered(t);
    var u := t + [row];
    assert u[0] == t[0];
    forall i | 1 <= i < |u| ensures |u[i]| == Width && u[i][0] == IntToString(i) {
      if i < |t| {
        assert u[i] == t[i];
      } else {
        assert u[i] == row;
      }
    }
  }

  /** The sheet row the approve and reject buttons aim at: `int(row['id']) + 1`. */
  function ApprovalRow(idCell: string): (r: Option<int>)
    ensures r.Some? <==> IsIntText(idCell)
  {
    match ParseInt(idCell)
    case None => None
    case Some(id) => Some(id + 1)
  }

  /**
   * In a numbered ledger the id the table view shows for data row `i` leads
   * the approval back to that very row.
   */
  lemma ApprovalRowOfNumbered(t: seq<Row>, i: nat)
    requires Numbered(t) && 1 <= i < |t|
    ensures ReadRange(t, Width) == t
    ensures ReadFrame(t).records[i - 1][0] == Some(t[i][0])
    ensures ApprovalRow(t[i][0]) == Some(i + 1)
    ensures t[ApprovalRow(t[i][0]).value - 1] == t[i]
  {
    ReadRangeOfNumbered(t);
    assert Clean(t[i][0]) == t[i][0] by {
      var s := IntToString(i);
      assert AllDigits(s);
      assert s != "None" && s != "NaN" && s != "nan" by { assert IsDigit(s[0]); }
    }
    ParseIntOfIntToString(i);
  }

  /**
   * The cell writes of `update_expense_status`, in order: the status (H),
   * the approver (J) when one is given, the decision time (K) and the
   * comments (L) when there are any.
   */
  function DecisionWrites(status: string, comments: string, approver: string, stamp: string): (ws: seq<Write>)
    ensures 2 <= |ws| <= 4
  {
    [Write(StatusCol, status)]
    + (if approver != "" then [Write(ApproverCol, approver)] else [])
    + [Write(ApprovedDateCol, stamp)]
    + (if comments != "" then [Write(CommentsCol, comments)] else [])
  }

  /** A decision touches H and K always, J exactly when there is an approver, L exactly when there are comments. */
  lemma DecisionColumns(status: string, comments: string, approver: string, stamp: string)
    ensures var cs := Columns(DecisionWrites(status, comments, approver, stamp));
            && StatusCol in cs && ApprovedDateCol in cs
            && (ApproverCol in cs <==> approver != "")
            && (CommentsCol in cs <==> comments != "")
            && cs <= {StatusCol, ApproverCol, ApprovedDateCol, CommentsCol}
  {
    var ws := DecisionWrites(status, comments, approver, stamp);
    assert forall k :: 0 <= k < |ws| ==> ws[k].col in {StatusCol, ApproverCol, ApprovedDateCol, CommentsCol};
    assert forall k :: 0 <= k < |ws| && ws[k].col == ApproverCol ==> approver != "";
    assert forall k :: 0 <= k < |ws| && ws[k].col == CommentsCol ==> comments != "";
    assert ws[0].col == StatusCol;
    var kDate := if approver != "" then 2 else 1;
    assert ws[kDate].col == ApprovedDateCol;
    if approver != "" {
      assert ws[1].col == ApproverCol;
    }
    if comments != "" {
      assert ws[|ws| - 1].col == CommentsCol;
    }
  }

  /** No column is written twice by one decision. */
  lemma DecisionColumnsDistinct(status: string, comments: string, approver: string, stamp: string)
    ensures var ws := DecisionWrites(status, comments, approver, stamp);
            forall a, b :: 0 <= a < b < |ws| ==> ws[a].col != ws[b].col
  {
    var ws := DecisionWrites(status, comments, approver, stamp);
    assert forall k :: 0 <= k < |ws| ==> ws[k].col <= ws[|ws| - 1].col;
  }

  /**
   * When every write of a decision went through, the row shows the decision
   * and, outside columns H, J, K and L, the rest of the ledger is as it was.
   */
  lemma DecisionRecorded(t: seq<Row>, rowNo: int, status: string, comments: string, approver: string, stamp: string)
    requires rowNo >= 1
    ensures var ws := DecisionWrites(status, comments, approver, stamp);
            var r := ApplyWrites(t, rowNo, ws, AllDone(|ws|));
            && rowNo - 1 < |r| && |r[rowNo - 1]| > ApprovedDateCol
            && r[rowNo - 1][StatusCol] == status
            && r[rowNo - 1][ApprovedDateCol] == stamp
            && (approver != "" ==> r[rowNo - 1][ApproverCol] == approver)
            && (comments != "" ==> |r[rowNo - 1]| > CommentsCol && r[rowNo - 1][CommentsCol] == comments)
            && (forall i :: 0 <= i < |t| && i != rowNo - 1 ==> r[i] == t[i])
  {
    var ws := DecisionWrites(status, comments, approver, stamp);
    DecisionColumnsDistinct(status, comments, approver, stamp);
    ApplyWritesLastWins(t, rowNo, ws, 0);
    var kDate := if approver != "" then 2 else 1;
    assert ws[kDate] == Write(ApprovedDateCol, stamp);
    ApplyWritesLastWins(t, rowNo, ws, kDate);
    if approver != "" {
      ApplyWritesLastWins(t, rowNo, ws, 1);
    }
    if comments != "" {
      ApplyWritesLastWins(t, rowNo, ws, |ws| - 1);
    }
    ApplyWritesFrame(t, rowNo, ws, AllDone(|ws|));
  }

  /** Whatever the writes did, only cells H, J, K and L of the target row may differ. */
  lemma DecisionTouchesOnlyItsRow(t: seq<Row>, rowNo: int, status: string, comments: string, approver: string, stamp: string, done: seq<bool>)
    requires |done| == |DecisionWrites(status, comments, approver, stamp)|
    ensures var r := ApplyWrites(t, rowNo, DecisionWrites(status, comments, approver, stamp), done);
            && (forall i :: 0 <= i < |t| && i != rowNo - 1 ==> r[i] == t[i])
            && (1 <= rowNo <= |t| ==>
                  SameOutside(t[rowNo - 1], r[rowNo - 1], {StatusCol, ApproverCol, ApprovedDateCol, CommentsCol}))
  {
    DecisionColumns(status, comments, approver, stamp);
    ApplyWritesFrame(t, rowNo, DecisionWrites(status, comments, approver, stamp), done);
    var r := ApplyWrites(t, rowNo, DecisionWrites(status, comments, approver, stamp), done);
    if 1 <= rowNo <= |t| {
      assert SameOutside(t[rowNo - 1], r[rowNo - 1], Columns(DecisionWrites(status, comments, approver, stamp)));
    }
  }

  /** How a JSON value lands in a sheet cell when it is written as it is; `null` clears the cell. */
  function CellText(v: Scalar): string {
    match v
    case JStr(s) => s
    case JNum(n) => IntToString(n)
    case JFloat(n) => IntToString(n)
    case JNull => ""
  }

  /**
   * `update_expense_status(row_number, status, comments, approver)`: the
   * decision writes, one by one; a failed write is only reported on screen,
   * and the call answers True regardless.
   */
  method UpdateExpenseStatus(ledger: Sheet, rowNumber: int, status: string, comments: string, approver: string, stamp: string)
    returns (ok: bool, ghost done: seq<bool>)
    modifies ledger
    ensures ok
    ensures |done| == |DecisionWrites(status, comments, approver, stamp)|
    ensures ledger.rows == ApplyWrites(old(ledger.rows), rowNumber, DecisionWrites(status, comments, approver, stamp), done)
  {
    done := WriteAll(ledger, rowNumber, DecisionWrites(status, comments, approver, stamp));
    ok := true;
  }

  /**
   * The approve and reject buttons of the admin table: the record's id cell
   * names the row `id + 1`, which receives the decision. An id cell that is
   * not an integer makes `int()` raise before anything is written.
   */
  method Decide(ledger: Sheet, idCell: string, status: string, comments: string, approver: string, stamp: string)
    returns (ok: bool, ghost done: seq<bool>)
    modifies ledger
    ensures ok <==> ApprovalRow(idCell).Some?
    ensures !ok ==> ledger.rows == old(ledger.rows)
    ensures ok ==> |done| == |DecisionWrites(status, comments, approver, stamp)|
                   && ledger.rows == ApplyWrites(old(ledger.rows), ApprovalRow(idCell).value,
                                                 DecisionWrites(status, comments, approver, stamp), done)
  {
    done := [];
    var target := ApprovalRow(idCell);
    if target.None? {
      return false, done;
    }
    ok, done := UpdateExpenseStatus(ledger, target.value, status, comments, approver, stamp);
  }

  /**
   * In a numbered ledger, deciding on the entry shown for data row `i`
   * records the decision in that very row and leaves every other row alone.
   */
  lemma DecisionOnShownEntry(t: seq<Row>, i: nat, status: string, comments: string, approver: string, stamp: string)
    requires Numbered(t) && 1 <= i < |t|
    ensures ApprovalRow(ReadFrame(ReadRange(t, Width)).records[i - 1][0].value) == Some(i + 1)
    ensures var ws := DecisionWrites(status, comments, approver, stamp);
            var r := ApplyWrites(t, i + 1, ws, AllDone(|ws|));
            && r[i][StatusCol] == status && r[i][ApprovedDateCol] == stamp
            && (forall j :: 0 <= j < |t| && j != i ==> r[j] == t[j])
  {
    ApprovalRowOfNumbered(t, i);
    DecisionRecorded(t, i + 1, status, comments, approver, stamp);
  }
}
