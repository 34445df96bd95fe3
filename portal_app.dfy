/**
 * The one-expense-at-a-time portal (`app.py`): the form's checks, then one
 * twelve-cell ledger row whose id is the ledger's record count plus one.
 */
module PortalApp {
  import opened Text
  import opened Sheets
  import opened Frames
  import opened ExpenseForm
  import opened Ledger

  /**
   * The row the form submits: id, teacher, date, category, vendor, the
   * amount as `str(float(amount))`, description, `pending`, the time, and a
   * single space in each of J, K and L.
   */
  function ExpenseRow(id: nat, teacher: string, date: string, category: string, vendor: string,
                      amount: int, description: string, stamp: string): (r: Row)
    ensures |r| == Ledger.Width
    ensures r[0] == IntToString(id) && r[1] == teacher && r[2] == date && r[3] == category && r[4] == vendor
    ensures r[5] == FloatText(amount) && r[6] == description
    ensures r[StatusCol] == "pending" && r[8] == stamp
    ensures r[ApproverCol] == " " && r[ApprovedDateCol] == " " && r[CommentsCol] == " "
  {
    [IntToString(id), teacher, date, category, vendor, FloatText(amount), description,
     "pending", stamp, " ", " ", " "]
  }

  /** How a submission ends: refused by a check, failed at the store, or appended. */
  datatype Submission = Refused(error: InputError) | Failed | Appended

  /**
   * "Submit Expense": the checks in order (the first failure is reported and
   * nothing is written), then the id is read from the ledger and the row
   * appended; a failed append is reported and writes nothing.
   */
  method SubmitExpense(ledger: Sheet, teacher: string, date: string, category: string, vendor: string,
                       amount: int, description: string, stamp: string)
    returns (outcome: Submission)
    modifies ledger
    ensures FirstInputError(category, vendor, amount, description).Some? ==>
              outcome == Refused(FirstInputError(category, vendor, amount, description).value)
              && ledger.rows == old(ledger.rows)
    ensures FirstInputError(category, vendor, amount, description).None? ==>
              && outcome != Refused(NoCategory) && outcome != Refused(NoVendor)
              && outcome != Refused(BadAmount) && outcome != Refused(NoDescription)
              && ledger.rows == (if outcome == Appended
                                 then old(ledger.rows) + [ExpenseRow(NextId(old(ledger.rows)), teacher, date, category,
                                                                     vendor, amount, description, stamp)]
                                 else old(ledger.rows))
  {
    var error := FirstInputError(category, vendor, amount, description);
    if error.Some? {
      return Refused(error.value);
    }
    var row := ExpenseRow(NextId(ledger.rows), teacher, date, category, vendor, amount, description, stamp);
    if |row| != Ledger.Width {
      return Failed;
    }
    var ok := ledger.Append(row);
    outcome := if ok then Appended else Failed;
  }

  /**
   * A successful submission to a numbered ledger keeps it numbered: the new
   * entry's id is the number of its data row, so its approve button reaches it.
   */
  lemma SubmissionKeepsNumbered(t: seq<Row>, teacher: string, date: string, category: string, vendor: string,
                                amount: int, description: string, stamp: string)
    requires Numbered(t)
    ensures var row := ExpenseRow(NextId(t), teacher, date, category, vendor, amount, description, stamp);
            && Numbered(t + [row])
            && ApprovalRow(row[0]) == Some(|t| + 1)
  {
    var row := ExpenseRow(NextId(t), teacher, date, category, vendor, amount, description, stamp);
    AppendKeepsNumbered(t, row);
    ApprovalRowOfNumbered(t + [row], |t|);
  }

  /**
   * The placeholders are a space, not empty: a decision without an approver
   * or comments leaves J or L holding `" "`, which the table view does not
   * read as empty.
   */
  lemma PlaceholderIsNotEmpty(t: seq<Row>, row: Row, status: string, stamp: string)
    requires |row| == Ledger.Width && row[ApproverCol] == " " && row[CommentsCol] == " "
    ensures var after := ApplyWrites(t + [row], |t| + 1, DecisionWrites(status, "", "", stamp),
                                     AllDone(|DecisionWrites(status, "", "", stamp)|));
            && after[|t|][ApproverCol] == " " && after[|t|][CommentsCol] == " "
            && Clean(" ") != ""
  {
    var ws := DecisionWrites(status, "", "", stamp);
    var t' := t + [row];
    assert t'[|t|] == row;
    DecisionColumns(status, "", "", stamp);
    ApplyWritesFrame(t', |t| + 1, ws, AllDone(|ws|));
    var after := ApplyWrites(t', |t| + 1, ws, AllDone(|ws|));
    assert SameOutside(row, after[|t|], Columns(ws));
    assert ApproverCol !in Columns(ws) && CommentsCol !in Columns(ws);
  }
}
