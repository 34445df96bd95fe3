/**
 * The monthly portal (`dev_app.py`): a teacher collects a month's expenses
 * in a draft kept in the drafts sheet, whose columns are `draft_id`,
 * `teacher_id`, `month`, `year`, `expenses`, `status`, `created_date`,
 * `last_modified_date` (A to H), and submits them to the ledger, each entry
 * receiving the id "ledger record count + 1" at the moment it is appended.
 */
module MonthlyApp {
  import opened Text
  import opened Sheets
  import opened Codec
  import opened Frames
  import opened Ledger
  import DraftManager

  /** The drafts sheet is read as the range A:H. */
  const DraftColumns: nat := 8

  // ----- reading drafts -----

  /**
   * The cell of record `rec` in the column called `name`: `None` when the
   * table has no such column (the lookup raises `KeyError`).
   */
  function Column(f: Frame, rec: seq<Cell>, name: string): (r: Option<Cell>)
    ensures r.Some? <==> name in f.columns
  {
    match ColumnIndex(f.columns, name)
    case None => None
    case Some(j) => Some(if j < |rec| then rec[j] else None)
  }

  predicate CellIs(f: Frame, rec: seq<Cell>, name: string, v: string) {
    Column(f, rec, name) == Some(Some(v))
  }

  /**
   * The filter of `get_draft_expenses`: the session teacher always, month
   * and year only when both were given.
   */
  predicate Selected(f: Frame, rec: seq<Cell>, teacher: string, month: string, yearText: string, byMonth: bool) {
    && CellIs(f, rec, "teacher_id", teacher)
    && (byMonth ==> CellIs(f, rec, "month", month) && CellIs(f, rec, "year", yearText))
  }

  /** The selected records, in sheet order. */
  function Select(f: Frame, recs: seq<seq<Cell>>, teacher: string, month: string, yearText: string, byMonth: bool)
    : (r: seq<seq<Cell>>)
    ensures |r| <= |recs|
    ensures forall x :: x in r ==> x in recs && Selected(f, x, teacher, month, yearText, byMonth)
  {
    if recs == [] then []
    else
      (if Selected(f, recs[0], teacher, month, yearText, byMonth) then [recs[0]] else [])
      + Select(f, recs[1..], teacher, month, yearText, byMonth)
  }

  /** No selected record is dropped. */
  lemma {:induction false} SelectComplete(f: Frame, recs: seq<seq<Cell>>, teacher: string, month: string, yearText: string, byMonth: bool)
    ensures forall x :: x in recs && Selected(f, x, teacher, month, yearText, byMonth) ==>
                          x in Select(f, recs, teacher, month, yearText, byMonth)
    decreases |recs|
  {
    if recs != [] {
      SelectComplete(f, recs[1..], teacher, month, yearText, byMonth);
      forall x | x in recs && Selected(f, x, teacher, month, yearText, byMonth)
        ensures x in Select(f, recs, teacher, month, yearText, byMonth)
      {
        if x != recs[0] {
          assert x in recs[1..];
        }
      }
    }
  }

  /** The filter works record by record: over a concatenation it is the concatenation of the filters. */
  lemma {:induction false} SelectConcat(f: Frame, a: seq<seq<Cell>>, b: seq<seq<Cell>>, teacher: string, month: string, yearText: string, byMonth: bool)
    ensures Select(f, a + b, teacher, month, yearText, byMonth)
            == Select(f, a, teacher, month, yearText, byMonth) + Select(f, b, teacher, month, yearText, byMonth)
    decreases |a|
  {
    if a == [] {
      assert a + b == b;
    } else {
      assert (a + b)[0] == a[0];
      assert (a + b)[1..] == a[1..] + b;
      SelectConcat(f, a[1..], b, teacher, month, yearText, byMonth);
    }
  }

  /** `json.loads(x) if x else []` on the expenses cell: an empty or missing cell holds no items. */
  function ExpensesOf(c: Cell): (r: Option<seq<Item>>)
    ensures (c.None? || c == Some("")) ==> r == Some([])
    ensures c.Some? && c.value != "" ==> r == Decode(c.value)
  {
    if c.None? || c.value == "" then Some([]) else Decode(c.value)
  }

  /**
   * One record of `get_draft_expenses`: the cells the portal goes on to use
   * (`None` where the table lacks the column) and the decoded items.
   */
  datatype Draft = Draft(draftId: Option<Cell>, status: Option<Cell>, created: Option<Cell>,
                         lastModified: Option<Cell>, expenses: seq<Item>)

  /** The selected records as drafts; `None` when some expenses cell does not decode (the whole read fails). */
  function ParseDrafts(f: Frame, recs: seq<seq<Cell>>): (r: Option<seq<Draft>>)
    requires "expenses" in f.columns
    ensures r.Some? ==> |r.value| == |recs|
    ensures r.Some? ==> forall k :: 0 <= k < |recs| ==>
              && Some(r.value[k].expenses) == ExpensesOf(Column(f, recs[k], "expenses").value)
              && r.value[k].draftId == Column(f, recs[k], "draft_id")
              && r.value[k].created == Column(f, recs[k], "created_date")
    ensures r.None? <==> exists k :: 0 <= k < |recs| && ExpensesOf(Column(f, recs[k], "expenses").value).None?
  {
    if recs == [] then Some([])
    else
      var rec := recs[0];
      match ExpensesOf(Column(f, rec, "expenses").value)
      case None => None
      case Some(items) =>
        match ParseDrafts(f, recs[1..])
        case None => None
        case Some(rest) =>
          Some([Draft(Column(f, rec, "draft_id"), Column(f, rec, "status"), Column(f, rec, "created_date"),
                      Column(f, rec, "last_modified_date"), items)] + rest)
  }

  /** The filter on month and year applies only when both are given (`if month and year`). */
  predicate ByMonth(month: string, year: int) { month != "" && year != 0 }

  /**
   * `get_draft_expenses(month, year)` for the signed-in teacher: the
   * selected records, in sheet order, with their items decoded. An empty
   * table, a missing column the filters or the decoding need, or a cell that
   * does not decode all give `[]`.
   */
  function GetDraftExpenses(rows: seq<Row>, teacher: string, month: string, year: int): (r: seq<Draft>)
    ensures var f := ReadFrame(ReadRange(rows, DraftColumns));
            r != [] ==>
              && !IsEmpty(f) && "teacher_id" in f.columns && "expenses" in f.columns
              && (ByMonth(month, year) ==> "month" in f.columns && "year" in f.columns)
              && ParseDrafts(f, Select(f, f.records, teacher, month, IntToString(year), ByMonth(month, year))) == Some(r)
  {
    var f := ReadFrame(ReadRange(rows, DraftColumns));
    var byMonth := ByMonth(month, year);
    if IsEmpty(f) || "teacher_id" !in f.columns then []
    else if byMonth && ("month" !in f.columns || "year" !in f.columns) then []
    else if "expenses" !in f.columns then []
    else match ParseDrafts(f, Select(f, f.records, teacher, month, IntToString(year), byMonth))
      case None => []
      case Some(ds) => ds
  }

  // ----- finding the draft row for an update -----

  /** What the test of `find_draft_row` does with one row: the `and` chain stops at the first false comparison, and a short row raises. */
  datatype Verdict = Match | Skip | Raise

  function RowVerdict(row: Row, teacher: string, month: string, yearText: string): (v: Verdict)
    ensures v == Match <==> |row| >= 4 && row[2] == month && row[3] == yearText && row[1] == teacher
    ensures v == Raise <==> |row| < 3 || (|row| == 3 && row[2] == month)
  {
    if |row| < 3 then Raise
    else if row[2] != month then Skip
    else if |row| < 4 then Raise
    else if row[3] != yearText then Skip
    else if row[1] != teacher then Skip
    else Match
  }

  /**
   * `find_draft_row(month, year)`: over the data rows, numbered from 2,
   * the first whose month (C), year (D) and teacher (B) match; `None` when
   * the sheet is empty, no row matches, or a short row on the way raises.
   */
  function FindDraftRow(values: seq<Row>, teacher: string, month: string, yearText: string): (r: Option<nat>)
    ensures r.Some? ==> 2 <= r.value <= |values| && RowVerdict(values[r.value - 1], teacher, month, yearText) == Match
    ensures r.Some? ==> forall j :: 1 <= j < r.value - 1 ==> RowVerdict(values[j], teacher, month, yearText) == Skip
    ensures r.None? ==> forall j :: 1 <= j < |values| ==>
                          (|| RowVerdict(values[j], teacher, month, yearText) != Match
                           || exists m :: 1 <= m < j && RowVerdict(values[m], teacher, month, yearText) == Raise)
  {
    if values == [] then None else FindFrom(values, 1, teacher, month, yearText)
  }

  function FindFrom(values: seq<Row>, i: nat, teacher: string, month: string, yearText: string): (r: Option<nat>)
    requires 1 <= i <= |values|
    ensures r.Some? ==> i + 1 <= r.value <= |values| && RowVerdict(values[r.value - 1], teacher, month, yearText) == Match
    ensures r.Some? ==> forall j :: i <= j < r.value - 1 ==> RowVerdict(values[j], teacher, month, yearText) == Skip
    ensures r.None? ==> forall j :: i <= j < |values| ==>
                          (|| RowVerdict(values[j], teacher, month, yearText) != Match
                           || exists m :: i <= m < j && RowVerdict(values[m], teacher, month, yearText) == Raise)
    decreases |values| - i
  {
    if i == |values| then None
    else match RowVerdict(values[i], teacher, month, yearText)
      case Raise => None
      case Match => Some(i + 1)
      case Skip => FindFrom(values, i + 1, teacher, month, yearText)
  }

  /** The eight values of a draft row, A to H. */
  function DraftRow(draftId: string, teacher: string, month: string, yearText: string, items: seq<Item>,
                    created: string, stamp: string): (vs: Row)
    ensures |vs| == DraftColumns
    ensures vs[0] == draftId && vs[1] == teacher && vs[2] == month && vs[3] == yearText
    ensures vs[5] == "draft" && vs[6] == created && vs[7] == stamp
  {
    [draftId, teacher, month, yearText, Encode(items), "draft", created, stamp]
  }

  /** The lookup finds a row this portal wrote: the teacher sits in B, after the draft id. */
  lemma DraftRowMatches(draftId: string, teacher: string, month: string, yearText: string, items: seq<Item>,
                        created: string, stamp: string)
    ensures RowVerdict(DraftRow(draftId, teacher, month, yearText, items, created, stamp), teacher, month, yearText) == Match
  {
  }

  /**
   * The two draft layouts do not mix: a row written by the single-form
   * store (teacher in A, month in B, year in C) is skipped by this lookup,
   * whose month is column C.
   */
  lemma SingleFormRowIsSkipped(key: DraftManager.Key, items: seq<Item>, status: string, stamp: string)
    requires key.month != key.year
    ensures RowVerdict(DraftManager.DraftValues(key, items, status, stamp), key.teacher, key.month, key.year) == Skip
  {
  }

  /** The single-form lookup, in turn, skips a row of this layout unless the draft id equals the teacher. */
  lemma MonthlyRowIsSkipped(draftId: string, key: DraftManager.Key, items: seq<Item>, created: string, stamp: string)
    requires draftId != key.teacher
    ensures !DraftManager.ExactKey(DraftRow(draftId, key.teacher, key.month, key.year, items, created, stamp), key)
  {
  }

  // ----- saving -----

  /** A cell as the next write sends it: a missing value clears the cell. */
  function CellValue(c: Cell): string {
    if c.None? then "" else c.value
  }

  /**
   * `save_draft_expenses(month, year, items)`. With a draft already stored
   * for the month, its id and creation time are kept and the eight cells of
   * the row `find_draft_row` names are written one by one, failures ignored
   * (no such row: False, nothing written); without one, a row with the fresh
   * id `newId` and the creation time `stamp` is appended.
   */
  method SaveDraftExpenses(drafts: Sheet, teacher: string, month: string, year: int, items: seq<Item>,
                           newId: string, stamp: string)
    returns (ok: bool, ghost done: seq<bool>)
    modifies drafts
    ensures var existing := GetDraftExpenses(old(drafts.rows), teacher, month, year);
            && (existing == [] ==>
                  drafts.rows == (if ok then old(drafts.rows) + [DraftRow(newId, teacher, month, IntToString(year), items, stamp, stamp)]
                                  else old(drafts.rows)))
            && (existing != [] && (existing[0].draftId.None? || existing[0].created.None?) ==>
                  !ok && drafts.rows == old(drafts.rows))
            && (existing != [] && existing[0].draftId.Some? && existing[0].created.Some? ==>
                  var target := FindDraftRow(ReadRange(old(drafts.rows), DraftColumns), teacher, month, IntToString(year));
                  var vs := DraftRow(CellValue(existing[0].draftId.value), teacher, month, IntToString(year), items,
                                     CellValue(existing[0].created.value), stamp);
                  && (target.None? ==> !ok && drafts.rows == old(drafts.rows))
                  && (target.Some? ==>
                        (&& ok && |done| == DraftColumns
                         && drafts.rows == ApplyWrites(old(drafts.rows), target.value, DraftManager.DraftWrites(vs), done))))
  {
    done := [];
    var yearText := IntToString(year);
    var existing := GetDraftExpenses(drafts.rows, teacher, month, year);
    if existing == [] {
      ok := drafts.Append(DraftRow(newId, teacher, month, yearText, items, stamp, stamp));
      return;
    }
    if existing[0].draftId.None? || existing[0].created.None? {
      return false, done;
    }
    var vs := DraftRow(CellValue(existing[0].draftId.value), teacher, month, yearText, items,
                       CellValue(existing[0].created.value), stamp);
    var target := FindDraftRow(ReadRange(drafts.rows, DraftColumns), teacher, month, yearText);
    if target.None? {
      return false, done;
    }
    done := WriteAll(drafts, target.value, DraftManager.DraftWrites(vs));
    ok := true;
  }

  /**
   * After an update whose writes all went through, the row holds the kept
   * draft id and creation time, the new items and the fresh modification
   * time, and no other row changed.
   */
  lemma UpdateRefreshesRow(before: seq<Row>, n: nat, vs: Row)
    requires 1 <= n <= |before| && |vs| == DraftColumns
    ensures var after := ApplyWrites(before, n, DraftManager.DraftWrites(vs), AllDone(DraftColumns));
            && |after| == |before|
            && |after[n - 1]| >= DraftColumns && after[n - 1][..DraftColumns] == vs
            && (forall i :: 0 <= i < |before| && i != n - 1 ==> after[i] == before[i])
  {
    var ws := DraftManager.DraftWrites(vs);
    var after := ApplyWrites(before, n, ws, AllDone(DraftColumns));
    forall k | 0 <= k < DraftColumns ensures k < |after[n - 1]| && after[n - 1][k] == vs[k] {
      ApplyWritesLastWins(before, n, ws, k);
    }
    ApplyWritesLastWins(before, n, ws, 7);
    assert after[n - 1][7] == vs[7];
    assert after[n - 1][..8] == vs;
    ApplyWritesFrame(before, n, ws, AllDone(DraftColumns));
    DraftManager.UpdateKeepsLength(before, n, ws, AllDone(DraftColumns));
  }

  /** The header of the drafts sheet. */
  const DraftHeader: Row := ["draft_id", "teacher_id", "month", "year", "expenses", "status", "created_date", "last_modified_date"]

  /** A text that the table view reads back unchanged. */
  predicate Plain(s: string) { Clean(s) == s }

  lemma EncodeIsPlain(items: seq<Item>)
    ensures Plain(Encode(items))
  {
    assert Encode(items)[0] == '{' || Encode(items)[0] == ']';
  }

  lemma YearTextIsPlain(year: int)
    ensures Plain(IntToString(year))
  {
    var s := IntToString(year);
    IntToStringIsIntText(year);
    assert s != "None" && s != "NaN" && s != "nan" by {
      assert IsDigit(s[0]) || s[0] == '-';
    }
  }

  /** Appending a header-wide row to a readable sheet adds one record and keeps the columns. */
  lemma ReadAfterAppend(values: seq<Row>, vs: Row)
    requires Readable(values) && |vs| == |values[0]|
    ensures Readable(values + [vs])
    ensures ReadFrame(values + [vs]).columns == ReadFrame(values).columns
    ensures ReadFrame(values + [vs]).records == ReadFrame(values).records + [Record(vs, |values[0]|)]
  {
    AppendKeepsReadable(values, vs);
    var f := ReadFrame(values);
    var g := ReadFrame(values + [vs]);
    assert |g.records| == |f.records| + 1;
    forall i | 0 <= i < |g.records| ensures g.records[i] == (f.records + [Record(vs, |values[0]|)])[i] {
      assert (values + [vs])[i + 1] == if i < |f.records| then values[i + 1] else vs;
    }
  }

  /** The positions of the drafts sheet's first four columns. */
  lemma DraftHeaderKeyColumns()
    ensures ColumnIndex(DraftHeader, "draft_id") == Some(0)
    ensures ColumnIndex(DraftHeader, "teacher_id") == Some(1)
    ensures ColumnIndex(DraftHeader, "month") == Some(2)
    ensures ColumnIndex(DraftHeader, "year") == Some(3)
  {
  }

  /** The positions of the drafts sheet's last four columns. */
  lemma DraftHeaderValueColumns()
    ensures ColumnIndex(DraftHeader, "expenses") == Some(4)
    ensures ColumnIndex(DraftHeader, "status") == Some(5)
    ensures ColumnIndex(DraftHeader, "created_date") == Some(6)
    ensures ColumnIndex(DraftHeader, "last_modified_date") == Some(7)
  {
    ExpensesColumn();
    StatusColumn();
    CreatedColumn();
    ModifiedColumn();
  }

  lemma ExpensesColumn()
    ensures ColumnIndex(DraftHeader, "expenses") == Some(4)
  {
    HeaderInitials();
  }

  lemma StatusColumn()
    ensures ColumnIndex(DraftHeader, "status") == Some(5)
  {
    HeaderInitials();
  }

  lemma CreatedColumn()
    ensures ColumnIndex(DraftHeader, "created_date") == Some(6)
  {
    HeaderInitials();
  }

  lemma ModifiedColumn()
    ensures ColumnIndex(DraftHeader, "last_modified_date") == Some(7)
  {
    HeaderInitials();
  }

  /** The drafts sheet's column names start with eight different letters. */
  lemma HeaderInitials()
    ensures |DraftHeader| == 8 && forall j :: 0 <= j < 8 ==> |DraftHeader[j]| > 0
    ensures DraftHeader[0][0] == 'd' && DraftHeader[1][0] == 't' && DraftHeader[2][0] == 'm' && DraftHeader[3][0] == 'y'
    ensures DraftHeader[4][0] == 'e' && DraftHeader[5][0] == 's' && DraftHeader[6][0] == 'c' && DraftHeader[7][0] == 'l'
  {
  }

  /** The record of a draft row whose texts are plain holds exactly those texts. */
  lemma RecordOfDraftRow(newId: string, teacher: string, month: string, year: int, items: seq<Item>, stamp: string)
    requires Plain(teacher) && Plain(month) && Plain(newId) && Plain(stamp)
    ensures Record(DraftRow(newId, teacher, month, IntToString(year), items, stamp, stamp), DraftColumns)
            == [Some(newId), Some(teacher), Some(month), Some(IntToString(year)), Some(Encode(items)),
                Some("draft"), Some(stamp), Some(stamp)]
  {
    EncodeIsPlain(items);
    YearTextIsPlain(year);
    assert Clean("draft") == "draft";
  }

  /** Only the appended record is selected when no earlier record was. */
  lemma SelectOnlyAppended(g: Frame, recs: seq<seq<Cell>>, rec: seq<Cell>, teacher: string, month: string, yearText: string)
    requires Select(g, recs, teacher, month, yearText, true) == []
    requires Selected(g, rec, teacher, month, yearText, true)
    ensures Select(g, recs + [rec], teacher, month, yearText, true) == [rec]
  {
    SelectConcat(g, recs, [rec], teacher, month, yearText, true);
    assert [rec][1..] == [];
  }

  /** The expenses cell of a saved row reads back as the saved items. */
  lemma ExpensesOfEncode(items: seq<Item>)
    ensures ExpensesOf(Some(Encode(items))) == Some(items)
  {
    assert Encode(items) != "" by { assert |Encode(items)| > 0; }
    DecodeEncode(items);
  }

  /** A single record parses to a single draft built from its cells. */
  lemma ParseOne(f: Frame, rec: seq<Cell>, items: seq<Item>)
    requires "expenses" in f.columns
    requires ExpensesOf(Column(f, rec, "expenses").value) == Some(items)
    ensures ParseDrafts(f, [rec]) == Some([Draft(Column(f, rec, "draft_id"), Column(f, rec, "status"),
                                                 Column(f, rec, "created_date"), Column(f, rec, "last_modified_date"), items)])
  {
    var d := Draft(Column(f, rec, "draft_id"), Column(f, rec, "status"), Column(f, rec, "created_date"),
                   Column(f, rec, "last_modified_date"), items);
    assert [rec][0] == rec;
    assert [rec][1..] == [];
    assert ParseDrafts(f, []) == Some([]);
    assert [d] + [] == [d];
  }

  /** The record of a saved row parses to the saved draft. */
  lemma ParseSavedRecord(g: Frame, newId: string, teacher: string, month: string, year: int, items: seq<Item>, stamp: string)
    requires g.columns == DraftHeader
    ensures var rec := [Some(newId), Some(teacher), Some(month), Some(IntToString(year)), Some(Encode(items)),
                        Some("draft"), Some(stamp), Some(stamp)];
            && Selected(g, rec, teacher, month, IntToString(year), true)
            && ParseDrafts(g, [rec]) == Some([Draft(Some(Some(newId)), Some(Some("draft")), Some(Some(stamp)), Some(Some(stamp)), items)])
  {
    var rec := [Some(newId), Some(teacher), Some(month), Some(IntToString(year)), Some(Encode(items)),
                Some("draft"), Some(stamp), Some(stamp)];
    SavedRecordColumns(g, rec);
    ExpensesOfEncode(items);
    ParseOne(g, rec, items);
  }

  /** In a table with the drafts header, each named column reads its own cell of a full record. */
  lemma SavedRecordColumns(g: Frame, rec: seq<Cell>)
    requires g.columns == DraftHeader && |rec| == DraftColumns
    ensures Column(g, rec, "draft_id") == Some(rec[0])
    ensures Column(g, rec, "teacher_id") == Some(rec[1])
    ensures Column(g, rec, "month") == Some(rec[2])
    ensures Column(g, rec, "year") == Some(rec[3])
    ensures Column(g, rec, "expenses") == Some(rec[4])
    ensures Column(g, rec, "status") == Some(rec[5])
    ensures Column(g, rec, "created_date") == Some(rec[6])
    ensures Column(g, rec, "last_modified_date") == Some(rec[7])
  {
    DraftHeaderKeyColumns();
    DraftHeaderValueColumns();
  }

  lemma ReadRangeSnoc(rows: seq<Row>, row: Row, width: nat)
    requires |row| <= width
    ensures ReadRange(rows + [row], width) == ReadRange(rows, width) + [row]
  {
  }

  /** A read of a sheet in the drafts layout whose selection parses returns the parsed drafts. */
  lemma ReadOfSelection(rows: seq<Row>, teacher: string, month: string, year: int, recs: seq<seq<Cell>>, ds: seq<Draft>)
    requires ByMonth(month, year)
    requires var g := ReadFrame(ReadRange(rows, DraftColumns));
             && g.columns == DraftHeader && |g.records| > 0
             && Select(g, g.records, teacher, month, IntToString(year), true) == recs
             && ParseDrafts(g, recs) == Some(ds)
    ensures GetDraftExpenses(rows, teacher, month, year) == ds
  {
    DraftHeaderHasFilterColumns();
  }

  /** The drafts header has every column the read filters on or decodes. */
  lemma DraftHeaderHasFilterColumns()
    ensures "teacher_id" in DraftHeader && "month" in DraftHeader && "year" in DraftHeader && "expenses" in DraftHeader
  {
    assert DraftHeader[1] == "teacher_id" && DraftHeader[2] == "month";
    assert DraftHeader[3] == "year" && DraftHeader[4] == "expenses";
  }

  /** The table read after a save appended its row: the old records plus the new one. */
  lemma FrameAfterAppend(before: seq<Row>, vs: Row)
    requires |before| >= 1 && before[0] == DraftHeader && |vs| == DraftColumns
    requires Readable(ReadRange(before, DraftColumns))
    ensures var g := ReadFrame(ReadRange(before + [vs], DraftColumns));
            && g.columns == DraftHeader
            && g.records == ReadFrame(ReadRange(before, DraftColumns)).records + [Record(vs, DraftColumns)]
  {
    var values := ReadRange(before, DraftColumns);
    ReadRangeSnoc(before, vs, DraftColumns);
    assert values[0] == DraftHeader;
    ReadAfterAppend(values, vs);
  }

  /**
   * Save then read: when no draft of the month is stored yet, the appended
   * row is the one draft the next read returns, with its fresh id, the new
   * items, status `draft` and both times equal to the save time.
   */
  lemma AppendedDraftIsRead(before: seq<Row>, teacher: string, month: string, year: int, items: seq<Item>,
                            newId: string, stamp: string)
    requires |before| >= 1 && before[0] == DraftHeader
    requires Readable(ReadRange(before, DraftColumns))
    requires ByMonth(month, year) && Plain(teacher) && Plain(month) && Plain(newId) && Plain(stamp)
    requires var f := ReadFrame(ReadRange(before, DraftColumns));
             Select(f, f.records, teacher, month, IntToString(year), true) == []
    ensures GetDraftExpenses(before + [DraftRow(newId, teacher, month, IntToString(year), items, stamp, stamp)],
                             teacher, month, year)
            == [Draft(Some(Some(newId)), Some(Some("draft")), Some(Some(stamp)), Some(Some(stamp)), items)]
  {
    var yearText := IntToString(year);
    var vs := DraftRow(newId, teacher, month, yearText, items, stamp, stamp);
    var f := ReadFrame(ReadRange(before, DraftColumns));
    FrameAfterAppend(before, vs);
    var g := ReadFrame(ReadRange(before + [vs], DraftColumns));
    RecordOfDraftRow(newId, teacher, month, year, items, stamp);
    var rec := Record(vs, DraftColumns);
    ParseSavedRecord(g, newId, teacher, month, year, items, stamp);
    assert f.columns == DraftHeader;
    SelectSameColumns(f, g, f.records, teacher, month, yearText);
    SelectOnlyAppended(g, f.records, rec, teacher, month, yearText);
    ReadOfSelection(before + [vs], teacher, month, year, [rec],
                    [Draft(Some(Some(newId)), Some(Some("draft")), Some(Some(stamp)), Some(Some(stamp)), items)]);
  }

  /** The filter only looks at the columns. */
  lemma SelectSameColumns(f: Frame, g: Frame, recs: seq<seq<Cell>>, teacher: string, month: string, yearText: string)
    requires f.columns == g.columns
    ensures Select(f, recs, teacher, month, yearText, true) == Select(g, recs, teacher, month, yearText, true)
  {
    assert forall x :: Selected(f, x, teacher, month, yearText, true) == Selected(g, x, teacher, month, yearText, true);
  }

  // ----- submitting the month -----

  /** `str(float(expense['amount']))`; `None` when the amount is missing or `float()` raises. */
  function AmountText(v: Option<Scalar>): (r: Option<string>)
    ensures v.Some? && v.value.JNum? ==> r == Some(FloatText(v.value.n))
    ensures v.Some? && v.value.JFloat? ==> r == Some(FloatText(v.value.whole))
  {
    match v
    case None => None
    case Some(JNum(n)) => Some(FloatText(n))
    case Some(JFloat(n)) => Some(FloatText(n))
    case Some(JStr(s)) =>
      if IsIntText(s) then Some(FloatText(ParseInt(s).value))
      else if IsDecimalText(s) then Some(s)
      else None
    case Some(JNull) => None
  }

  /** The entry's ledger row can be built: a date, a category and a numeric amount. */
  predicate Buildable(it: Item) {
    it.date.Some? && it.category.Some? && AmountText(it.amount).Some?
  }

  predicate AllBuildable(items: seq<Item>) {
    forall k :: 0 <= k < |items| ==> Buildable(items[k])
  }

  /**
   * The ledger row for one entry: the given id, the teacher, the entry's
   * fields (vendor `Not specified` and an empty description when absent),
   * `pending`, the time, and a single space in each of J, K and L.
   */
  function EntryRow(it: Item, id: nat, teacher: string, stamp: string): (r: Row)
    requires Buildable(it)
    ensures |r| == Ledger.Width
    ensures r[0] == IntToString(id) && r[1] == teacher
    ensures r[5] == AmountText(it.amount).value
    ensures r[StatusCol] == "pending" && r[8] == stamp
    ensures r[ApproverCol] == " " && r[ApprovedDateCol] == " " && r[CommentsCol] == " "
  {
    var vendor := if it.vendor.Some? then CellText(it.vendor.value) else "Not specified";
    var description := if it.description.Some? then CellText(it.description.value) else "";
    var amount := AmountText(it.amount).value;
    [IntToString(id), teacher, CellText(it.date.value), CellText(it.category.value), vendor,
     amount, description, "pending", stamp, " ", " ", " "]
  }

  /**
   * The ledger after the entries are appended one by one, each with the id
   * "record count + 1" read just before its append.
   */
  function Submitted(t: seq<Row>, items: seq<Item>, teacher: string, stamp: string): (r: seq<Row>)
    requires AllBuildable(items)
    ensures |r| == |t| + |items|
    ensures r[..|t|] == t
    decreases |items|
  {
    if items == [] then t
    else
      var prev := Submitted(t, items[..|items| - 1], teacher, stamp);
      prev + [EntryRow(items[|items| - 1], NextId(prev), teacher, stamp)]
  }

  /**
   * On a numbered ledger, one uninterrupted submission hands out the
   * consecutive ids `|t|`, `|t| + 1`, ... and keeps the ledger numbered, so
   * every new entry sits on the sheet row its id plus one names.
   */
  lemma {:induction false} SubmittedIdsAreConsecutive(t: seq<Row>, items: seq<Item>, teacher: string, stamp: string)
    requires Numbered(t) && AllBuildable(items)
    ensures var r := Submitted(t, items, teacher, stamp);
            && Numbered(r)
            && forall i :: |t| <= i < |r| ==> r[i][0] == IntToString(i)
    decreases |items|
  {
    if items != [] {
      var init := items[..|items| - 1];
      SubmittedIdsAreConsecutive(t, init, teacher, stamp);
      var prev := Submitted(t, init, teacher, stamp);
      var row := EntryRow(items[|items| - 1], NextId(prev), teacher, stamp);
      NextIdOfNumbered(prev);
      AppendKeepsNumbered(prev, row);
    }
  }

  /** An entry of a submission is decided on its own row: the id the table shows leads back to it. */
  lemma SubmittedEntryIsApprovable(t: seq<Row>, items: seq<Item>, teacher: string, stamp: string, k: nat)
    requires Numbered(t) && AllBuildable(items) && k < |items|
    ensures var r := Submitted(t, items, teacher, stamp);
            |r[|t| + k]| == Ledger.Width && ApprovalRow(r[|t| + k][0]) == Some(|t| + k + 1)
  {
    SubmittedIdsAreConsecutive(t, items, teacher, stamp);
    var r := Submitted(t, items, teacher, stamp);
    ApprovalRowOfNumbered(r, |t| + k);
  }

  lemma SubmittedSnoc(t: seq<Row>, items: seq<Item>, i: nat, teacher: string, stamp: string)
    requires i < |items| && AllBuildable(items[..i]) && Buildable(items[i])
    ensures AllBuildable(items[..i + 1])
    ensures Submitted(t, items[..i + 1], teacher, stamp)
            == var prev := Submitted(t, items[..i], teacher, stamp);
               prev + [EntryRow(items[i], NextId(prev), teacher, stamp)]
  {
    var s := items[..i + 1];
    assert s[..|s| - 1] == items[..i] && s[|s| - 1] == items[i];
    assert AllBuildable(s) by {
      forall k | 0 <= k < |s| ensures Buildable(s[k]) {
        if k < i {
          assert s[k] == items[..i][k];
        }
      }
    }
    SubmittedLast(t, s, teacher, stamp);
  }

  /** The last item's row follows the rows of the items before it. */
  lemma SubmittedLast(t: seq<Row>, s: seq<Item>, teacher: string, stamp: string)
    requires s != [] && AllBuildable(s)
    ensures AllBuildable(s[..|s| - 1])
    ensures Submitted(t, s, teacher, stamp)
            == var prev := Submitted(t, s[..|s| - 1], teacher, stamp);
               prev + [EntryRow(s[|s| - 1], NextId(prev), teacher, stamp)]
  {
  }

  /**
   * `submit_monthly_expenses(month, year, items)`: each entry in turn gets
   * the next id and is appended; the first failed append, or an entry whose
   * row cannot be built (which raises), ends the run with False. Only when
   * every entry went in is the draft's status cell F set to `submitted`, and
   * that write's own result is ignored.
   */
  method SubmitMonthlyExpenses(ledger: Sheet, drafts: Sheet, teacher: string, month: string, year: int,
                               items: seq<Item>, stamp: string)
    returns (ok: bool, ghost appended: nat)
    requires ledger != drafts
    modifies ledger, drafts
    ensures appended <= |items| && AllBuildable(items[..appended])
    ensures ledger.rows == Submitted(old(ledger.rows), items[..appended], teacher, stamp)
    ensures ok <==> appended == |items|
    ensures !ok ==> drafts.rows == old(drafts.rows)
    ensures ok ==>
              var target := FindDraftRow(ReadRange(old(drafts.rows), DraftColumns), teacher, month, IntToString(year));
              && (target.None? ==> drafts.rows == old(drafts.rows))
              && (target.Some? ==>
                    (|| drafts.rows == old(drafts.rows)
                     || drafts.rows == SetCell(old(drafts.rows), target.value, 5, "submitted")))
  {
    var i := 0;
    appended := 0;
    while i < |items|
      invariant 0 <= i <= |items| && appended == i
      invariant AllBuildable(items[..i])
      invariant ledger.rows == Submitted(old(ledger.rows), items[..i], teacher, stamp)
      invariant drafts.rows == old(drafts.rows)
    {
      if !Buildable(items[i]) {
        return false, i;
      }
      var nextId := NextId(ledger.rows);
      var added := ledger.Append(EntryRow(items[i], nextId, teacher, stamp));
      if !added {
        return false, i;
      }
      SubmittedSnoc(old(ledger.rows), items, i, teacher, stamp);
      i := i + 1;
      appended := i;
    }
    assert items[..i] == items;
    var target := FindDraftRow(ReadRange(drafts.rows, DraftColumns), teacher, month, IntToString(year));
    if target.Some? {
      var _ := drafts.UpdateCell(5, target.value, "submitted");
    }
    ok := true;
  }
}
