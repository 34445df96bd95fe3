/**
 * The draft store of the single-form portal (`DraftManager` in
 * `dev_app_simple.py`). The drafts sheet has the columns `teacher_id`,
 * `month`, `year`, `expenses`, `status`, `created_date`, `last_modified`,
 * `comments` (A to H); a draft is found by its (teacher, month, year) key,
 * its items are kept as one encoded text cell, and a save writes columns A
 * to G of the draft's row, or appends a new row.
 */
module DraftManager {
  import opened Text
  import opened Sheets
  import opened Codec
  import opened Frames

  const DraftWidth: nat := 8

  /** What `load_draft` hands back: a fresh draft, or the stored one with its status and dates. */
  datatype Loaded =
    | NewDraft
    | Stored(expenses: seq<Item>, status: Cell, created: Cell, lastModified: Cell)

  /** Cell `j` of a row, `None` when the row is shorter (the table pads it with a missing value). */
  function CellAt(row: Row, j: nat): (c: Cell)
    ensures c.Some? <==> j < |row|
    ensures c.Some? ==> c.value == row[j]
  {
    if j < |row| then Some(row[j]) else None
  }

  /**
   * The key a draft is stored under: the teacher id, the month name and the
   * year as the text `str(year)`.
   */
  datatype Key = Key(teacher: string, month: string, year: string)

  function KeyOf(teacher: string, month: string, year: int): (k: Key)
    ensures k.teacher == teacher && k.month == month && ParseInt(k.year) == Some(year)
  {
    ParseIntOfIntToString(year);
    Key(teacher, month, IntToString(year))
  }

  // ----- validation -----

  /** The six fields every stored item must carry. */
  predicate Complete(it: Item) {
    it.date.Some? && it.category.Some? && it.vendor.Some?
    && it.description.Some? && it.amount.Some? && it.id.Some?
  }

  /** `datetime.strptime(v, '%Y-%m-%d')` succeeds. */
  predicate DateParses(v: Scalar) {
    v.JStr? && IsIsoDate(v.s)
  }

  /** `float(v)` succeeds. */
  predicate FloatParses(v: Scalar) {
    match v
    case JNum(_) => true
    case JFloat(_) => true
    case JStr(s) => IsDecimalText(s)
    case JNull => false
  }

  /** `int(v)` succeeds. */
  predicate IntParses(v: Scalar) {
    match v
    case JNum(_) => true
    case JFloat(_) => true
    case JStr(s) => IsIntText(s)
    case JNull => false
  }

  /**
   * `_validate_expense`: all six fields present, a calendar date, an amount
   * `float` accepts and an id `int` accepts (`str` of the other fields never fails).
   */
  predicate ValidExpense(it: Item) {
    Complete(it) && DateParses(it.date.value) && FloatParses(it.amount.value) && IntParses(it.id.value)
  }

  predicate AllValid(items: seq<Item>) {
    forall k :: 0 <= k < |items| ==> ValidExpense(items[k])
  }

  /** The validation looks at the amount's form only: any numeric amount, negative or zero, passes. */
  lemma AnyNumericAmountPasses(it: Item, n: int)
    requires ValidExpense(it)
    ensures ValidExpense(it.(amount := Some(JNum(n))))
  {
  }

  /** A missing field, a non-date, or an id that is no integer text fails validation. */
  lemma ValidationRejects(it: Item)
    ensures !Complete(it) ==> !ValidExpense(it)
    ensures it.date.Some? && it.date.value.JStr? && !IsIsoDate(it.date.value.s) ==> !ValidExpense(it)
    ensures it.id.Some? && it.id.value.JStr? && !IsIntText(it.id.value.s) ==> !ValidExpense(it)
    ensures it.amount == Some(JNull) ==> !ValidExpense(it)
  {
  }

  // ----- finding the draft row for a save -----

  /** `_find_draft_row`'s test: at least three cells and an exact key match. */
  predicate ExactKey(row: Row, key: Key) {
    |row| >= 3 && row[0] == key.teacher && row[1] == key.month && row[2] == key.year
  }

  /**
   * `_find_draft_row`: the 1-based sheet row of the first row, header
   * included, that matches the key exactly; `None` when there is none.
   */
  function FindDraftRow(values: seq<Row>, key: Key): (r: Option<nat>)
    ensures r.Some? ==> 1 <= r.value <= |values| && ExactKey(values[r.value - 1], key)
    ensures r.Some? ==> forall i :: 0 <= i < r.value - 1 ==> !ExactKey(values[i], key)
    ensures r.None? ==> forall i :: 0 <= i < |values| ==> !ExactKey(values[i], key)
  {
    FindFrom(values, 0, key)
  }

  function FindFrom(values: seq<Row>, i: nat, key: Key): (r: Option<nat>)
    requires i <= |values|
    ensures r.Some? ==> i + 1 <= r.value <= |values| && ExactKey(values[r.value - 1], key)
    ensures r.Some? ==> forall j :: i <= j < r.value - 1 ==> !ExactKey(values[j], key)
    ensures r.None? ==> forall j :: i <= j < |values| ==> !ExactKey(values[j], key)
    decreases |values| - i
  {
    if i == |values| then None
    else if ExactKey(values[i], key) then Some(i + 1)
    else FindFrom(values, i + 1, key)
  }

  // ----- loading -----

  /** `load_draft`'s test: the three key cells equal the key after `strip()`. */
  predicate LoadKey(row: Row, key: Key) {
    && |row| >= 3
    && SameStripped(row[0], key.teacher)
    && SameStripped(row[1], key.month)
    && SameStripped(row[2], key.year)
  }

  /** The two texts agree once `strip()` has removed surrounding white space. */
  predicate SameStripped(a: string, b: string) {
    Strip(a) == Strip(b)
  }

  /** Index of the first data row that passes the load test. */
  function FirstLoadMatch(data: seq<Row>, key: Key): (r: Option<nat>)
    ensures r.Some? ==> r.value < |data| && LoadKey(data[r.value], key)
    ensures r.Some? ==> forall j :: 0 <= j < r.value ==> !LoadKey(data[j], key)
    ensures r.None? ==> forall j :: 0 <= j < |data| ==> !LoadKey(data[j], key)
  {
    var flags := seq(|data|, j requires 0 <= j < |data| => LoadKey(data[j], key));
    assert forall j :: 0 <= j < |data| ==> (flags[j] <==> LoadKey(data[j], key));
    FirstSet(flags, 0)
  }

  /** A row passing the test, with none before it, is the one the loader picks. */
  lemma FirstLoadMatchIs(data: seq<Row>, j: nat, key: Key)
    requires j < |data| && LoadKey(data[j], key)
    requires forall i :: 0 <= i < j ==> !LoadKey(data[i], key)
    ensures FirstLoadMatch(data, key) == Some(j)
  {
  }

  /** The stored draft in the first matching data row, once the table has been built. */
  function LoadFromData(data: seq<Row>, key: Key): (d: Loaded)
    ensures d.Stored? ==> exists j :: 0 <= j < |data| && LoadKey(data[j], key)
    ensures d.Stored? ==> forall k :: 0 <= k < |d.expenses| ==> Complete(d.expenses[k])
  {
    match FirstLoadMatch(data, key)
    case None => NewDraft
    case Some(j) =>
      var row := data[j];
      match CellAt(row, 3)
      case None => NewDraft
      case Some(text) =>
        match Decode(text)
        case None => NewDraft
        case Some(items) =>
          if exists k :: 0 <= k < |items| && !Complete(items[k]) then NewDraft
          else Stored(items, CellAt(row, 4), CellAt(row, 5), CellAt(row, 6))
  }

  /**
   * `load_draft` as written: the data rows go into a table declared with
   * eight columns, which refuses rows whose widest member is not eight cells
   * wide; the error is caught and a fresh draft is returned.
   */
  function LoadDraft(rows: seq<Row>, key: Key): (d: Loaded)
    ensures d.Stored? ==> |rows| >= 2 && MaxWidth(ReadRange(rows, DraftWidth)[1..]) == DraftWidth
  {
    var values := ReadRange(rows, DraftWidth);
    if values == [] then NewDraft
    else
      var data := values[1..];
      if data == [] then NewDraft
      else if MaxWidth(data) != DraftWidth then NewDraft
      else LoadFromData(data, key)
  }

  /**
   * `load_draft` as evidently intended: short rows are padded with missing
   * cells whatever the width of the widest one.
   */
  function LoadDraftPadded(rows: seq<Row>, key: Key): (d: Loaded)
    ensures d.Stored? ==> |rows| >= 2
  {
    var values := ReadRange(rows, DraftWidth);
    if |values| < 2 then NewDraft else LoadFromData(values[1..], key)
  }

  /** Where the eight-column table is accepted, the two loaders agree. */
  lemma LoadersAgreeOnFullWidth(rows: seq<Row>, key: Key)
    requires |rows| >= 2 && MaxWidth(ReadRange(rows, DraftWidth)[1..]) == DraftWidth
    ensures LoadDraft(rows, key) == LoadDraftPadded(rows, key)
  {
  }

  // ----- saving -----

  /** A draft row's first seven cells: the key, the items' text, the status, and the time twice. */
  function RowValues(key: Key, text: string, status: string, stamp: string): (vs: Row)
    ensures |vs| == 7
  {
    [key.teacher, key.month, key.year, text, status, stamp, stamp]
  }

  /** The seven values a save writes, columns A to G: the items are stored as their JSON text. */
  function DraftValues(key: Key, items: seq<Item>, status: string, stamp: string): (vs: Row)
    ensures |vs| == 7
  {
    RowValues(key, Encode(items), status, stamp)
  }

  /** The cell writes of an update: value `k` into column `k`, from A to G. */
  function DraftWrites(vs: Row): (ws: seq<Write>)
    ensures |ws| == |vs|
    ensures forall k :: 0 <= k < |ws| ==> ws[k] == Write(k, vs[k])
  {
    seq(|vs|, k requires 0 <= k < |vs| => Write(k, vs[k]))
  }

  /**
   * The outcome of `save_draft`: nothing written when an item fails
   * validation; otherwise the cells A to G of the key's row written in order
   * until one write fails (`written` of them went through), or one row
   * appended when no row has the key.
   */
  predicate SavedAs(before: seq<Row>, after: seq<Row>, ok: bool, written: nat,
                    key: Key, items: seq<Item>, status: string, stamp: string)
  {
    if !AllValid(items) then !ok && after == before
    else
      var vs := DraftValues(key, items, status, stamp);
      match FindDraftRow(ReadRange(before, DraftWidth), key)
      case None => after == (if ok then before + [vs] else before)
      case Some(n) =>
        && written <= |vs|
        && after == ApplyWrites(before, n, DraftWrites(vs)[..written], AllDone(written))
        && (ok <==> written == |vs|)
  }

  /** The validation pass of `save_draft`: every item, in order, until one fails. */
  method CheckAll(items: seq<Item>) returns (valid: bool)
    ensures valid <==> AllValid(items)
  {
    var i := 0;
    while i < |items|
      invariant 0 <= i <= |items|
      invariant forall k :: 0 <= k < i ==> ValidExpense(items[k])
    {
      if !ValidExpense(items[i]) {
        return false;
      }
      i := i + 1;
    }
    return true;
  }

  /** `save_draft(month, year, teacher_id, expenses, status)`, for the key `KeyOf(teacher_id, month, year)`. */
  method SaveDraft(drafts: Sheet, key: Key, items: seq<Item>, status: string, stamp: string)
    returns (ok: bool, ghost written: nat)
    modifies drafts
    ensures SavedAs(old(drafts.rows), drafts.rows, ok, written, key, items, status, stamp)
  {
    written := 0;
    var valid := CheckAll(items);
    if !valid {
      return false, 0;
    }
    var vs := DraftValues(key, items, status, stamp);
    var existing := FindDraftRow(ReadRange(drafts.rows, DraftWidth), key);
    if existing.Some? {
      ok, written := WriteUntilFailure(drafts, existing.value, DraftWrites(vs));
    } else {
      ok := drafts.Append(vs);
    }
  }

  /**
   * After a full update, the draft's row holds the seven new values in A to
   * G, keeps whatever else it had (the comments in H), and no other row changes.
   */
  lemma UpdatedRowHoldsValues(before: seq<Row>, n: nat, vs: Row)
    requires 1 <= n <= |before| && |vs| == 7
    ensures var after := ApplyWrites(before, n, DraftWrites(vs), AllDone(7));
            && |after| == |before|
            && |after[n - 1]| >= 7 && after[n - 1][..7] == vs
            && SameOutside(before[n - 1], after[n - 1], {0, 1, 2, 3, 4, 5, 6})
            && (forall i :: 0 <= i < |before| && i != n - 1 ==> after[i] == before[i])
  {
    var ws := DraftWrites(vs);
    var after := ApplyWrites(before, n, ws, AllDone(7));
    forall k | 0 <= k < 7 ensures k < |after[n - 1]| && after[n - 1][k] == vs[k] {
      DraftWriteLands(before, n, vs, k);
    }
    DraftWriteLands(before, n, vs, 6);
    CellsMakePrefix(after[n - 1], vs);
    ApplyWritesFrame(before, n, ws, AllDone(7));
    DraftColumns(vs);
    UpdateKeepsLength(before, n, ws, AllDone(7));
  }

  /** Each of the seven draft writes lands in its own cell of the row. */
  lemma DraftWriteLands(before: seq<Row>, n: nat, vs: Row, k: nat)
    requires 1 <= n <= |before| && |vs| == 7 && k < 7
    ensures var after := ApplyWrites(before, n, DraftWrites(vs), AllDone(7));
            n - 1 < |after| && k < |after[n - 1]| && after[n - 1][k] == vs[k]
  {
    var ws := DraftWrites(vs);
    assert forall m :: k < m < |ws| ==> ws[m].col != ws[k].col;
    ApplyWritesLastWins(before, n, ws, k);
  }

  lemma CellsMakePrefix(row: Row, vs: Row)
    requires |vs| == 7 && |row| >= 7 && forall k :: 0 <= k < 7 ==> row[k] == vs[k]
    ensures row[..7] == vs
  {
  }

  /** The draft writes touch columns A–G only. */
  lemma DraftColumns(vs: Row)
    requires |vs| == 7
    ensures Columns(DraftWrites(vs)) <= {0, 1, 2, 3, 4, 5, 6}
  {
  }

  lemma {:induction false} UpdateKeepsLength(t: seq<Row>, n: nat, ws: seq<Write>, done: seq<bool>)
    requires 1 <= n <= |t| && |done| == |ws|
    ensures |ApplyWrites(t, n, ws, done)| == |t|
    decreases |ws|
  {
    if ws != [] {
      var t' := if done[0] then SetCell(t, n, ws[0].col, ws[0].value) else t;
      UpdateKeepsLength(t', n, ws[1..], done[1..]);
    }
  }

  /**
   * Canonical keys: a data row that matches the key after stripping
   * matches it exactly, and the header row is no draft of this key.
   */
  predicate CanonicalKeys(t: seq<Row>, key: Key) {
    && |t| >= 1
    && !ExactKey(t[0], key)
    && forall i :: 1 <= i < |t| && LoadKey(t[i], key) ==> ExactKey(t[i], key)
  }

  lemma KeysOfCut(row: Row, key: Key)
    ensures var c := if |row| <= DraftWidth then row else row[..DraftWidth];
            (LoadKey(c, key) <==> LoadKey(row, key))
            && (ExactKey(c, key) <==> ExactKey(row, key))
  {
  }

  /** What a loader reads back from a data row written by a save. */
  lemma LoadOfSavedRow(data: seq<Row>, j: nat, key: Key, items: seq<Item>, status: string, stamp: string)
    requires j < |data| && |data[j]| >= 7
    requires data[j][..7] == DraftValues(key, items, status, stamp)
    requires AllValid(items)
    requires forall i :: 0 <= i < j ==> !LoadKey(data[i], key)
    ensures LoadFromData(data, key) == Stored(items, Some(status), Some(stamp), Some(stamp))
  {
    DecodeEncode(items);
    LoadOfRow(data, j, key, Encode(items), items, status, stamp);
  }

  /** The loader reads a row holding a text that decodes to valid items as those items. */
  lemma LoadOfRow(data: seq<Row>, j: nat, key: Key, text: string, items: seq<Item>, status: string, stamp: string)
    requires j < |data| && |data[j]| >= 7
    requires data[j][..7] == RowValues(key, text, status, stamp)
    requires Decode(text) == Some(items) && AllValid(items)
    requires forall i :: 0 <= i < j ==> !LoadKey(data[i], key)
    ensures LoadFromData(data, key) == Stored(items, Some(status), Some(stamp), Some(stamp))
  {
    RowCells(data[j], key, text, status, stamp);
    FirstLoadMatchIs(data, j, key);
    assert !exists k :: 0 <= k < |items| && !Complete(items[k]);
  }

  /** The cells of a row whose first seven cells a save wrote. */
  lemma RowCells(row: Row, key: Key, text: string, status: string, stamp: string)
    requires |row| >= 7 && row[..7] == RowValues(key, text, status, stamp)
    ensures LoadKey(row, key)
    ensures CellAt(row, 3) == Some(text)
    ensures CellAt(row, 4) == Some(status) && CellAt(row, 5) == Some(stamp) && CellAt(row, 6) == Some(stamp)
  {
    var vs := RowValues(key, text, status, stamp);
    assert row[0] == vs[0] && row[1] == vs[1] && row[2] == vs[2];
    assert row[3] == vs[3] && row[4] == vs[4] && row[5] == vs[5] && row[6] == vs[6];
  }

  /**
   * A successful save is read back by the corrected loader: the same items,
   * the status given and the save time, provided the keys in the sheet are
   * canonical.
   */
  lemma SaveThenLoad(before: seq<Row>, after: seq<Row>, written: nat,
                     key: Key, items: seq<Item>, status: string, stamp: string)
    requires SavedAs(before, after, true, written, key, items, status, stamp)
    requires CanonicalKeys(before, key)
    ensures AllValid(items)
    ensures LoadDraftPadded(after, key) == Stored(items, Some(status), Some(stamp), Some(stamp))
  {
    var cut := ReadRange(before, DraftWidth);
    match FindDraftRow(cut, key)
    case None => AppendedDraftLoads(before, key, items, status, stamp);
    case Some(n) => UpdatedDraftLoads(before, n, key, items, status, stamp);
  }

  lemma AppendedDraftLoads(before: seq<Row>, key: Key, items: seq<Item>, status: string, stamp: string)
    requires AllValid(items) && CanonicalKeys(before, key)
    requires FindDraftRow(ReadRange(before, DraftWidth), key).None?
    ensures LoadDraftPadded(before + [DraftValues(key, items, status, stamp)], key)
            == Stored(items, Some(status), Some(stamp), Some(stamp))
  {
    var vs := DraftValues(key, items, status, stamp);
    var cut := ReadRange(before, DraftWidth);
    var after := before + [vs];
    var values := ReadRange(after, DraftWidth);
    var data := values[1..];
    var j := |before| - 1;
    assert data[j] == vs;
    forall i | 0 <= i < j ensures !LoadKey(data[i], key) {
      KeysOfCut(before[i + 1], key);
      assert data[i] == cut[i + 1];
      assert !ExactKey(cut[i + 1], key);
    }
    LoadOfSavedRow(data, j, key, items, status, stamp);
  }

  lemma UpdatedDraftLoads(before: seq<Row>, n: nat, key: Key, items: seq<Item>, status: string, stamp: string)
    requires AllValid(items) && CanonicalKeys(before, key)
    requires FindDraftRow(ReadRange(before, DraftWidth), key) == Some(n)
    ensures var vs := DraftValues(key, items, status, stamp);
            LoadDraftPadded(ApplyWrites(before, n, DraftWrites(vs)[..7], AllDone(7)), key)
            == Stored(items, Some(status), Some(stamp), Some(stamp))
  {
    var ws := DraftWrites(DraftValues(key, items, status, stamp));
    assert ws[..7] == ws;
    FoundRowIsData(before, n, key);
    DecodeEncode(items);
    UpdatedDataLoads(before, n, key, Encode(items), items, status, stamp);
  }

  /** The row a canonical sheet finds for a key is never the header. */
  lemma FoundRowIsData(before: seq<Row>, n: nat, key: Key)
    requires CanonicalKeys(before, key)
    requires FindDraftRow(ReadRange(before, DraftWidth), key) == Some(n)
    ensures 2 <= n <= |before|
  {
    KeysOfCut(before[0], key);
    assert !ExactKey(ReadRange(before, DraftWidth)[0], key);
  }

  /** The loader's data rows after the update hold the saved draft as the first match. */
  lemma UpdatedDataLoads(before: seq<Row>, n: nat, key: Key, text: string, items: seq<Item>, status: string, stamp: string)
    requires Decode(text) == Some(items) && AllValid(items)
    requires CanonicalKeys(before, key) && 2 <= n <= |before|
    requires FindDraftRow(ReadRange(before, DraftWidth), key) == Some(n)
    ensures var after := ApplyWrites(before, n, DraftWrites(RowValues(key, text, status, stamp)), AllDone(7));
            LoadFromData(ReadRange(after, DraftWidth)[1..], key) == Stored(items, Some(status), Some(stamp), Some(stamp))
  {
    var vs := RowValues(key, text, status, stamp);
    var after := ApplyWrites(before, n, DraftWrites(vs), AllDone(7));
    UpdatedRowHoldsValues(before, n, vs);
    UpdatedPrefixUnmatched(before, after, n, key);
    LoadAfterUpdate(after, n, key, text, items, status, stamp);
  }

  /**
   * Rows whose row `n` starts with a saved draft, and whose earlier data rows
   * all fail the load test, load that draft.
   */
  lemma LoadAfterUpdate(after: seq<Row>, n: nat, key: Key, text: string, items: seq<Item>, status: string, stamp: string)
    requires Decode(text) == Some(items) && AllValid(items)
    requires 2 <= n <= |after| && |after[n - 1]| >= 7 && after[n - 1][..7] == RowValues(key, text, status, stamp)
    requires forall i :: 0 <= i < n - 2 ==> !LoadKey(ReadRange(after, DraftWidth)[1..][i], key)
    ensures LoadFromData(ReadRange(after, DraftWidth)[1..], key) == Stored(items, Some(status), Some(stamp), Some(stamp))
  {
    CutKeepsPrefix(after, n - 1);
    LoadOfRow(ReadRange(after, DraftWidth)[1..], n - 2, key, text, items, status, stamp);
  }

  /** Cutting the rows to the draft width keeps the first seven cells of a data row. */
  lemma CutKeepsPrefix(rows: seq<Row>, i: nat)
    requires 1 <= i < |rows| && |rows[i]| >= 7
    ensures var data := ReadRange(rows, DraftWidth)[1..];
            |data[i - 1]| >= 7 && data[i - 1][..7] == rows[i][..7]
  {
  }

  /** The data rows before an updated draft row are the old ones, and none of them passes the load test. */
  lemma UpdatedPrefixUnmatched(before: seq<Row>, after: seq<Row>, n: nat, key: Key)
    requires CanonicalKeys(before, key) && 2 <= n <= |before| && |after| == |before|
    requires forall i :: 0 <= i < |before| && i != n - 1 ==> after[i] == before[i]
    requires FindDraftRow(ReadRange(before, DraftWidth), key) == Some(n)
    ensures var data := ReadRange(after, DraftWidth)[1..];
            forall i :: 0 <= i < n - 2 ==> !LoadKey(data[i], key)
  {
    var cut := ReadRange(before, DraftWidth);
    var data := ReadRange(after, DraftWidth)[1..];
    forall i | 0 <= i < n - 2 ensures !LoadKey(data[i], key) {
      KeysOfCut(before[i + 1], key);
      assert data[i] == cut[i + 1];
      assert !ExactKey(cut[i + 1], key);
    }
  }

  // ----- the finding: a sheet of seven-cell rows never loads -----

  /**
   * As written, a sheet whose data rows all have fewer than eight cells
   * (as every row `save_draft` appends does) always loads as a fresh draft.
   */
  lemma NarrowSheetLoadsAsNew(rows: seq<Row>, key: Key)
    requires forall i :: 1 <= i < |rows| ==> |rows[i]| < DraftWidth
    ensures LoadDraft(rows, key) == NewDraft
  {
    var values := ReadRange(rows, DraftWidth);
    if |values| >= 2 {
      var data := values[1..];
      assert forall i :: 0 <= i < |data| ==> |data[i]| < DraftWidth;
    }
  }

  /**
   * The concrete case: a draft saved into a sheet holding only its header is
   * lost by the loader as written and found by the corrected one.
   */
  lemma FirstSaveIsNotLoaded(header: Row, after: seq<Row>, written: nat,
                             key: Key, items: seq<Item>, status: string, stamp: string)
    requires !ExactKey(header, key)
    requires SavedAs([header], after, true, written, key, items, status, stamp)
    ensures LoadDraft(after, key) == NewDraft
    ensures LoadDraftPadded(after, key) == Stored(items, Some(status), Some(stamp), Some(stamp))
  {
    KeysOfCut(header, key);
    assert ReadRange([header], DraftWidth)[0] == (if |header| <= DraftWidth then header else header[..DraftWidth]);
    assert FindDraftRow(ReadRange([header], DraftWidth), key).None?;
    assert after == [header, DraftValues(key, items, status, stamp)];
    NarrowSheetLoadsAsNew(after, key);
    SaveThenLoad([header], after, written, key, items, status, stamp);
  }
}
