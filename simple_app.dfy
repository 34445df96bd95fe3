/**
 * The single-form portal (`ExpenseApp` in `dev_app_simple.py`): a teacher
 * logs in, adds expenses one by one to the month's draft (each addition is
 * saved at once), deletes some, and finally submits the draft, which copies
 * every item into the expenses ledger and marks the draft submitted. Admins
 * decide on ledger entries found by their id.
 */
module SimpleApp {
  import opened Text
  import opened Sheets
  import opened Codec
  import opened Frames
  import opened ExpenseForm
  import opened Ledger
  import opened DraftManager
  import PortalApp

  /** The draft held in the session: its items and its status. */
  datatype Current = Current(expenses: seq<Item>, status: Cell)

  function FreshDraft(): Current { Current([], Some("new")) }

  /** The session draft a load starts the form with. */
  function CurrentOf(d: Loaded): (c: Current)
    ensures d.NewDraft? ==> c == FreshDraft()
    ensures d.Stored? ==> c.expenses == d.expenses && c.status == d.status
  {
    match d
    case NewDraft => FreshDraft()
    case Stored(items, status, _, _) => Current(items, status)
  }

  // ----- opening the form -----

  /** The `current_draft` entry of the session: absent, `None`, or a draft. */
  datatype DraftSlot = Absent | NoDraft | Held(draft: Current)

  /** The application is built on every run: `__init__` puts `None` in an absent entry and keeps a present one. */
  function InitSlot(s: DraftSlot): (r: DraftSlot)
    ensures r != Absent
    ensures s != Absent ==> r == s
  {
    if s == Absent then NoDraft else s
  }

  /** How opening the form ends: it shows a draft, or a call on `None` raises (and `run` reports it). */
  datatype FormOpening = Shown(draft: Current) | FormRaised

  /**
   * `show_expense_form` as written: only an absent entry makes it load the
   * month's draft; a `None` entry reaches `.get('status', 'new')` and raises.
   */
  function OpenFormAsWritten(s: DraftSlot, loaded: Loaded): (r: FormOpening)
    ensures r == FormRaised <==> s == NoDraft
  {
    match s
    case Absent => Shown(CurrentOf(loaded))
    case NoDraft => FormRaised
    case Held(d) => Shown(d)
  }

  /**
   * `show_expense_form` as evidently intended: a missing or `None` entry is
   * replaced by the loaded draft, so the form always opens.
   */
  function OpenForm(s: DraftSlot, loaded: Loaded): (r: FormOpening)
    ensures r.Shown?
    ensures !s.Held? ==> r.draft == CurrentOf(loaded)
    ensures s.Held? ==> r.draft == s.draft
  {
    match s
    case Held(d) => Shown(d)
    case _ => Shown(CurrentOf(loaded))
  }

  /** The pages a run of the script can show, as far as the draft entry is concerned. */
  datatype Page = LoginPage | LogoutAction | FormPage(loaded: Loaded)

  /**
   * One run as written: `__init__`, then the page. Logging out stores
   * `None`; a form that opens keeps a draft in the entry (its add, delete and
   * submit actions all leave one there); a form that raises changes nothing.
   */
  function RunPage(s: DraftSlot, p: Page): DraftSlot {
    var s1 := InitSlot(s);
    match p
    case LoginPage => s1
    case LogoutAction => NoDraft
    case FormPage(loaded) =>
      match OpenFormAsWritten(s1, loaded)
      case Shown(d) => Held(d)
      case FormRaised => s1
  }

  function Runs(s: DraftSlot, pages: seq<Page>): DraftSlot
    decreases |pages|
  {
    if pages == [] then s else Runs(RunPage(s, pages[0]), pages[1..])
  }

  /** A session without a draft never gets one as written: every run leaves `None` in place. */
  lemma {:induction false} NoDraftIsEverHeld(s: DraftSlot, pages: seq<Page>)
    requires !s.Held?
    ensures Runs(s, pages) == (if s == Absent && pages == [] then Absent else NoDraft)
    decreases |pages|
  {
    if pages != [] {
      assert RunPage(s, pages[0]) == NoDraft;
      NoDraftIsEverHeld(RunPage(s, pages[0]), pages[1..]);
    }
  }

  /**
   * As written, whatever pages a fresh session has shown before, opening
   * the form raises; the intended form opens on the month's draft.
   */
  lemma FormNeverOpensAsWritten(pages: seq<Page>, loaded: Loaded)
    ensures OpenFormAsWritten(InitSlot(Runs(Absent, pages)), loaded) == FormRaised
    ensures OpenForm(InitSlot(Runs(Absent, pages)), loaded) == Shown(CurrentOf(loaded))
  {
    NoDraftIsEverHeld(Absent, pages);
  }

  // ----- adding an item -----

  /**
   * The item the form adds: the next local id and the form's fields as JSON
   * values, the amount as the float `float(amount)`.
   */
  function NewItem(current: seq<Item>, date: string, category: string, vendor: string, amount: int, description: string): (it: Item)
    ensures Complete(it)
    ensures it.id == Some(JNum(|current| + 1))
    ensures ScalarText(it.amount.value) == FloatText(amount)
  {
    Item(Some(JStr(date)), Some(JStr(category)), Some(JStr(vendor)), Some(JStr(description)),
         Some(JFloat(amount)), Some(JNum(|current| + 1)))
  }

  /** An item built from a calendar date passes the store's validation, so adding it never blocks a save. */
  lemma NewItemValid(current: seq<Item>, date: string, category: string, vendor: string, amount: int, description: string)
    requires IsIsoDate(date)
    ensures ValidExpense(NewItem(current, date, category, vendor, amount, description))
  {
  }

  /** Local ids are `1..n` in order, as they are while nothing has been deleted. */
  predicate IdsInOrder(items: seq<Item>) {
    forall k :: 0 <= k < |items| ==> items[k].id == Some(JNum(k + 1))
  }

  /** Without deletions the next local id is fresh and the ids stay in order. */
  lemma AddKeepsIdsInOrder(current: seq<Item>, date: string, category: string, vendor: string, amount: int, description: string)
    requires IdsInOrder(current)
    ensures var it := NewItem(current, date, category, vendor, amount, description);
            && (forall k :: 0 <= k < |current| ==> current[k].id != it.id)
            && IdsInOrder(current + [it])
  {
  }

  // ----- deleting an item -----

  predicate HasIds(items: seq<Item>) {
    forall k :: 0 <= k < |items| ==> items[k].id.Some?
  }

  /** `[e for e in expenses if e['id'] != expense_id]`. */
  function Without(items: seq<Item>, target: Scalar): (r: seq<Item>)
    requires HasIds(items)
    ensures |r| <= |items|
    ensures HasIds(r)
  {
    if items == [] then []
    else if items[0].id.value == target then Without(items[1..], target)
    else [items[0]] + Without(items[1..], target)
  }

  /** The filter works item by item: over a concatenation it is the concatenation of the filters. */
  lemma {:induction false} WithoutConcat(a: seq<Item>, b: seq<Item>, target: Scalar)
    requires HasIds(a) && HasIds(b)
    ensures HasIds(a + b)
    ensures Without(a + b, target) == Without(a, target) + Without(b, target)
    decreases |a|
  {
    HasIdsConcat(a, b);
    if a == [] {
      assert a + b == b;
    } else {
      var x, rest := a[0], a[1..];
      assert a == [x] + rest && a + b == [x] + (rest + b);
      HasIdsConcat(rest, b);
      WithoutConcat(rest, b, target);
      WithoutCons(x, rest, target);
      WithoutCons(x, rest + b, target);
    }
  }

  lemma HasIdsConcat(a: seq<Item>, b: seq<Item>)
    requires HasIds(a) && HasIds(b)
    ensures HasIds(a + b)
  {
    forall k | 0 <= k < |a + b| ensures (a + b)[k].id.Some? {
      if k >= |a| {
        assert (a + b)[k] == b[k - |a|];
      }
    }
  }

  lemma WithoutCons(x: Item, rest: seq<Item>, target: Scalar)
    requires x.id.Some? && HasIds(rest)
    ensures HasIds([x] + rest)
    ensures Without([x] + rest, target) == (if x.id.value == target then [] else [x]) + Without(rest, target)
  {
    HasIdsConcat([x], rest);
    assert ([x] + rest)[1..] == rest;
  }

  /** The filter keeps exactly the items whose id differs from the target. */
  lemma {:induction false} WithoutKeepsExactlyOthers(items: seq<Item>, target: Scalar)
    requires HasIds(items)
    ensures forall x :: x in Without(items, target) ==> x in items && x.id.value != target
    ensures forall x :: x in items && x.id.value != target ==> x in Without(items, target)
    decreases |items|
  {
    if items != [] {
      WithoutKeepsExactlyOthers(items[1..], target);
      forall x | x in items && x.id.value != target ensures x in Without(items, target) {
        if x != items[0] {
          assert x in items[1..];
        }
      }
    }
  }

  /** A local id can come back: delete the first of two items, add a new one, and two items share an id. */
  lemma DeleteThenAddRepeatsId(a: Item, b: Item, date: string, category: string, vendor: string, amount: int, description: string)
    requires a.id == Some(JNum(1)) && b.id == Some(JNum(2))
    ensures var kept := Without([a, b], JNum(1));
            var it := NewItem(kept, date, category, vendor, amount, description);
            kept == [b] && it.id == b.id
  {
    assert [a, b][1..] == [b];
    assert [b][1..] == [];
  }

  // ----- submission rows -----

  /** The ledger row for one draft item: its local id, the teacher, the item's fields, `pending`, the time and three empty cells. */
  function SubmissionRow(it: Item, teacher: string, stamp: string): (r: Row)
    requires Complete(it)
    ensures |r| == Ledger.Width
    ensures r[0] == ScalarText(it.id.value) && r[1] == teacher
    ensures r[2] == CellText(it.date.value) && r[3] == CellText(it.category.value) && r[4] == CellText(it.vendor.value)
    ensures r[5] == ScalarText(it.amount.value) && r[6] == CellText(it.description.value)
    ensures r[StatusCol] == "pending" && r[8] == stamp
    ensures r[ApproverCol] == "" && r[ApprovedDateCol] == "" && r[CommentsCol] == ""
  {
    [ScalarText(it.id.value), teacher, CellText(it.date.value), CellText(it.category.value),
     CellText(it.vendor.value), ScalarText(it.amount.value), CellText(it.description.value),
     "pending", stamp, "", "", ""]
  }

  /**
   * For an item the form built, cells A to I are those the one-expense
   * portal writes for the same entry: the amount as `str(float(amount))`,
   * which `float()` reads back.
   */
  lemma SubmissionRowOfNewItem(current: seq<Item>, date: string, category: string, vendor: string,
                               amount: int, description: string, teacher: string, stamp: string)
    ensures var r := SubmissionRow(NewItem(current, date, category, vendor, amount, description), teacher, stamp);
            && r[..9] == PortalApp.ExpenseRow(|current| + 1, teacher, date, category, vendor, amount, description, stamp)[..9]
            && r[5] == FloatText(amount) && IsDecimalText(r[5])
  {
    FloatTextIsDecimal(amount);
  }

  predicate AllComplete(items: seq<Item>) {
    forall k :: 0 <= k < |items| ==> Complete(items[k])
  }

  /** The rows for the items, in order. */
  function SubmissionRows(items: seq<Item>, teacher: string, stamp: string): (rs: seq<Row>)
    requires AllComplete(items)
    ensures |rs| == |items|
    ensures forall k :: 0 <= k < |items| ==> rs[k] == SubmissionRow(items[k], teacher, stamp)
  {
    seq(|items|, k requires 0 <= k < |items| => SubmissionRow(items[k], teacher, stamp))
  }

  /** One more complete item adds its row at the end. */
  lemma SubmissionRowsSnoc(items: seq<Item>, i: nat, teacher: string, stamp: string)
    requires i < |items| && AllComplete(items[..i]) && Complete(items[i])
    ensures AllComplete(items[..i + 1])
    ensures SubmissionRows(items[..i + 1], teacher, stamp)
            == SubmissionRows(items[..i], teacher, stamp) + [SubmissionRow(items[i], teacher, stamp)]
  {
    var s := items[..i + 1];
    forall k | 0 <= k < |s| ensures Complete(s[k]) {
      if k < i {
        assert s[k] == items[..i][k];
      }
    }
  }

  /**
   * Rows submitted with local ids break the ledger numbering as soon as the
   * ledger already holds an entry: the first item of a draft carries id 1,
   * which the approval screen maps to the first data row, not to the new one.
   */
  lemma SubmissionBreaksNumbering(t: seq<Row>, it: Item, teacher: string, stamp: string)
    requires Numbered(t) && |t| >= 2
    requires Complete(it) && it.id == Some(JNum(1))
    ensures !Numbered(t + [SubmissionRow(it, teacher, stamp)])
    ensures ApprovalRow(SubmissionRow(it, teacher, stamp)[0]) == Some(2)
  {
    var r := SubmissionRow(it, teacher, stamp);
    assert r[0] == IntToString(1);
    if IntToString(|t|) == IntToString(1) {
      IntToStringInjective(|t|, 1);
    }
    assert (t + [r])[|t|] == r;
    ParseIntOfIntToString(1);
  }

  // ----- the admin decision -----

  /** Where a scan for an id ends: at a row, past the end, or on an empty row (`row[0]` raises). */
  datatype Scan = Found(rowNo: nat) | Missing | Crashed

  /** `for i, row in enumerate(values): if row[0] == str(expense_id)`: the first row, header included. */
  function ScanForId(values: seq<Row>, idText: string): (r: Scan)
    ensures r.Found? ==> 1 <= r.rowNo <= |values| && |values[r.rowNo - 1]| > 0 && values[r.rowNo - 1][0] == idText
    ensures r.Found? ==> forall j :: 0 <= j < r.rowNo - 1 ==> |values[j]| > 0 && values[j][0] != idText
    ensures r.Missing? ==> forall j :: 0 <= j < |values| ==> |values[j]| > 0 && values[j][0] != idText
    ensures r.Crashed? ==> exists j :: 0 <= j < |values| && |values[j]| == 0
  {
    ScanFrom(values, 0, idText)
  }

  function ScanFrom(values: seq<Row>, i: nat, idText: string): (r: Scan)
    requires i <= |values|
    ensures r.Found? ==> i + 1 <= r.rowNo <= |values| && |values[r.rowNo - 1]| > 0 && values[r.rowNo - 1][0] == idText
    ensures r.Found? ==> forall j :: i <= j < r.rowNo - 1 ==> |values[j]| > 0 && values[j][0] != idText
    ensures r.Missing? ==> forall j :: i <= j < |values| ==> |values[j]| > 0 && values[j][0] != idText
    ensures r.Crashed? ==> exists j :: i <= j < |values| && |values[j]| == 0
    decreases |values| - i
  {
    if i == |values| then Missing
    else if |values[i]| == 0 then Crashed
    else if values[i][0] == idText then Found(i + 1)
    else ScanFrom(values, i + 1, idText)
  }

  /**
   * `update_expense_status` as written: every path that finds the entry calls
   * a cell-update method this class does not have, the resulting error is
   * caught, and the call answers False without writing anything.
   */
  function UpdateStatusAsWritten(rows: seq<Row>, idText: string): (ok: bool)
  {
    var values := ReadRange(rows, Ledger.Width);
    if values == [] then false
    else match ScanForId(values, idText)
      case Found(_) => false
      case Missing => false
      case Crashed => false
  }

  /** As written, no decision is ever recorded, even for an entry that is in the ledger. */
  lemma DecisionNeverRecordedAsWritten(rows: seq<Row>, idText: string)
    requires ScanForId(ReadRange(rows, Ledger.Width), idText).Found?
    ensures !UpdateStatusAsWritten(rows, idText)
  {
  }

  /**
   * `update_expense_status(expense_id, ...)` as evidently intended: the first
   * row whose id cell is `str(expense_id)` receives the decision writes; an
   * empty sheet, a missing id or an empty row on the way answer False and
   * write nothing.
   */
  method UpdateExpenseStatus(ledger: Sheet, idText: string, status: string, comments: string, approver: string, stamp: string)
    returns (ok: bool, ghost done: seq<bool>)
    modifies ledger
    ensures ok <==> ScanForId(ReadRange(old(ledger.rows), Ledger.Width), idText).Found?
    ensures !ok ==> ledger.rows == old(ledger.rows)
    ensures ok ==> |done| == |DecisionWrites(status, comments, approver, stamp)|
                   && ledger.rows == ApplyWrites(old(ledger.rows), ScanForId(ReadRange(old(ledger.rows), Ledger.Width), idText).rowNo,
                                                 DecisionWrites(status, comments, approver, stamp), done)
  {
    done := [];
    var values := ReadRange(ledger.rows, Ledger.Width);
    if values == [] {
      return false, done;
    }
    var scan := ScanForId(values, idText);
    if !scan.Found? {
      return false, done;
    }
    done := WriteAll(ledger, scan.rowNo, DecisionWrites(status, comments, approver, stamp));
    ok := true;
  }

  // ----- login -----

  /** A table cell as `astype(str)` renders it: a missing cell becomes the text `None`. */
  function CellStr(c: Cell): string {
    if c.None? then "None" else c.value
  }

  /** A users record has the given id and pin, both compared after stripping. */
  predicate CredentialsMatch(rec: seq<Cell>, idCol: nat, pinCol: nat, id: string, pin: string) {
    && idCol < |rec| && pinCol < |rec|
    && Strip(CellStr(rec[idCol])) == Strip(id)
    && Strip(CellStr(rec[pinCol])) == Strip(pin)
  }

  /** The first record matching id and pin. */
  function FirstCredentialMatch(records: seq<seq<Cell>>, idCol: nat, pinCol: nat, id: string, pin: string): (r: Option<nat>)
    ensures r.Some? ==> r.value < |records| && CredentialsMatch(records[r.value], idCol, pinCol, id, pin)
    ensures r.Some? ==> forall j :: 0 <= j < r.value ==> !CredentialsMatch(records[j], idCol, pinCol, id, pin)
    ensures r.None? ==> forall j :: 0 <= j < |records| ==> !CredentialsMatch(records[j], idCol, pinCol, id, pin)
  {
    var flags := seq(|records|, j requires 0 <= j < |records| => CredentialsMatch(records[j], idCol, pinCol, id, pin));
    assert forall j :: 0 <= j < |records| ==> (flags[j] <==> CredentialsMatch(records[j], idCol, pinCol, id, pin));
    FirstSet(flags, 0)
  }

  /**
   * `validate_credentials(its_id, pin)` over the users sheet (columns A to D):
   * the index of the first record whose stripped `teacher_id` and `pin` equal
   * the stripped input; `None` when the table is empty, lacks either column,
   * or has no such record.
   */
  function ValidateCredentials(users: seq<Row>, id: string, pin: string): (r: Option<nat>)
    ensures var f := ReadFrame(ReadRange(users, 4));
            var idCol := ColumnIndex(f.columns, "teacher_id");
            var pinCol := ColumnIndex(f.columns, "pin");
            && (r.Some? ==>
                  && idCol.Some? && pinCol.Some? && r.value < |f.records|
                  && CredentialsMatch(f.records[r.value], idCol.value, pinCol.value, id, pin)
                  && forall j :: 0 <= j < r.value ==> !CredentialsMatch(f.records[j], idCol.value, pinCol.value, id, pin))
            && (idCol.Some? && pinCol.Some? && r.None? ==>
                  forall j :: 0 <= j < |f.records| ==> !CredentialsMatch(f.records[j], idCol.value, pinCol.value, id, pin))
  {
    var f := ReadFrame(ReadRange(users, 4));
    if IsEmpty(f) then None
    else match (ColumnIndex(f.columns, "teacher_id"), ColumnIndex(f.columns, "pin"))
      case (Some(idCol), Some(pinCol)) => FirstCredentialMatch(f.records, idCol, pinCol, id, pin)
      case _ => None
  }

  datatype LoginOutcome = MissingField | PinNotFourLong | PinNotDigits | InvalidCredentials | LoggedIn(record: nat)

  /** The login button of `show_login`: both fields stripped, then checked in order. */
  function Login(users: seq<Row>, rawId: string, rawPin: string): (r: LoginOutcome)
    ensures (Strip(rawId) == "" || Strip(rawPin) == "") <==> r == MissingField
    ensures r == PinNotFourLong <==> Strip(rawId) != "" && Strip(rawPin) != "" && |Strip(rawPin)| != 4
    ensures r == PinNotDigits <==> Strip(rawId) != "" && |Strip(rawPin)| == 4 && !AllDigits(Strip(rawPin))
    ensures r == InvalidCredentials <==>
              && Strip(rawId) != "" && |Strip(rawPin)| == 4 && AllDigits(Strip(rawPin))
              && ValidateCredentials(users, Strip(rawId), Strip(rawPin)).None?
    ensures r.LoggedIn? <==>
              && Strip(rawId) != "" && |Strip(rawPin)| == 4 && AllDigits(Strip(rawPin))
              && ValidateCredentials(users, Strip(rawId), Strip(rawPin)).Some?
    ensures r.LoggedIn? ==> ValidateCredentials(users, Strip(rawId), Strip(rawPin)) == Some(r.record)
  {
    var id := Strip(rawId);
    var pin := Strip(rawPin);
    if id == "" || pin == "" then MissingField
    else if |pin| != 4 then PinNotFourLong
    else if !AllDigits(pin) then PinNotDigits
    else match ValidateCredentials(users, id, pin)
      case None => InvalidCredentials
      case Some(k) => LoggedIn(k)
  }

  // ----- the session-holding application -----

  /**
   * The application with its two sheets and the parts of the session the
   * draft screens use: the signed-in teacher and the current draft.
   */
  class ExpenseApp {
    const drafts: Sheet
    const ledger: Sheet
    const teacher: string
    var current: Current

    /**
     * The form's first visit as intended (`OpenForm` on the `None` entry
     * `__init__` leaves): the month's draft is loaded by the corrected
     * loader, or a fresh one started.
     */
    constructor (drafts: Sheet, ledger: Sheet, teacher: string, month: string, year: int)
      requires drafts != ledger
      ensures this.drafts == drafts && this.ledger == ledger && this.teacher == teacher
      ensures Shown(current) == OpenForm(InitSlot(Absent), LoadDraftPadded(drafts.rows, KeyOf(teacher, month, year)))
      ensures this.drafts != this.ledger
    {
      this.drafts := drafts;
      this.ledger := ledger;
      this.teacher := teacher;
      current := OpenForm(InitSlot(Absent), LoadDraftPadded(drafts.rows, KeyOf(teacher, month, year))).draft;
    }

    /**
     * "Add Expense": an input the form checks refuse changes nothing;
     * otherwise the item joins the session draft (even when the save then
     * fails) and the draft is saved.
     */
    method AddExpense(month: string, year: int, date: string, category: string, vendor: string,
                      amount: int, description: string, stamp: string)
      returns (ok: bool, ghost written: nat)
      modifies this, drafts
      ensures !ValidInput(category, vendor, amount, description) ==>
                !ok && current == old(current) && drafts.rows == old(drafts.rows)
      ensures ValidInput(category, vendor, amount, description) ==>
                && current == old(current).(expenses := old(current.expenses)
                     + [NewItem(old(current.expenses), date, category, vendor, amount, description)])
                && SavedAs(old(drafts.rows), drafts.rows, ok, written, KeyOf(teacher, month, year), current.expenses, "draft", stamp)
    {
      written := 0;
      if !ValidInput(category, vendor, amount, description) {
        return false, 0;
      }
      var it := NewItem(current.expenses, date, category, vendor, amount, description);
      current := current.(expenses := current.expenses + [it]);
      ok, written := SaveDraft(drafts, KeyOf(teacher, month, year), current.expenses, "draft", stamp);
    }

    /**
     * `_delete_expense(expense_id)`: the session draft keeps exactly the
     * items with another id, and that list is saved. An item without an id
     * makes the filter raise: nothing changes and the answer is False.
     */
    method DeleteExpense(month: string, year: int, target: Scalar, stamp: string)
      returns (ok: bool, ghost written: nat)
      modifies this, drafts
      ensures !HasIds(old(current.expenses)) ==> !ok && current == old(current) && drafts.rows == old(drafts.rows)
      ensures HasIds(old(current.expenses)) ==>
                && current == old(current).(expenses := Without(old(current.expenses), target))
                && SavedAs(old(drafts.rows), drafts.rows, ok, written, KeyOf(teacher, month, year), current.expenses, "draft", stamp)
    {
      written := 0;
      if !HasIds(current.expenses) {
        return false, 0;
      }
      current := current.(expenses := Without(current.expenses, target));
      ok, written := SaveDraft(drafts, KeyOf(teacher, month, year), current.expenses, "draft", stamp);
    }

    /**
     * The submission loop: one ledger row per item, in order, until an append
     * fails or an item misses a field; answers how many rows went in.
     */
    method AppendSubmissions(items: seq<Item>, stamp: string) returns (appended: nat)
      modifies ledger
      ensures appended <= |items| && AllComplete(items[..appended])
      ensures ledger.rows == old(ledger.rows) + SubmissionRows(items[..appended], teacher, stamp)
    {
      appended := 0;
      while appended < |items|
        invariant appended <= |items| && AllComplete(items[..appended])
        invariant ledger.rows == old(ledger.rows) + SubmissionRows(items[..appended], teacher, stamp)
      {
        if !Complete(items[appended]) {
          return;
        }
        var added := ledger.Append(SubmissionRow(items[appended], teacher, stamp));
        if !added {
          return;
        }
        SubmissionRowsSnoc(items, appended, teacher, stamp);
        appended := appended + 1;
      }
    }

    /**
     * `_submit_expenses_for_approval`: nothing to submit answers False;
     * otherwise one ledger row per item is appended in order, stopping at the
     * first failed append (or at an item missing a field, which raises); only
     * when every row went in is the draft saved as `submitted`, and only when
     * that save succeeds is the session draft reset.
     */
    method SubmitForApproval(month: string, year: int, stamp: string)
      returns (ok: bool, ghost appended: nat, ghost saved: bool, ghost written: nat)
      requires drafts != ledger
      modifies this, drafts, ledger
      ensures appended <= |old(current.expenses)|
      ensures AllComplete(old(current.expenses)[..appended])
      ensures ledger.rows == old(ledger.rows) + SubmissionRows(old(current.expenses)[..appended], teacher, stamp)
      ensures old(current.expenses) == [] ==> !ok && ledger.rows == old(ledger.rows)
      ensures appended < |old(current.expenses)| ==>
                !ok && drafts.rows == old(drafts.rows) && current == old(current)
      ensures appended == |old(current.expenses)| ==>
                && SavedAs(old(drafts.rows), drafts.rows, saved, written, KeyOf(teacher, month, year),
                           old(current.expenses), "submitted", stamp)
                && (ok <==> saved && old(current.expenses) != [])
                && current == (if ok then FreshDraft() else old(current))
    {
      appended, saved, written := 0, false, 0;
      var items := current.expenses;
      if items == [] {
        return false, 0, false, 0;
      }
      var n := AppendSubmissions(items, stamp);
      appended := n;
      if n < |items| {
        return false, n, false, 0;
      }
      assert items[..n] == items;
      var stored;
      stored, written := SaveDraft(drafts, KeyOf(teacher, month, year), items, "submitted", stamp);
      saved := stored;
      if !stored {
        return false, n, stored, written;
      }
      current := FreshDraft();
      ok := true;
    }
  }
}
