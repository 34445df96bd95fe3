# Teacher expense portal — a verified model

This project models the core of a Streamlit expense portal for teachers. The
portal keeps its data in three spreadsheet tabs:

- a users tab;
- an expenses ledger: twelve columns A–L, header in row 1, one row per expense;
- a drafts tab: one row per teacher and month, with the month's items as one JSON cell.

The model covers these parts:

- **Three application variants.** The single-form portal (`dev_app_simple.py`) adds items to a month's draft one at a time and submits the draft. The monthly portal (`dev_app.py`) saves and submits a month's list. The one-at-a-time portal (`app.py`) appends one ledger row per form.
- **Admin decisions.** All three variants let an admin decide on a ledger entry. The decision writes the status, approver, date and comments cells of the entry's row.
- **Authentication manager** (`auth_manager.py`): format checks, a three-strikes, 300-second lockout, and the user lookup.
- **Dashboard aggregation** (`dashboard_manager.py`): a per-month tally, the month status rule, and a five-minute memo kept in the session.
- **Session guards** (`utils.py`): the 30-minute timeout, the sign-in and admin guards, the dashboard defaults, and cache clearing.

Modules, one per file:

| module | file | models |
|---|---|---|
| `Text` | text.dfy | `str`/`int` conversions, `strip` (Python's white-space set), `isdigit`/`isalnum`, ISO dates, month names |
| `Sheets` | sheets.dfy | the sheet as rows of cells; appends and cell updates that may fail |
| `Codec` | codec.dfy | expense items and their one-cell text form, with a proved round trip |
| `Frames` | frames.dfy | `read_sheet_to_df`: header, padded records, the `replace` of null texts |
| `Ledger` | ledger.dfy | ledger ids, the approval row, the decision writes |
| `DraftManager` | draft_manager.dfy | the draft store of `dev_app_simple.py` |
| `ExpenseForm` | form.dfy | the form checks shared by the variants |
| `SimpleApp` | simple_app.dfy | `ExpenseApp` of `dev_app_simple.py` |
| `MonthlyApp` | monthly_app.dfy | `ExpenseApp` of `dev_app.py` |
| `PortalApp` | portal_app.dfy | `ExpenseApp` of `app.py` |
| `Auth` | auth.dfy | `AuthManager` |
| `SessionState` | session.dfy | the session map |
| `Guards` | guards.dfy | `utils.py` |
| `Dashboard` | dashboard.dfy | `DashboardManager` |

**How the model represents the program:**

- **External inputs.** The spreadsheet service, clocks and random ids are parameters.
  - A sheet is a `Sheets.Sheet` object whose `rows` field the methods update. Every append or cell write may fail; a failed write changes nothing.
  - A read of the service is the rows it returned, or `None` when it raised.
  - Time is a whole number of seconds `now`.
  - Formatted timestamps are a `stamp` text.
  - A fresh draft id is a `newId` text.
- **The session** is a class holding the fields or the key–value map the code mutates.

## Model

| member | source | states |
|---|---|---|
| Text.ParseIntOfIntToString | app.py:354-358 | `int(str(n)) == n`: an id written with `str` reads back as the same number |
| Text.IntToStringInjective | app.py:550 | distinct ids have distinct texts |
| Text.DateMonth | dashboard_manager.py:42-44 | the month of a date that `strptime` accepts lies in 1..12 |
| Sheets.PadRow | auth_manager.py:76 | the row is padded with empty cells to the width and keeps its cells |
| Sheets.SetCell | app.py:138-155 | a single-cell update sets exactly that cell; it grows the table or row with empty cells when needed and leaves every other row unchanged |
| Sheets.Sheet.Append | app.py:120-136 | a successful append adds exactly the row at the end; a failed one changes nothing |
| Sheets.Sheet.UpdateCell | app.py:138-155 | a successful update is `SetCell`; a failed one, or a row number below 1, changes nothing |
| Sheets.ApplyWritesFrame | app.py:390-426 | a run of writes to one row changes no other row, and no cell of that row outside the written columns |
| Sheets.ApplyWritesLastWins | app.py:390-426 | after a fully successful run, a column holds the value of its last write |
| Sheets.WriteAll | app.py:390-426 | each write is attempted in order; a failed write does not stop the others; the result is the writes that went through |
| Sheets.WriteUntilFailure | dev_app_simple.py:102-107 | the writes stop at the first failure; the sheet holds exactly the prefix that went through, and `ok` holds iff all did |
| Codec.DecodeEncode | dev_app_simple.py:94 | decoding the stored text of a list of items gives back that list |
| Codec.NonListTextDoesNotDecode | dev_app_simple.py:71-73 | a text that starts neither an item nor the list's end, the empty cell among them, does not decode, so the decode error path is reachable |
| Frames.ReadRange | dev_app_simple.py:22-25 | a column-range read cuts each row to the range's width and keeps the row count |
| Frames.Record | dev_app_simple.py:722 | a record keeps the row's cells with `None`/`NaN`/`nan` read as empty, and pads missing cells with `None` |
| Frames.ReadFrame | dev_app_simple.py:709-727 | the header names the columns and each data row is one record; an empty read, or data rows whose widest is not as wide as the header, give the empty table |
| Frames.ColumnIndex | dev_app.py:366-367 | the first column with the name, or `None` exactly when no column has it (`KeyError`) |
| Frames.LenOfReadable | app.py:354 | `len(df)` is the number of data rows |
| Frames.AppendKeepsReadable | app.py:369 | appending a header-wide row keeps the sheet readable |
| Ledger.NextId | app.py:354 | the next id is at least 1 |
| Ledger.NextIdOfNumbered | app.py:354 | on a ledger numbered 1..n the next id is n + 1 |
| Ledger.AppendKeepsNumbered | app.py:354-369 | appending a twelve-cell row with the next id keeps ids equal to data-row numbers |
| Ledger.ApprovalRow | app.py:550 | the target row is `int(id) + 1`, or nothing exactly when the id is not integer text |
| Ledger.ApprovalRowOfNumbered | app.py:546-566 | in a numbered ledger, the id the table shows for data row i targets that same row |
| Ledger.DecisionWrites | app.py:393-421 | 2 to 4 writes |
| Ledger.DecisionColumns | app.py:393-421 | the writes always touch H and K, touch J iff an approver is given and L iff comments are given, and touch nothing else |
| Ledger.DecisionColumnsDistinct | app.py:393-421 | no column is written twice |
| Ledger.DecisionRecorded | app.py:390-423 | a fully successful decision leaves the status, the date, and the approver and comments when given in the row; every other row is unchanged |
| Ledger.DecisionTouchesOnlyItsRow | app.py:390-426 | whatever writes fail, only H/J/K/L of the target row can change |
| Text.FloatText | app.py:363 | `str(float(n))` of a whole amount ends in `.0` |
| Text.FloatTextIsDecimal | app.py:363 | that text is accepted by `float()` |
| Ledger.UpdateExpenseStatus | app.py:390-426 | the decision writes run one by one with failures ignored, and the answer is always True |
| Ledger.Decide | app.py:546-566 | the approve/reject buttons answer False and write nothing exactly when the id is not an integer; otherwise they write the decision to row id + 1 |
| Ledger.DecisionOnShownEntry | app.py:546-566 | in a numbered ledger, deciding on the entry shown for data row i records the decision in that row only |
| DraftManager.CellAt | dev_app_simple.py:37 | the cell, or `None` exactly past the row's end |
| DraftManager.KeyOf | dev_app_simple.py:91-93 | the key holds the teacher, the month, and the year text that parses back to the year |
| DraftManager.AnyNumericAmountPasses | dev_app_simple.py:119-138 | validation checks only the amount's form: zero and negative amounts pass |
| DraftManager.ValidationRejects | dev_app_simple.py:119-138 | an item is rejected if a field is missing, the date is not a date, the id is not integer text, or the amount is null |
| DraftManager.FindDraftRow | dev_app_simple.py:140-162 | the first row, header included, with at least 3 cells and an exact key, as a 1-based row; `None` iff there is none |
| DraftManager.FirstLoadMatch | dev_app_simple.py:46-50 | the first data row whose stripped key cells equal the key |
| DraftManager.FirstLoadMatchIs | dev_app_simple.py:46-50 | a matching row with no match before it is the one picked |
| DraftManager.LoadFromData | dev_app_simple.py:52-76 | a stored draft comes from a matching row, and all its items carry the six fields |
| DraftManager.LoadDraft | dev_app_simple.py:19-79 | as written: a stored draft needs a data row of all eight columns |
| DraftManager.LoadDraftPadded | dev_app_simple.py:19-79 | corrected loader, which pads short rows: a stored draft needs at least one data row (its round trip with the save is `SaveThenLoad`) |
| DraftManager.LoadersAgreeOnFullWidth | dev_app_simple.py:36-37 | the two loaders agree whenever the eight-column table is accepted |
| DraftManager.DraftValues | dev_app_simple.py:90-98 | a save writes seven values |
| DraftManager.DraftWrites | dev_app_simple.py:104-107 | value k goes to column k |
| DraftManager.CheckAll | dev_app_simple.py:85-88 | `valid` iff every item passes validation |
| DraftManager.SaveDraft | dev_app_simple.py:81-117 | invalid items write nothing; otherwise the key's row is overwritten A–G until a write fails, or the row is appended |
| DraftManager.UpdatedRowHoldsValues | dev_app_simple.py:102-107 | after a full update the row holds the seven values in A–G and keeps H; no other row changes |
| DraftManager.SaveThenLoad | dev_app_simple.py:81-117 | after a successful save, the corrected loader returns the saved items, the status and the save time |
| DraftManager.AppendedDraftLoads | dev_app_simple.py:108-111 | the same for a save that appends |
| DraftManager.UpdatedDraftLoads | dev_app_simple.py:102-107 | the same for a save that updates in place |
| DraftManager.NarrowSheetLoadsAsNew | dev_app_simple.py:36-37 | as written, a sheet whose data rows are all narrower than eight cells always loads a fresh draft |
| DraftManager.FirstSaveIsNotLoaded | dev_app_simple.py:36-37 | the first save into an empty drafts tab is lost by the loader as written and found by the corrected one |
| ExpenseForm.FirstInputError | app.py:337-349 | no error iff the category and vendor are real choices, the amount is positive and the description is non-empty |
| ExpenseForm.InputErrorOrder | dev_app_simple.py:547-561 | the checks run in order and the first failure is the one reported |
| SimpleApp.CurrentOf | dev_app_simple.py:393-403 | the form starts from the loaded draft, or from an empty `new` draft |
| SimpleApp.NewItem | dev_app_simple.py:469-480 | a new item carries all six fields and the id "length + 1" |
| SimpleApp.NewItemValid | dev_app_simple.py:469-480 | an item with a calendar date passes the store's validation |
| SimpleApp.AddKeepsIdsInOrder | dev_app_simple.py:469-482 | without deletions, ids stay 1..n |
| SimpleApp.Without | dev_app_simple.py:567 | the list filter never grows the list |
| SimpleApp.WithoutConcat | dev_app_simple.py:567 | the filter distributes over concatenation |
| SimpleApp.WithoutKeepsExactlyOthers | dev_app_simple.py:567 | the filter keeps exactly the items whose id differs from the target |
| SimpleApp.DeleteThenAddRepeatsId | dev_app_simple.py:469 | deleting an item and then adding one can make two items share an id |
| SimpleApp.SubmissionRow | dev_app_simple.py:590-603 | a twelve-cell ledger row: the local id, the teacher, the item's date, category, vendor, amount as `str()` renders it and description, `pending`, the time, and empty J–L |
| SimpleApp.SubmissionRowOfNewItem | dev_app_simple.py:590-603 | an item added through the form gives the same A–I cells as a one-at-a-time submission, with the amount as `str(float)`, a decimal text |
| SimpleApp.SubmissionRows | dev_app_simple.py:589-607 | one row per item, in order |
| SimpleApp.SubmissionBreaksNumbering | dev_app_simple.py:591 | submitting with local ids breaks the id-to-row relation the approval screen relies on |
| SimpleApp.ScanForId | dev_app_simple.py:961-967 | the first row, header included, whose id cell equals the id; `Missing` when none does; `Crashed` only when an empty row was reached |
| SimpleApp.DecisionNeverRecordedAsWritten | dev_app_simple.py:970-1002 | as written, the answer is False even for an id that is present |
| SimpleApp.UpdateExpenseStatus | dev_app_simple.py:948-1002 | corrected: the found row receives the decision writes; otherwise False and nothing is written |
| SimpleApp.FirstCredentialMatch | dev_app_simple.py:694-697 | the first record whose stripped id and pin match; none before it matches |
| SimpleApp.ValidateCredentials | dev_app_simple.py:684-707 | the first matching users record, or `None` when the table is empty, lacks a column, or has no match |
| SimpleApp.Login | dev_app_simple.py:370-381 | each outcome iff its condition: an empty field; a pin not four long; a pin not all digits; no matching record; signed in with the matching record |
| SimpleApp.ExpenseApp.constructor | dev_app_simple.py:393-403 | the form opens on the month's loaded draft, as a first visit is evidently meant to |
| SimpleApp.InitSlot | dev_app_simple.py:209-210 | the constructor always leaves a `current_draft` entry and keeps an existing one |
| SimpleApp.OpenFormAsWritten | dev_app_simple.py:393-414 | the form page raises iff the session holds `current_draft = None` |
| SimpleApp.OpenForm | dev_app_simple.py:393-414 | the corrected form page always shows a draft: the held one, or else the loaded one |
| SimpleApp.NoDraftIsEverHeld | dev_app_simple.py:209-210 | no page run ever puts a draft into the session slot, so it stays `None` after the first run |
| SimpleApp.FormNeverOpensAsWritten | dev_app_simple.py:393-414 | after any page runs, the form as written raises, and the corrected form shows the loaded draft |
| SimpleApp.ExpenseApp.AddExpense | dev_app_simple.py:463-495 | invalid input changes nothing; otherwise the item joins the session draft and the draft is saved |
| SimpleApp.ExpenseApp.DeleteExpense | dev_app_simple.py:563-578 | the draft keeps exactly the other items and is saved; an item without an id makes the filter raise: False, nothing changes |
| SimpleApp.ExpenseApp.AppendSubmissions | dev_app_simple.py:588-607 | the ledger gains the rows of a prefix of the items, in order, every one of them complete |
| SimpleApp.ExpenseApp.SubmitForApproval | dev_app_simple.py:580-628 | rows are appended in order until one fails; only a full run saves the draft as `submitted`; only a successful save resets the session draft |
| MonthlyApp.Column | dev_app.py:366-367 | a cell is found exactly when the table has the column |
| MonthlyApp.Select | dev_app.py:366-375 | the kept records are records of the table that pass the filter |
| MonthlyApp.SelectComplete | dev_app.py:366-375 | no record that passes the filter is dropped |
| MonthlyApp.SelectConcat | dev_app.py:366-375 | the filter distributes over concatenation |
| MonthlyApp.ExpensesOf | dev_app.py:379 | an empty or missing cell holds no items; any other cell is decoded |
| MonthlyApp.ParseDrafts | dev_app.py:378-381 | one draft per record, or failure iff some cell does not decode |
| MonthlyApp.GetDraftExpenses | dev_app.py:358-385 | the teacher's drafts (for the month and year when both are given), in sheet order, with items decoded; `[]` on any error |
| MonthlyApp.RowVerdict | dev_app.py:399-403 | a row matches iff its month (C), year (D) and teacher (B) match; the short-circuit `and` raises only on a short row it actually indexes |
| MonthlyApp.FindDraftRow | dev_app.py:387-408 | the first matching data row, numbered from 2 |
| MonthlyApp.DraftRow | dev_app.py:329-338 | the eight values A–H of a draft row |
| MonthlyApp.DraftRowMatches | dev_app.py:399-403 | the lookup finds a row this portal wrote |
| MonthlyApp.SingleFormRowIsSkipped | dev_app.py:399-403 | a row in the single-form layout is never taken for a monthly draft |
| MonthlyApp.MonthlyRowIsSkipped | dev_app_simple.py:152-157 | a monthly-layout row is not taken by the single-form lookup |
| MonthlyApp.SaveDraftExpenses | dev_app.py:324-356 | an existing draft keeps its id and creation time and its row is rewritten; otherwise a fresh row is appended |
| MonthlyApp.UpdateRefreshesRow | dev_app.py:342-346 | a fully successful rewrite leaves exactly the new values in the row |
| MonthlyApp.AppendedDraftIsRead | dev_app.py:348-351 | save then read: the appended draft is the one draft read back, with its id, items and times |
| MonthlyApp.AmountText | dev_app.py:424 | a numeric amount renders as `str(float(n))` |
| MonthlyApp.EntryRow | dev_app.py:418-431 | twelve cells: the given id, the teacher, `pending`, the time, `" "` in J–L |
| MonthlyApp.Submitted | dev_app.py:414-436 | the ledger grows by one row per entry and keeps its old rows |
| MonthlyApp.SubmittedIdsAreConsecutive | dev_app.py:414-436 | on a numbered ledger the new entries get consecutive ids and the ledger stays numbered |
| MonthlyApp.SubmittedEntryIsApprovable | dev_app.py:811-826 | each submitted entry's shown id leads the approval buttons back to its own row |
| MonthlyApp.SubmitMonthlyExpenses | dev_app.py:410-446 | entries are appended until one fails or cannot be built; `ok` iff all went in; only then is F of the draft row written as `submitted`, and a failed write there leaves the drafts unchanged |
| PortalApp.ExpenseRow | app.py:356-369 | twelve cells: the id, the form fields, `str(float(amount))`, `pending`, the time, `" "` in J–L |
| PortalApp.SubmitExpense | app.py:337-389 | the first failing check is reported and nothing is written; otherwise exactly the row with the next id is appended, or nothing on failure |
| PortalApp.SubmissionKeepsNumbered | app.py:354-375 | a successful submission keeps the ledger numbered, and the new entry's id leads to its own row |
| PortalApp.PlaceholderIsNotEmpty | app.py:366-368 | a decision without approver or comments leaves `" "` in J and L, which the table does not read as empty |
| Auth.ValidPinIsFourDigits | auth_manager.py:29-33 | a valid PIN is exactly four digits |
| Auth.AfterCheck | auth_manager.py:35-50 | a locked user's list is untouched; a full list whose window has passed is emptied; other users are untouched |
| Auth.Recorded | auth_manager.py:52-57 | the time is appended to the user's list, which is created when missing |
| Auth.UserOf | auth_manager.py:78-85 | a user is built iff the padded row has five cells, with id A and pin C |
| Auth.LookAt | auth_manager.py:74-85 | a row is the user's iff its padded first cell is the id |
| Auth.GetUserData | auth_manager.py:59-94 | a result comes from some data row that is the user's |
| Auth.ScanUsersIsFirstStop | auth_manager.py:73-85 | the scan answers what the first row that stops it gives |
| Auth.GetUserDataIsFirstStop | auth_manager.py:59-94 | conversely, the first data row with the id decides the result, and no such row gives `None` |
| Auth.GetUserDataAsWritten | auth_manager.py:59-94 | the lookup as written: a found user, none, or the handler at :92 raising when the first matching row is too short |
| Auth.LookupAsWrittenAgrees | auth_manager.py:59-94 | when the handler does not raise, the lookup as written agrees with the corrected one; when it does, the corrected one answers `None` |
| Auth.NarrowSheetRaisesAsWritten | auth_manager.py:88-94 | a users tab narrower than five columns with the user's short row raises from the handler; the corrected lookup answers invalid credentials |
| Auth.FirstRowUserFound | auth_manager.py:73-85 | a complete first row with the id is found |
| Auth.AuthStep | auth_manager.py:96-123 | success iff a user is returned; a returned user has the given pin and is active |
| Auth.SignInIff | auth_manager.py:96-124 | a login succeeds iff the id and PIN are well formed, the user is not locked, and the looked-up account is active with that PIN; the attempts are then those the rate-limit check left |
| Auth.FormatFailuresRecordNothing | auth_manager.py:98-102 | format failures answer at once and leave the attempts alone |
| Auth.ChecksPrecedeLookup | auth_manager.py:98-106 | format and lock refusals do not depend on the users sheet |
| Auth.LockedRefusal | auth_manager.py:104-106 | a locked user gets the remaining lockout time and nothing is recorded |
| Auth.FailureRecordsOne | auth_manager.py:108-118 | an unknown user or a wrong PIN records exactly one attempt at `now` |
| Auth.InactiveRecordsNothing | auth_manager.py:113-114 | an inactive account is refused without recording |
| Auth.SuccessKeepsAttempts | auth_manager.py:120-123 | success does not clear the attempt list |
| Auth.AuthenticateKeepsBound | auth_manager.py:44-57 | when attempts change only through `authenticate`, no list exceeds three entries |
| Auth.ThreeFailuresLock | auth_manager.py:42-50 | three failures within 300 s lock out the fourth try |
| Auth.AuthManager.constructor | auth_manager.py:10-21 | no attempts; nobody signed in |
| Auth.AuthManager.CheckRateLimit | auth_manager.py:35-50 | refused iff locked; the attempts become `AfterCheck` |
| Auth.AuthManager.RecordLoginAttempt | auth_manager.py:52-57 | the attempts become `Recorded` |
| Auth.AuthManager.Authenticate | auth_manager.py:96-123 | the outcome and the attempts are `AuthStep`'s; success sets the signed-in flag, the user and the login time, and failure leaves them |
| SessionState.Get | utils.py:20 | `get` of a missing key is `None` |
| SessionState.Session.Put | dashboard_manager.py:104-105 | a key is set and every other key is kept |
| Guards.TimeoutIsStrict | utils.py:10 | a session exactly 1800 s old is live; at 1801 s it has expired |
| Guards.AuthGate | utils.py:15-24 | the page runs iff the session has not expired and is signed in; `Expired` iff the timeout fires |
| Guards.AdminGate | utils.py:26-38 | the page runs iff the sign-in guard passes and the user's role is `admin` |
| Guards.AdminGateRefinesAuthGate | utils.py:26-38 | the admin guard passes only when the sign-in guard does, and refuses in the same way when that one refuses |
| Guards.ExpiryComesFirst | utils.py:15-30 | an expired session is stopped as expired by both guards |
| Guards.WithDashboardDefaults | utils.py:46-55 | exactly the four keys are added where missing, with their defaults; existing values are kept |
| Guards.DashboardDefaultsIdempotent | utils.py:46-55 | initialising twice equals initialising once |
| Guards.WithoutCache | utils.py:57-61 | exactly the keys starting `cache_` are removed; all others are kept with their values |
| Guards.CacheKeysAreCleared | utils.py:57-61 | both memo keys of a month, `cache_…` and `cache_time_…`, are removed |
| Guards.Guarded.CheckSessionTimeout | utils.py:7-13 | an expired session is cleared entirely; otherwise it is unchanged |
| Guards.Guarded.RequireAuth | utils.py:15-24 | the result is `AuthGate`; only expiry changes the session |
| Guards.Guarded.RequireAdmin | utils.py:26-38 | the result is `AdminGate`; only expiry changes the session |
| Guards.Guarded.InitializeDashboardState | utils.py:46-55 | the session becomes `WithDashboardDefaults` |
| Guards.Guarded.ClearMonthCache | utils.py:57-61 | the session becomes `WithoutCache` |
| Dashboard.AvailableYears | dashboard_manager.py:17-20 | five consecutive ascending years, current − 2 to current + 2 |
| Dashboard.AllMonths | dashboard_manager.py:32-37 | keys exactly 1..12, all with the same summary |
| Dashboard.RowEffect | dashboard_manager.py:40-51 | a counted row's month lies in 1..12 |
| Dashboard.Tally | dashboard_manager.py:32-53 | the keys are exactly 1..12 |
| Dashboard.TallyCounts | dashboard_manager.py:40-51 | for each month: the count of matching rows, the count of those with status `draft`, and the status of the last matching row that has one (`no_entries` if none) |
| Dashboard.ShortRowCountsWithoutStatus | dashboard_manager.py:45-49 | a matching row without cell H raises the month's count and changes nothing else |
| Dashboard.ForeignRowIgnored | dashboard_manager.py:42-43 | rows of other years or teachers, and undated rows, do not change the tally |
| Dashboard.GetAllMonthsStatus | dashboard_manager.py:22-62 | a failed read gives `error` for all twelve months; otherwise the result is the tally of the rows |
| Dashboard.ExpensesOf | dashboard_manager.py:142-157 | never more entries than rows |
| Dashboard.ExpensesOfMembership | dashboard_manager.py:142-157 | an entry is listed iff it comes from a row with the 8 cells, a date in the year and month, the teacher, and a numeric amount |
| Dashboard.MonthExpenses | dashboard_manager.py:118-162 | the header is skipped and the matching rows' id and status are kept in order; a failed read gives `[]` |
| Dashboard.PortalExpenseIsListed | dashboard_manager.py:142-157 | a form submission appears as a `pending` entry of its month |
| Dashboard.DraftsOf | dashboard_manager.py:180-205 | every listed draft is the teacher's, in the year, with the month's English name |
| Dashboard.DraftsOfMembership | dashboard_manager.py:180-205 | a draft is listed iff it comes from a row with 5 cells, an integer year equal to the year, the month's name and the teacher |
| Dashboard.MonthDrafts | dashboard_manager.py:164-210 | the header is skipped and rows with 5 cells, an integer year, the month's name and the teacher are kept; a failed read gives `[]` |
| Dashboard.SavedDraftIsListed | dashboard_manager.py:180-205 | a draft the single-form store saves is listed for its month whatever its status, `submitted` included |
| Dashboard.MonthStatus | dashboard_manager.py:85-94 | one of the five statuses |
| Dashboard.MonthStatusCases | dashboard_manager.py:85-94 | `no_entries` iff no entries and no drafts; `draft` iff any draft; `rejected` iff no draft and some rejection; `pending` iff no draft, no rejection and some pending entry; `approved` otherwise |
| Dashboard.Summarize | dashboard_manager.py:80-101 | the counts are the list lengths and the status follows the rule |
| Dashboard.PendingExpenseBlocksApproval | dashboard_manager.py:89-94 | with a fresh form submission and no drafts, a month reads `rejected` or `pending`, never `approved` |
| Dashboard.DataKeyIsNotTimeKey | dashboard_manager.py:69-70 | the two memo keys differ |
| Dashboard.RememberedResultIsServed | dashboard_manager.py:72-75 | a stored result is served unchanged within 300 s, and not after |
| Dashboard.ClearedCacheMisses | dashboard_manager.py:69-75 | after clearing, every memo lookup misses |
| Dashboard.GetMonthStatus | dashboard_manager.py:64-116 | a fresh memo is returned and nothing changes; a memo time that is not a number gives `error`; otherwise the summary is computed and stored with `now` |

## Left out

- **Not modelled:**
  - the spreadsheet service, credentials and `st.cache_data` caching of reads;
  - Streamlit rendering, messages and `st.stop`/`st.rerun` (a stopped page is an outcome value);
  - the analytics, history and table views;
  - `main.py`, `dashboard_ui.py`, `custom_styles.py` and `test_secrets.py`.
- **Whole numbers stand in for floats.** Amounts are whole numbers and times are whole seconds. `total_amount` sums are not modelled.
  - `Text.FloatText`: renders only whole amounts below 10^16; Python switches to exponent form (`1e+16`) from there and loses exactness above 2^53. The single-form portal stores amounts as floats; the model's `Codec.JFloat` holds a float with a whole value.
  - `MonthlyApp.AmountText`: does not normalise decimal strings as `float()` would.
- **Stricter parsers.** `strptime('%Y-%m-%d')` is a strict `YYYY-MM-DD` predicate. `float()` accepts plain decimal text only (no exponents, `inf` or `nan`). `int()` accepts an optional sign and digits, without surrounding blanks or underscores. `isalnum`/`isdigit`/`upper` are ASCII-only.
- **JSON.** The `json` text form is a private encoding with the same round-trip property. Items carry only the six fields the code reads.
- **Session guards.**
  - `Guards.TimedOut`: a `login_time` that is not a time never expires (Python would raise); the code only ever stores a time there.
  - `Guards.Guarded.CheckSessionTimeout`: `logout` deleting keys while iterating over them is taken to clear the whole session.
- **Constructors outside the model.**
  - `app.py` `ExpenseApp.__init__` calls `_initialize_google_sheets` at app.py:29, but the class defines only `_initialize_google_services` (app.py:66). Construction as written raises. The model starts from constructed sheets.
  - `dev_app.py` form items have no `category` key. `submit_monthly_expenses` then raises `KeyError`, so such an entry "cannot be built". This shows up in `MonthlyApp.SubmitMonthlyExpenses` as an early False.
- **Failed lookups before a save.**
  - `DraftManager.SaveDraft`: the row lookup is taken to read the drafts tab successfully. In the source a failed read makes the lookup answer `None` (dev_app_simple.py:160-162), and the save then appends a second row for the same key.
  - `MonthlyApp.SaveDraftExpenses`: the lookup read is taken to succeed. In the source a failed read gives an empty table (dev_app.py:138-140), and the save then appends a new row instead of rewriting the existing one.
- **The first visit.**
  - `SimpleApp.ExpenseApp.constructor`: states the evidently intended first visit, with the padded loader of `DraftManager.SaveThenLoad`. As written, `__init__` sets `current_draft` to `None`, so the form never loads a draft and raises (see Findings).
- **Dashboard memo.** The memo keeps only the summary value. `Dashboard.GetMonthStatus` does not model the exception handler around the reads beyond the `None` read.
- **Two draft layouts.** The dashboard reads drafts in the single-form layout (teacher in A, month in B, year in C). It never finds drafts the monthly portal writes (draft id in A), which `MonthlyApp.SingleFormRowIsSkipped` reflects from the other side.
- **Submitted drafts still count.** A draft saved as `submitted` still counts as a draft on the dashboard (`Dashboard.SavedDraftIsListed`). The source filters drafts by key only.
- **Concurrency.** Concurrent sessions are out of scope, and so are races on the "record count + 1" ids.

## Findings

| source | as written | input that shows it | evidently intended | confidence | as-written member | corrected member |
|---|---|---|---|---|---|---|
| dev_app_simple.py:36-37 | `load_draft` builds the table with eight named columns, but `save_draft` writes rows of seven cells (A–G). A table whose widest data row is not eight cells wide raises, and the loader falls back to a fresh draft. | A drafts tab holding only its header, after one successful `save_draft`: the next `load_draft` of the same key returns a fresh draft | Short rows are padded with missing cells, and the saved draft is loaded | high (not executed) | DraftManager.FirstSaveIsNotLoaded | DraftManager.SaveThenLoad |
| dev_app_simple.py:970-997 | `update_expense_status` calls `self.update_sheet_cell`, which this `ExpenseApp` does not define. The raised error is caught and the call answers False without writing. | A ledger whose row 2 has id `1`, decided with expense id 1: the answer is False and H/J/K/L are unchanged | The found row receives the status, approver, date and comments writes | high (not executed) | SimpleApp.DecisionNeverRecordedAsWritten | SimpleApp.UpdateExpenseStatus |
| dev_app_simple.py:393-414 | `__init__` stores `current_draft = None` (:209-210), so the form's `'current_draft' not in st.session_state` test is never true, and `.get('status')` on `None` (:414) raises. `run()` catches the error. | Any session that has signed in and opens the expense form: the page shows an error and no draft | The form loads the month's draft on the first visit and shows it | high (not executed) | SimpleApp.FormNeverOpensAsWritten | SimpleApp.OpenForm |
| auth_manager.py:88-94 | The handler of `get_user_data` reads `self.sheets_service._credentials.service_account_email`, an attribute the service object does not offer. The handler itself raises, and `authenticate` raises instead of answering. | A users tab with a four-column header and a row whose first cell is the id: `row_data[4]` raises `IndexError`, then the handler raises `AttributeError` | The handler reports the error and the lookup answers `None`, so the sign-in is refused | medium (not executed) | Auth.NarrowSheetRaisesAsWritten | Auth.GetUserData |
