/**
 * The month overview behind the dashboard (`DashboardManager` in
 * `dashboard_manager.py`): the selectable years, the twelve-month tally of
 * the ledger, the entries and drafts of one month, the status rule that
 * turns them into one word, and the five-minute memo of that result kept
 * in the session. The sheet reads are parameters: `None` stands for a read
 * that raised, `Some(rows)` for the rows it returned (no rows when the
 * response carried no `values`).
 */
module Dashboard {
  import opened Text
  import opened Sheets
  import opened SessionState
  import Codec
  import Ledger
  import PortalApp
  import DraftManager
  import Guards

  /** `get_available_years`: the five years around the current one, ascending. */
  function AvailableYears(current: int): (r: seq<int>)
    ensures |r| == 5 && r[2] == current
    ensures forall i :: 0 < i < |r| ==> r[i] == r[i - 1] + 1
    ensures forall y :: y in r <==> current - 2 <= y <= current + 2
  {
    [current - 2, current - 1, current, current + 1, current + 2]
  }

  predicate IsMonth(m: int) { 1 <= m <= 12 }

  const NoEntries: MonthSummary := MonthSummary("no_entries", 0, 0)
  const ErrorSummary: MonthSummary := MonthSummary("error", 0, 0)

  /** The same summary for each of the twelve months. */
  function AllMonths(s: MonthSummary): (r: map<int, MonthSummary>)
    ensures forall m :: m in r <==> IsMonth(m)
    ensures forall m :: m in r ==> r[m] == s
  {
    map[1 := s, 2 := s, 3 := s, 4 := s, 5 := s, 6 := s, 7 := s, 8 := s, 9 := s, 10 := s, 11 := s, 12 := s]
  }

  // ----- the twelve-month tally (`get_all_months_status`) -----

  /**
   * What one ledger row does to the tally. The row is skipped when its date
   * is missing or does not parse, when the year or teacher differ, or when
   * the amount in F is missing or not a number (all before any count
   * moves). A matching row without a status cell H has already raised the
   * entry count when the lookup of H fails, so it is counted but leaves the
   * status and the draft count alone.
   */
  datatype Effect = Skipped | CountedOnly(month: int) | Counted(month: int, status: string)

  function RowEffect(row: Row, year: int, teacher: string): (e: Effect)
    ensures !e.Skipped? ==> IsMonth(e.month)
  {
    if |row| < 3 || !IsIsoDate(row[2]) then Skipped
    else if DateYear(row[2]) != year || row[1] != teacher then Skipped
    else if |row| < 6 || !IsDecimalText(row[5]) then Skipped
    else if |row| < 8 then CountedOnly(DateMonth(row[2]))
    else Counted(DateMonth(row[2]), row[7])
  }

  /** The row's effect concerns month `m`. */
  predicate Concerns(e: Effect, m: int) { !e.Skipped? && e.month == m }

  function Bump(s: MonthSummary, e: Effect): MonthSummary
    requires !e.Skipped?
  {
    match e
    case CountedOnly(_) => s.(entryCount := s.entryCount + 1)
    case Counted(_, status) =>
      MonthSummary(status, s.entryCount + 1, s.draftCount + if status == "draft" then 1 else 0)
  }

  /** The tally after the rows, in order, starting from twelve empty months. */
  function Tally(rows: seq<Row>, year: int, teacher: string): (r: map<int, MonthSummary>)
    ensures forall m :: m in r <==> IsMonth(m)
    decreases |rows|
  {
    if rows == [] then AllMonths(NoEntries)
    else
      var before := Tally(rows[..|rows| - 1], year, teacher);
      var e := RowEffect(rows[|rows| - 1], year, teacher);
      if e.Skipped? then before else before[e.month := Bump(before[e.month], e)]
  }

  /** The number of rows counted for month `m`. */
  function EntryCount(rows: seq<Row>, year: int, teacher: string, m: int): nat {
    if rows == [] then 0
    else (if Concerns(RowEffect(rows[0], year, teacher), m) then 1 else 0) + EntryCount(rows[1..], year, teacher, m)
  }

  /** The number of rows counted for month `m` with the status `draft`. */
  function DraftCount(rows: seq<Row>, year: int, teacher: string, m: int): nat {
    if rows == [] then 0
    else (if RowEffect(rows[0], year, teacher) == Counted(m, "draft") then 1 else 0)
         + DraftCount(rows[1..], year, teacher, m)
  }

  /** The status of the last row counted with a status for month `m`, if any. */
  function LastStatus(rows: seq<Row>, year: int, teacher: string, m: int): Option<string> {
    if rows == [] then None
    else
      var later := LastStatus(rows[1..], year, teacher, m);
      var e := RowEffect(rows[0], year, teacher);
      if later.Some? then later
      else if e.Counted? && e.month == m then Some(e.status)
      else None
  }

  lemma {:induction false} EntryCountSnoc(rows: seq<Row>, row: Row, year: int, teacher: string, m: int)
    ensures EntryCount(rows + [row], year, teacher, m)
            == EntryCount(rows, year, teacher, m) + if Concerns(RowEffect(row, year, teacher), m) then 1 else 0
  {
    if rows != [] {
      assert (rows + [row])[1..] == rows[1..] + [row];
      EntryCountSnoc(rows[1..], row, year, teacher, m);
    }
  }

  lemma {:induction false} DraftCountSnoc(rows: seq<Row>, row: Row, year: int, teacher: string, m: int)
    ensures DraftCount(rows + [row], year, teacher, m)
            == DraftCount(rows, year, teacher, m) + if RowEffect(row, year, teacher) == Counted(m, "draft") then 1 else 0
  {
    if rows != [] {
      assert (rows + [row])[1..] == rows[1..] + [row];
      DraftCountSnoc(rows[1..], row, year, teacher, m);
    }
  }

  lemma {:induction false} LastStatusSnoc(rows: seq<Row>, row: Row, year: int, teacher: string, m: int)
    ensures var e := RowEffect(row, year, teacher);
            LastStatus(rows + [row], year, teacher, m)
            == if e.Counted? && e.month == m then Some(e.status) else LastStatus(rows, year, teacher, m)
  {
    if rows != [] {
      assert (rows + [row])[1..] == rows[1..] + [row];
      LastStatusSnoc(rows[1..], row, year, teacher, m);
    }
  }

  /**
   * Each month of the tally holds: the status of the last matching row that
   * has one (`no_entries` if none), the number of matching rows, and the
   * number of those whose status is `draft`.
   */
  lemma {:induction false} TallyCounts(rows: seq<Row>, year: int, teacher: string, m: int)
    requires IsMonth(m)
    ensures var s := Tally(rows, year, teacher)[m];
            && s.entryCount == EntryCount(rows, year, teacher, m)
            && s.draftCount == DraftCount(rows, year, teacher, m)
            && s.status == match LastStatus(rows, year, teacher, m) case Some(st) => st case None => "no_entries"
    decreases |rows|
  {
    if rows != [] {
      var init := rows[..|rows| - 1];
      var row := rows[|rows| - 1];
      assert rows == init + [row];
      TallyCounts(init, year, teacher, m);
      EntryCountSnoc(init, row, year, teacher, m);
      DraftCountSnoc(init, row, year, teacher, m);
      LastStatusSnoc(init, row, year, teacher, m);
    }
  }

  /**
   * A matching row that stops short of the status column raises the entry
   * count of its month and nothing else: the status stays the previous one.
   */
  lemma ShortRowCountsWithoutStatus(rows: seq<Row>, row: Row, year: int, teacher: string)
    requires 6 <= |row| < 8 && IsIsoDate(row[2]) && DateYear(row[2]) == year && row[1] == teacher
    requires IsDecimalText(row[5])
    ensures var m := DateMonth(row[2]);
            var before := Tally(rows, year, teacher)[m];
            Tally(rows + [row], year, teacher)[m] == before.(entryCount := before.entryCount + 1)
  {
    var all := rows + [row];
    assert all[..|all| - 1] == rows;
  }

  /** Rows of other teachers or years never change the tally. */
  lemma ForeignRowIgnored(rows: seq<Row>, row: Row, year: int, teacher: string)
    requires |row| < 3 || !IsIsoDate(row[2]) || DateYear(row[2]) != year || row[1] != teacher
    ensures Tally(rows + [row], year, teacher) == Tally(rows, year, teacher)
  {
    var all := rows + [row];
    assert all[..|all| - 1] == rows;
  }

  /**
   * `get_all_months_status`: the rows from the second on are tallied one by
   * one; a read that raised gives `error` for every month.
   */
  method GetAllMonthsStatus(read: Option<seq<Row>>, year: int, teacher: string)
    returns (months: map<int, MonthSummary>)
    ensures forall m :: m in months <==> IsMonth(m)
    ensures read.None? ==> months == AllMonths(ErrorSummary)
    ensures read.Some? ==> months == Tally(read.value, year, teacher)
  {
    if read.None? {
      return AllMonths(ErrorSummary);
    }
    var rows := read.value;
    months := AllMonths(NoEntries);
    var i := 0;
    while i < |rows|
      invariant 0 <= i <= |rows|
      invariant months == Tally(rows[..i], year, teacher)
    {
      var e := RowEffect(rows[i], year, teacher);
      if !e.Skipped? {
        months := months[e.month := Bump(months[e.month], e)];
      }
      assert rows[..i + 1][..i] == rows[..i];
      i := i + 1;
    }
    assert rows[..i] == rows;
  }

  // ----- one month's entries (`_get_month_expenses`) -----

  datatype Entry = Entry(id: string, status: string)

  /**
   * A ledger row is one of the month's entries: it has the eight cells up to
   * the status, its date parses and falls in the year and month, the teacher
   * matches, and the amount is a number.
   */
  predicate ExpenseMatches(row: Row, year: int, month: int, teacher: string) {
    && |row| >= 8 && IsIsoDate(row[2])
    && DateYear(row[2]) == year && DateMonth(row[2]) == month && row[1] == teacher
    && IsDecimalText(row[5])
  }

  function EntryOf(row: Row): Entry
    requires |row| >= 8
  {
    Entry(row[0], row[7])
  }

  /** The entries of the matching rows, in sheet order. */
  function ExpensesOf(rows: seq<Row>, year: int, month: int, teacher: string): (r: seq<Entry>)
    ensures |r| <= |rows|
    decreases |rows|
  {
    if rows == [] then []
    else
      var before := ExpensesOf(rows[..|rows| - 1], year, month, teacher);
      var row := rows[|rows| - 1];
      if ExpenseMatches(row, year, month, teacher) then before + [EntryOf(row)] else before
  }

  /** What the month's expenses are for a read of the whole ledger: the header is skipped. */
  function ExpensesRead(read: Option<seq<Row>>, year: int, month: int, teacher: string): seq<Entry> {
    if read.None? || |read.value| == 0 then [] else ExpensesOf(read.value[1..], year, month, teacher)
  }

  /** Every entry comes from a matching row, and every matching row gives one. */
  lemma {:induction false} ExpensesOfMembership(rows: seq<Row>, year: int, month: int, teacher: string, e: Entry)
    ensures e in ExpensesOf(rows, year, month, teacher)
            <==> exists i :: 0 <= i < |rows| && ExpenseMatches(rows[i], year, month, teacher) && e == EntryOf(rows[i])
    decreases |rows|
  {
    if rows != [] {
      var init := rows[..|rows| - 1];
      ExpensesOfMembership(init, year, month, teacher, e);
      if e in ExpensesOf(rows, year, month, teacher) {
        if e in ExpensesOf(init, year, month, teacher) {
          var i :| 0 <= i < |init| && ExpenseMatches(init[i], year, month, teacher) && e == EntryOf(init[i]);
          assert rows[i] == init[i];
        } else {
          assert ExpenseMatches(rows[|rows| - 1], year, month, teacher) && e == EntryOf(rows[|rows| - 1]);
        }
      } else {
        forall i | 0 <= i < |rows| && ExpenseMatches(rows[i], year, month, teacher)
          ensures e != EntryOf(rows[i])
        {
          if i < |init| {
            assert rows[i] == init[i];
          }
        }
      }
    }
  }

  /** `_get_month_expenses`: skips the header, then keeps the matching rows' id and status. */
  method MonthExpenses(read: Option<seq<Row>>, year: int, month: int, teacher: string) returns (entries: seq<Entry>)
    ensures entries == ExpensesRead(read, year, month, teacher)
  {
    if read.None? || |read.value| == 0 {
      return [];
    }
    var rows := read.value[1..];
    entries := [];
    var i := 0;
    while i < |rows|
      invariant 0 <= i <= |rows|
      invariant entries == ExpensesOf(rows[..i], year, month, teacher)
    {
      var row := rows[i];
      if ExpenseMatches(row, year, month, teacher) {
        entries := entries + [EntryOf(row)];
      }
      assert rows[..i + 1][..i] == rows[..i];
      i := i + 1;
    }
    assert rows[..i] == rows;
  }

  /**
   * An expense the one-at-a-time portal appends with a valid date shows up
   * as a `pending` entry of its own month, after the entries already there.
   */
  lemma PortalExpenseIsListed(rows: seq<Row>, id: nat, teacher: string, date: string, category: string,
                              vendor: string, amount: int, description: string, stamp: string)
    requires IsIsoDate(date)
    ensures ExpensesOf(rows + [PortalApp.ExpenseRow(id, teacher, date, category, vendor, amount, description, stamp)],
                       DateYear(date), DateMonth(date), teacher)
            == ExpensesOf(rows, DateYear(date), DateMonth(date), teacher) + [Entry(IntToString(id), "pending")]
  {
    var row := PortalApp.ExpenseRow(id, teacher, date, category, vendor, amount, description, stamp);
    var all := rows + [row];
    assert all[..|all| - 1] == rows;
    FloatTextIsDecimal(amount);
    assert ExpenseMatches(row, DateYear(date), DateMonth(date), teacher);
  }

  // ----- one month's drafts (`_get_month_drafts`) -----

  datatype DraftEntry = DraftEntry(teacher: string, month: string, year: int, expenses: string, status: string)

  /**
   * A drafts row belongs to the month: it has the five cells up to the
   * status, its C is an integer equal to the year, its B is the English
   * name of the month (a month outside 1 to 12 names none) and its A is the
   * teacher. The status is not consulted.
   */
  predicate DraftMatches(row: Row, year: int, month: int, teacher: string) {
    |row| >= 5 && ParseInt(row[2]) == Some(year) && IsMonth(month) && row[1] == MonthName(month) && row[0] == teacher
  }

  function DraftEntryOf(row: Row, year: int): DraftEntry
    requires |row| >= 5
  {
    DraftEntry(row[0], row[1], year, row[3], row[4])
  }

  function DraftsOf(rows: seq<Row>, year: int, month: int, teacher: string): (r: seq<DraftEntry>)
    ensures |r| <= |rows|
    ensures forall d :: d in r ==> d.teacher == teacher && d.year == year && IsMonth(month) && d.month == MonthName(month)
    decreases |rows|
  {
    if rows == [] then []
    else
      var before := DraftsOf(rows[..|rows| - 1], year, month, teacher);
      var row := rows[|rows| - 1];
      if DraftMatches(row, year, month, teacher) then before + [DraftEntryOf(row, year)] else before
  }

  /** Every listed draft comes from a matching row, and every matching row gives one. */
  lemma {:induction false} DraftsOfMembership(rows: seq<Row>, year: int, month: int, teacher: string, d: DraftEntry)
    ensures d in DraftsOf(rows, year, month, teacher)
            <==> exists i :: 0 <= i < |rows| && DraftMatches(rows[i], year, month, teacher) && d == DraftEntryOf(rows[i], year)
    decreases |rows|
  {
    if rows != [] {
      var init := rows[..|rows| - 1];
      DraftsOfMembership(init, year, month, teacher, d);
      if d in DraftsOf(rows, year, month, teacher) {
        if d in DraftsOf(init, year, month, teacher) {
          var i :| 0 <= i < |init| && DraftMatches(init[i], year, month, teacher) && d == DraftEntryOf(init[i], year);
          assert rows[i] == init[i];
        } else {
          assert DraftMatches(rows[|rows| - 1], year, month, teacher) && d == DraftEntryOf(rows[|rows| - 1], year);
        }
      } else {
        forall i | 0 <= i < |rows| && DraftMatches(rows[i], year, month, teacher)
          ensures d != DraftEntryOf(rows[i], year)
        {
          if i < |init| {
            assert rows[i] == init[i];
          }
        }
      }
    }
  }

  function DraftsRead(read: Option<seq<Row>>, year: int, month: int, teacher: string): seq<DraftEntry> {
    if read.None? || |read.value| == 0 then [] else DraftsOf(read.value[1..], year, month, teacher)
  }

  /** `_get_month_drafts`: skips the header, then keeps the rows of the teacher's month. */
  method MonthDrafts(read: Option<seq<Row>>, year: int, month: int, teacher: string) returns (drafts: seq<DraftEntry>)
    ensures drafts == DraftsRead(read, year, month, teacher)
  {
    if read.None? || |read.value| == 0 {
      return [];
    }
    var rows := read.value[1..];
    drafts := [];
    var i := 0;
    while i < |rows|
      invariant 0 <= i <= |rows|
      invariant drafts == DraftsOf(rows[..i], year, month, teacher)
    {
      var row := rows[i];
      if |row| >= 5 {
        var rowYear := ParseInt(row[2]);
        if rowYear.Some? && rowYear.value == year && IsMonth(month) && row[1] == MonthName(month) && row[0] == teacher {
          drafts := drafts + [DraftEntryOf(row, year)];
        }
      }
      assert rows[..i + 1][..i] == rows[..i];
      i := i + 1;
    }
    assert rows[..i] == rows;
  }

  /**
   * A draft the single-form portal stores under the teacher, the month's
   * name and the year is listed for that month, whatever its status:
   * a draft saved as `submitted` is still a draft here.
   */
  lemma SavedDraftIsListed(rows: seq<Row>, teacher: string, month: int, year: int,
                           items: seq<Codec.Item>, status: string, stamp: string)
    requires IsMonth(month)
    ensures var vs := DraftManager.DraftValues(DraftManager.KeyOf(teacher, MonthName(month), year), items, status, stamp);
            DraftsOf(rows + [vs], year, month, teacher)
            == DraftsOf(rows, year, month, teacher) + [DraftEntry(teacher, MonthName(month), year, Codec.Encode(items), status)]
  {
    var vs := DraftManager.DraftValues(DraftManager.KeyOf(teacher, MonthName(month), year), items, status, stamp);
    var all := rows + [vs];
    assert all[..|all| - 1] == rows;
    assert DraftMatches(vs, year, month, teacher);
  }

  // ----- the month's status (`get_month_status`) -----

  predicate AnyStatus(entries: seq<Entry>, status: string) {
    exists i :: 0 <= i < |entries| && entries[i].status == status
  }

  /** No entries and no drafts; else a draft; else a rejection; else a pending entry; else approved. */
  function MonthStatus(entries: seq<Entry>, draftCount: nat): (s: string)
    ensures s in {"no_entries", "draft", "rejected", "pending", "approved"}
  {
    if |entries| == 0 && draftCount == 0 then "no_entries"
    else if draftCount > 0 then "draft"
    else if AnyStatus(entries, "rejected") then "rejected"
    else if AnyStatus(entries, "pending") then "pending"
    else "approved"
  }

  /** Each outcome of the rule, stated as exactly when it is given. */
  lemma MonthStatusCases(entries: seq<Entry>, draftCount: nat)
    ensures MonthStatus(entries, draftCount) == "no_entries" <==> |entries| == 0 && draftCount == 0
    ensures MonthStatus(entries, draftCount) == "draft" <==> draftCount > 0
    ensures MonthStatus(entries, draftCount) == "rejected" <==> draftCount == 0 && AnyStatus(entries, "rejected")
    ensures MonthStatus(entries, draftCount) == "pending"
            <==> draftCount == 0 && !AnyStatus(entries, "rejected") && AnyStatus(entries, "pending")
    ensures MonthStatus(entries, draftCount) == "approved"
            <==> |entries| > 0 && draftCount == 0 && !AnyStatus(entries, "rejected") && !AnyStatus(entries, "pending")
  {
  }

  function Summarize(entries: seq<Entry>, drafts: seq<DraftEntry>): (s: MonthSummary)
    ensures s.entryCount == |entries| && s.draftCount == |drafts|
    ensures s.status == MonthStatus(entries, |drafts|)
  {
    MonthSummary(MonthStatus(entries, |drafts|), |entries|, |drafts|)
  }

  /**
   * A month with a pending portal expense and no drafts or rejections reads
   * `pending`: the appended entry keeps it from reading `approved`.
   */
  lemma PendingExpenseBlocksApproval(rows: seq<Row>, id: nat, teacher: string, date: string, category: string,
                                     vendor: string, amount: int, description: string, stamp: string)
    requires IsIsoDate(date)
    ensures var entries := ExpensesOf(rows + [PortalApp.ExpenseRow(id, teacher, date, category, vendor, amount,
                                                                   description, stamp)],
                                      DateYear(date), DateMonth(date), teacher);
            MonthStatus(entries, 0) in {"rejected", "pending"}
  {
    PortalExpenseIsListed(rows, id, teacher, date, category, vendor, amount, description, stamp);
    var entries := ExpensesOf(rows + [PortalApp.ExpenseRow(id, teacher, date, category, vendor, amount,
                                                           description, stamp)],
                              DateYear(date), DateMonth(date), teacher);
    assert entries[|entries| - 1].status == "pending";
  }

  // ----- the five-minute memo -----

  const CacheLifetime: int := 300

  /** The key of a month's memo: year, month and teacher joined by underscores. */
  function CacheKey(year: int, month: int, teacher: string): string {
    IntToString(year) + "_" + IntToString(month) + "_" + teacher
  }

  /** A session value used as a number (`True` is 1); texts and dicts are not numbers. */
  function Numeric(v: Value): Option<int> {
    match v
    case Flag(b) => Some(if b then 1 else 0)
    case Time(t) => Some(t)
    case Number(n) => Some(n)
    case _ => None
  }

  /**
   * The memo for a key at time `now`: both entries present and truthy and
   * the time less than 300 seconds old gives the stored value; a time that
   * is not a number makes the subtraction raise; anything else is a miss.
   */
  datatype Lookup = Hit(v: Value) | Broken | Miss

  function CacheLookup(entries: map<string, Value>, key: string, now: int): Lookup {
    var data := Get(entries, "cache_" + key);
    var time := Get(entries, "cache_time_" + key);
    if !Truthy(data) || !Truthy(time) then Miss
    else match Numeric(time)
      case None => Broken
      case Some(t) => if now - t < CacheLifetime then Hit(data) else Miss
  }

  /** The session after a result is stored for `key` at time `now`. */
  function Remember(entries: map<string, Value>, key: string, result: MonthSummary, now: int): map<string, Value> {
    entries["cache_" + key := Summary(result)]["cache_time_" + key := Time(now)]
  }

  lemma DataKeyIsNotTimeKey(key: string)
    ensures "cache_" + key != "cache_time_" + key
  {
    assert |"cache_" + key| != |"cache_time_" + key|;
  }

  /**
   * A stored result is served unchanged by any later call within 300
   * seconds (the clock must not read 0, the one falsy time), and no longer.
   */
  lemma RememberedResultIsServed(entries: map<string, Value>, key: string, result: MonthSummary, now: int, later: int)
    requires now != 0
    ensures later - now < CacheLifetime ==> CacheLookup(Remember(entries, key, result, now), key, later) == Hit(Summary(result))
    ensures later - now >= CacheLifetime ==> CacheLookup(Remember(entries, key, result, now), key, later) == Miss
  {
    DataKeyIsNotTimeKey(key);
    var e := Remember(entries, key, result, now);
    assert Get(e, "cache_" + key) == Summary(result);
    assert Get(e, "cache_time_" + key) == Time(now);
  }

  /** After `clear_month_cache` every month's memo misses. */
  lemma ClearedCacheMisses(entries: map<string, Value>, key: string, now: int)
    ensures CacheLookup(Guards.WithoutCache(entries), key, now) == Miss
  {
    Guards.CacheKeysAreCleared(entries, key);
  }

  /**
   * `get_month_status`: the memo is served when fresh; a broken memo gives
   * `error` and writes nothing; otherwise the entries and drafts are read,
   * summarised, and the summary stored with the time of the call.
   */
  method GetMonthStatus(session: Session, year: int, month: int, teacher: string, now: int,
                        expenseRead: Option<seq<Row>>, draftRead: Option<seq<Row>>)
    returns (r: Value)
    modifies session
    ensures var key := CacheKey(year, month, teacher);
            match CacheLookup(old(session.entries), key, now)
            case Hit(v) => r == v && session.entries == old(session.entries)
            case Broken => r == Summary(ErrorSummary) && session.entries == old(session.entries)
            case Miss =>
              var s := Summarize(ExpensesRead(expenseRead, year, month, teacher), DraftsRead(draftRead, year, month, teacher));
              r == Summary(s) && session.entries == Remember(old(session.entries), key, s, now)
  {
    var key := CacheKey(year, month, teacher);
    var lookup := CacheLookup(session.entries, key, now);
    if lookup.Hit? {
      return lookup.v;
    }
    if lookup.Broken? {
      return Summary(ErrorSummary);
    }
    var entries := MonthExpenses(expenseRead, year, month, teacher);
    var drafts := MonthDrafts(draftRead, year, month, teacher);
    var s := Summarize(entries, drafts);
    r := Summary(s);
    session.Put("cache_" + key, r);
    session.Put("cache_time_" + key, Time(now));
  }
}
