/**
 * The authentication manager (`auth_manager.py`): format checks on the
 * teacher id and the PIN, a per-user list of failed-attempt times that locks
 * a user out for 300 seconds after three failures, a lookup of the user's
 * row in the users sheet (columns A to E), and the order `authenticate`
 * applies all of these in. Times are whole seconds.
 */
module Auth {
  import opened Text
  import opened Sheets

  const MaxAttempts: nat := 3
  const LockoutDuration: int := 300

  /** `validate_teacher_id`: non-empty, at least four characters, letters and digits only. */
  predicate ValidTeacherId(id: string) {
    id != "" && |id| >= 4 && AllAlnum(id)
  }

  /** `validate_pin`: exactly four digits. */
  predicate ValidPin(pin: string) {
    pin != "" && |pin| == 4 && AllDigits(pin)
  }

  lemma ValidPinIsFourDigits(pin: string)
    ensures ValidPin(pin) <==> |pin| == 4 && forall i :: 0 <= i < 4 ==> IsDigit(pin[i])
  {
  }

  // ----- the rate limiter -----

  /** Failed-attempt times per teacher id (`st.session_state.login_attempts`). */
  type Attempts = map<string, seq<int>>

  /** The user has three recorded attempts and the oldest is less than 300 seconds old. */
  predicate IsLocked(a: Attempts, id: string, now: int) {
    id in a && |a[id]| >= MaxAttempts && now - a[id][0] < LockoutDuration
  }

  /** The attempts after `check_rate_limit`: a full list whose window has passed is emptied. */
  function AfterCheck(a: Attempts, id: string, now: int): (r: Attempts)
    ensures IsLocked(a, id, now) ==> r == a
    ensures r.Keys == a.Keys
    ensures forall k :: k in a && k != id ==> r[k] == a[k]
    ensures id in a && |a[id]| < MaxAttempts ==> r[id] == a[id]
    ensures id in a && |a[id]| >= MaxAttempts && !IsLocked(a, id, now) ==> r[id] == []
  {
    if id in a && |a[id]| >= MaxAttempts && !IsLocked(a, id, now) then a[id := []] else a
  }

  /** The attempts after `record_login_attempt`: `now` appended to the user's list. */
  function Recorded(a: Attempts, id: string, now: int): (r: Attempts)
    ensures r.Keys == a.Keys + {id}
    ensures forall k :: k in a && k != id ==> r[k] == a[k]
    ensures r[id] == (if id in a then a[id] else []) + [now]
  {
    a[id := (if id in a then a[id] else []) + [now]]
  }

  // ----- looking the user up -----

  datatype User = User(teacherId: string, name: string, pin: string, role: string, isActive: bool)

  /** The user a padded users-sheet row describes; `None` when a row shorter than five cells makes the lookup raise. */
  function UserOf(padded: Row): (u: Option<User>)
    ensures u.Some? <==> |padded| >= 5
    ensures u.Some? ==> u.value.teacherId == padded[0] && u.value.pin == padded[2]
                        && (u.value.isActive <==> Upper(padded[4]) == "TRUE")
  {
    if |padded| < 5 then None
    else Some(User(padded[0], padded[1], padded[2], padded[3], Upper(padded[4]) == "TRUE"))
  }

  /** What the scan of `get_user_data` does with one data row. */
  datatype Step = Next | Stop(result: Option<User>)

  /** A row, padded with empty cells to the header's width, is the user's when its first cell is the id. */
  function LookAt(header: Row, row: Row, id: string): (s: Step)
    ensures var padded := PadRow(row, |header|);
            && (|padded| > 0 && padded[0] != id <==> s == Next)
            && (|padded| > 0 && padded[0] == id ==> s == Stop(UserOf(padded)))
  {
    var padded := PadRow(row, |header|);
    if |padded| == 0 then Stop(None)
    else if padded[0] == id then Stop(UserOf(padded))
    else Next
  }

  /**
   * `get_user_data(teacher_id)` over the rows of `A:E`: the first data row
   * whose padded first cell is the id; `None` when the sheet has no values,
   * no row is the user's, or a row makes the lookup raise.
   */
  function GetUserData(values: seq<Row>, id: string): (r: Option<User>)
    ensures r.Some? ==> exists i :: 1 <= i < |values| && LookAt(values[0], values[i], id) == Stop(r)
                                    && forall j :: 1 <= j < i ==> LookAt(values[0], values[j], id) == Next
  {
    if values == [] then None else ScanUsers(values, 1, id)
  }

  function ScanUsers(values: seq<Row>, i: nat, id: string): (r: Option<User>)
    requires 1 <= i <= |values|
    ensures r.Some? ==> exists k :: i <= k < |values| && LookAt(values[0], values[k], id) == Stop(r)
                                    && forall j :: i <= j < k ==> LookAt(values[0], values[j], id) == Next
    ensures (forall j :: i <= j < |values| ==> LookAt(values[0], values[j], id) == Next) ==> r.None?
    decreases |values| - i
  {
    if i == |values| then None
    else match LookAt(values[0], values[i], id)
      case Stop(u) => u
      case Next => ScanUsers(values, i + 1, id)
  }

  /** The data rows at which the scan stops (the header row never is one). */
  function Stops(values: seq<Row>, id: string): (flags: seq<bool>)
    requires values != []
    ensures |flags| == |values|
    ensures forall j :: 0 <= j < |values| ==> (flags[j] <==> 1 <= j && LookAt(values[0], values[j], id).Stop?)
  {
    seq(|values|, j requires 0 <= j < |values| => 1 <= j && LookAt(values[0], values[j], id).Stop?)
  }

  /** What the scan answers when it stops at row `k`, or runs out of rows. */
  function StopResult(values: seq<Row>, id: string, k: Option<nat>): Option<User>
    requires values != [] && (k.Some? ==> k.value < |values|)
  {
    if k.None? then None
    else match LookAt(values[0], values[k.value], id)
      case Stop(u) => u
      case Next => None
  }

  /** The scan from row `i` answers for the first row at or after `i` where it stops. */
  lemma {:induction false} ScanUsersIsFirstStop(values: seq<Row>, i: nat, id: string)
    requires values != [] && 1 <= i <= |values|
    ensures ScanUsers(values, i, id) == StopResult(values, id, FirstSet(Stops(values, id), i))
    decreases |values| - i
  {
    var flags := Stops(values, id);
    if i == |values| {
      assert FirstSet(flags, i) == None;
      assert ScanUsers(values, i, id) == StopResult(values, id, FirstSet(flags, i));
    } else {
      var look := LookAt(values[0], values[i], id);
      match look
      case Stop(u) =>
        FirstSetAt(flags, i);
        assert ScanUsers(values, i, id) == u;
        assert StopResult(values, id, Some(i)) == u;
        assert ScanUsers(values, i, id) == StopResult(values, id, FirstSet(flags, i));
      case Next =>
        FirstSetPast(flags, i);
        ScanUsersIsFirstStop(values, i + 1, id);
        assert ScanUsers(values, i, id) == ScanUsers(values, i + 1, id);
        assert ScanUsers(values, i, id) == StopResult(values, id, FirstSet(flags, i));
    }
  }

  /**
   * `get_user_data` answers for the first data row that stops the scan:
   * that row's user (`None` when the row makes the lookup raise), and
   * `None` when no row stops it.
   */
  lemma GetUserDataIsFirstStop(values: seq<Row>, id: string)
    ensures forall k :: 1 <= k < |values| && LookAt(values[0], values[k], id).Stop?
                        && (forall j :: 1 <= j < k ==> LookAt(values[0], values[j], id) == Next)
                        ==> GetUserData(values, id) == LookAt(values[0], values[k], id).result
    ensures (forall j :: 1 <= j < |values| ==> LookAt(values[0], values[j], id) == Next) ==> GetUserData(values, id).None?
  {
    if values != [] {
      ScanUsersIsFirstStop(values, 1, id);
      var flags := Stops(values, id);
      forall k | 1 <= k < |values| && LookAt(values[0], values[k], id).Stop?
                 && (forall j :: 1 <= j < k ==> LookAt(values[0], values[j], id) == Next)
        ensures FirstSet(flags, 1) == Some(k)
      {
        assert flags[k];
        assert forall j :: 1 <= j < k ==> !flags[j];
      }
    }
  }

  /** How `get_user_data` ends as written: a user, no user, or an error raised from inside its error handler. */
  datatype Lookup = Found(user: User) | NotFound | HandlerRaised

  /**
   * `get_user_data` as written: a row that makes the lookup raise sends it
   * to the handler, whose report reads the `_credentials` attribute of the
   * Sheets service object; that object has no such attribute, so the handler
   * raises in turn and the error leaves `authenticate`.
   */
  function GetUserDataAsWritten(values: seq<Row>, id: string): Lookup {
    if values == [] then NotFound
    else
      var k := FirstSet(Stops(values, id), 1);
      if k.None? then NotFound
      else match LookAt(values[0], values[k.value], id)
        case Stop(Some(u)) => Found(u)
        case Stop(None) => HandlerRaised
        case Next => NotFound
  }

  /** Apart from the raise, the lookup as written and as intended agree. */
  lemma LookupAsWrittenAgrees(values: seq<Row>, id: string)
    ensures GetUserDataAsWritten(values, id) != HandlerRaised ==>
              GetUserData(values, id) == (if GetUserDataAsWritten(values, id).Found? then Some(GetUserDataAsWritten(values, id).user) else None)
    ensures GetUserDataAsWritten(values, id) == HandlerRaised ==> GetUserData(values, id).None?
  {
    if values != [] {
      ScanUsersIsFirstStop(values, 1, id);
    }
  }

  /**
   * A users sheet narrower than five columns (no `is_active` column, say):
   * the user's own row makes the lookup raise, and as written the handler
   * raises too, where the intended lookup answers `None` and the call
   * answers "Invalid credentials" with one attempt recorded.
   */
  lemma NarrowSheetRaisesAsWritten(header: Row, row: Row, id: string, pin: string, a: Attempts, now: int)
    requires |header| < 5 && 0 < |row| < 5 && row[0] == id
    requires ValidTeacherId(id) && ValidPin(pin) && !IsLocked(a, id, now)
    ensures GetUserDataAsWritten([header, row], id) == HandlerRaised
    ensures GetUserData([header, row], id).None?
    ensures AuthStep(a, [header, row], id, pin, now).message == InvalidCredentials
  {
    var values := [header, row];
    var padded := PadRow(row, |header|);
    assert padded[..|row|] == row;
    assert padded[0] == id;
    assert LookAt(values[0], values[1], id) == Stop(None);
    LookupAsWrittenAgrees(values, id);
  }

  /** A user whose row comes first and is complete is found, with the row's PIN and activity flag. */
  lemma FirstRowUserFound(header: Row, row: Row, rest: seq<Row>, id: string)
    requires |row| >= 5 && row[0] == id
    ensures GetUserData([header, row] + rest, id) == UserOf(PadRow(row, |header|))
    ensures GetUserData([header, row] + rest, id).Some?
  {
    var values := [header, row] + rest;
    assert values[1] == row && values[0] == header;
    var padded := PadRow(row, |header|);
    assert padded[..|row|] == row;
    assert padded[0] == row[0];
  }

  // ----- authenticate -----

  /** The message `authenticate` answers with. */
  datatype Message =
    | BadIdFormat
    | BadPinFormat
    | TemporarilyLocked(remaining: int)
    | InvalidCredentials
    | AccountInactive
    | LoginSuccessful

  /** The outcome of one call: the message, the attempts afterwards, and the user signed in on success. */
  datatype AuthResult = AuthResult(message: Message, attempts: Attempts, user: Option<User>)

  /**
   * `authenticate(teacher_id, pin)`: the id format, the PIN format and the
   * rate limit are checked in that order before the user is looked up; an
   * unknown user and a wrong PIN each record one attempt, an inactive
   * account records none.
   */
  function AuthStep(a: Attempts, users: seq<Row>, id: string, pin: string, now: int): (r: AuthResult)
    ensures (r.message == LoginSuccessful) <==> r.user.Some?
    ensures r.user.Some? ==> r.user.value.pin == pin && r.user.value.isActive && r.user == GetUserData(users, id)
  {
    if !ValidTeacherId(id) then AuthResult(BadIdFormat, a, None)
    else if !ValidPin(pin) then AuthResult(BadPinFormat, a, None)
    else if IsLocked(a, id, now) then AuthResult(TemporarilyLocked(LockoutDuration - (now - a[id][0])), a, None)
    else
      var checked := AfterCheck(a, id, now);
      match GetUserData(users, id)
      case None => AuthResult(InvalidCredentials, Recorded(checked, id, now), None)
      case Some(u) =>
        if !u.isActive then AuthResult(AccountInactive, checked, None)
        else if pin != u.pin then AuthResult(InvalidCredentials, Recorded(checked, id, now), None)
        else AuthResult(LoginSuccessful, checked, Some(u))
  }

  /** Format failures answer at once and record nothing. */
  lemma FormatFailuresRecordNothing(a: Attempts, users: seq<Row>, id: string, pin: string, now: int)
    requires !ValidTeacherId(id) || !ValidPin(pin)
    ensures var r := AuthStep(a, users, id, pin, now);
            && r.attempts == a && r.user.None?
            && r.message == (if !ValidTeacherId(id) then BadIdFormat else BadPinFormat)
  {
  }

  /**
   * The checks before the lookup do not depend on the users sheet: a call
   * stopped by a format check or the lock gives the same answer whatever
   * the sheet holds.
   */
  lemma ChecksPrecedeLookup(a: Attempts, users1: seq<Row>, users2: seq<Row>, id: string, pin: string, now: int)
    requires !ValidTeacherId(id) || !ValidPin(pin) || IsLocked(a, id, now)
    ensures AuthStep(a, users1, id, pin, now) == AuthStep(a, users2, id, pin, now)
  {
  }

  /** A locked user is refused with the time left until the oldest attempt is 300 seconds old, and nothing is recorded. */
  lemma LockedRefusal(a: Attempts, users: seq<Row>, id: string, pin: string, now: int)
    requires ValidTeacherId(id) && ValidPin(pin) && IsLocked(a, id, now)
    ensures var r := AuthStep(a, users, id, pin, now);
            && r.message == TemporarilyLocked(LockoutDuration - (now - a[id][0]))
            && r.message.remaining > 0
            && r.attempts == a
  {
  }

  /** An unknown user and a wrong PIN each add exactly one attempt, at the time of the call. */
  lemma FailureRecordsOne(a: Attempts, users: seq<Row>, id: string, pin: string, now: int)
    requires ValidTeacherId(id) && ValidPin(pin) && !IsLocked(a, id, now)
    requires GetUserData(users, id).None? || (GetUserData(users, id).value.isActive && GetUserData(users, id).value.pin != pin)
    ensures var r := AuthStep(a, users, id, pin, now);
            var checked := AfterCheck(a, id, now);
            && r.message == InvalidCredentials
            && r.attempts[id] == (if id in checked then checked[id] else []) + [now]
            && forall k :: k in a && k != id ==> r.attempts[k] == a[k]
  {
  }

  /** An inactive account is refused without recording an attempt. */
  lemma InactiveRecordsNothing(a: Attempts, users: seq<Row>, id: string, pin: string, now: int)
    requires ValidTeacherId(id) && ValidPin(pin) && !IsLocked(a, id, now)
    requires GetUserData(users, id).Some? && !GetUserData(users, id).value.isActive
    ensures var r := AuthStep(a, users, id, pin, now);
            r.message == AccountInactive && r.attempts == AfterCheck(a, id, now)
  {
  }

  /** A successful login leaves the attempt list as the rate check left it: it is not cleared. */
  lemma SuccessKeepsAttempts(a: Attempts, users: seq<Row>, id: string, pin: string, now: int)
    requires AuthStep(a, users, id, pin, now).message == LoginSuccessful
    ensures AuthStep(a, users, id, pin, now).attempts == AfterCheck(a, id, now)
    ensures id in a && 0 < |a[id]| < MaxAttempts ==> AuthStep(a, users, id, pin, now).attempts[id] == a[id]
  {
  }

  /**
   * A well-formed id and PIN, no lock, and an active account whose stored
   * PIN is the one given sign the user in, and only they do; the attempts
   * are then those the rate-limit check left.
   */
  lemma SignInIff(a: Attempts, users: seq<Row>, id: string, pin: string, now: int)
    ensures var r := AuthStep(a, users, id, pin, now);
            var u := GetUserData(users, id);
            r.message == LoginSuccessful
            <==> ValidTeacherId(id) && ValidPin(pin) && !IsLocked(a, id, now)
                 && u.Some? && u.value.isActive && u.value.pin == pin
    ensures var r := AuthStep(a, users, id, pin, now);
            r.message == LoginSuccessful ==> r.user == GetUserData(users, id) && r.attempts == AfterCheck(a, id, now)
  {
  }

  /** No user has more than three recorded attempts. */
  predicate Bounded(a: Attempts) {
    forall k :: k in a ==> |a[k]| <= MaxAttempts
  }

  /**
   * When attempts change only through `authenticate`, no list grows past
   * three: an attempt is recorded only after the rate check passed, that is
   * with fewer than three entries or with a list just emptied.
   */
  lemma AuthenticateKeepsBound(a: Attempts, users: seq<Row>, id: string, pin: string, now: int)
    requires Bounded(a)
    ensures Bounded(AuthStep(a, users, id, pin, now).attempts)
  {
    if ValidTeacherId(id) && ValidPin(pin) && !IsLocked(a, id, now) {
      var checked := AfterCheck(a, id, now);
      CheckLeavesRoom(a, id, now);
      RecordKeepsBound(checked, id, now);
    }
  }

  /** A passed rate check leaves the user's list bounded and with room for one more. */
  lemma CheckLeavesRoom(a: Attempts, id: string, now: int)
    requires Bounded(a) && !IsLocked(a, id, now)
    ensures var c := AfterCheck(a, id, now);
            Bounded(c) && (id in c ==> |c[id]| < MaxAttempts)
  {
  }

  /** Recording on a list with room keeps every list bounded. */
  lemma RecordKeepsBound(c: Attempts, id: string, now: int)
    requires Bounded(c) && (id in c ==> |c[id]| < MaxAttempts)
    ensures Bounded(Recorded(c, id, now))
  {
  }

  /** Three failures for an unknown user within 300 seconds lock the fourth try out. */
  lemma ThreeFailuresLock(users: seq<Row>, id: string, pin: string, t1: int, t2: int, t3: int, t4: int)
    requires ValidTeacherId(id) && ValidPin(pin) && GetUserData(users, id).None?
    requires t1 <= t2 <= t3 <= t4 && t4 - t1 < LockoutDuration
    ensures var a1 := AuthStep(map[], users, id, pin, t1).attempts;
            var a2 := AuthStep(a1, users, id, pin, t2).attempts;
            var a3 := AuthStep(a2, users, id, pin, t3).attempts;
            && a3[id] == [t1, t2, t3]
            && AuthStep(a3, users, id, pin, t4).message == TemporarilyLocked(LockoutDuration - (t4 - t1))
  {
    var a1 := AuthStep(map[], users, id, pin, t1).attempts;
    assert a1[id] == [t1];
    var a2 := AuthStep(a1, users, id, pin, t2).attempts;
    assert a2[id] == [t1, t2];
    var a3 := AuthStep(a2, users, id, pin, t3).attempts;
    assert a3[id] == [t1, t2, t3];
  }

  /**
   * The authentication manager and the session fields it reads and writes:
   * the attempt lists, the signed-in flag, the user and the login time.
   */
  class AuthManager {
    var attempts: Attempts
    var authenticated: bool
    var userData: Option<User>
    var loginTime: Option<int>

    constructor ()
      ensures attempts == map[] && !authenticated && userData.None? && loginTime.None?
    {
      attempts := map[];
      authenticated := false;
      userData := None;
      loginTime := None;
    }

    /** `check_rate_limit(teacher_id)`: refused exactly while locked; a full list whose window has passed is emptied. */
    method CheckRateLimit(id: string, now: int) returns (ok: bool)
      modifies this
      ensures ok <==> !IsLocked(old(attempts), id, now)
      ensures attempts == AfterCheck(old(attempts), id, now)
      ensures authenticated == old(authenticated) && userData == old(userData) && loginTime == old(loginTime)
    {
      if id in attempts {
        var list := attempts[id];
        if |list| >= MaxAttempts {
          if now - list[0] < LockoutDuration {
            return false;
          }
          attempts := attempts[id := []];
        }
      }
      return true;
    }

    /** `record_login_attempt(teacher_id)`: the time is appended to the user's list, created when missing. */
    method RecordLoginAttempt(id: string, now: int)
      modifies this
      ensures attempts == Recorded(old(attempts), id, now)
      ensures authenticated == old(authenticated) && userData == old(userData) && loginTime == old(loginTime)
    {
      if id !in attempts {
        attempts := attempts[id := []];
      }
      attempts := attempts[id := attempts[id] + [now]];
    }

    /**
     * `authenticate(teacher_id, pin)` against the users sheet as read now;
     * a success also signs the user in at time `now`.
     */
    method Authenticate(users: seq<Row>, id: string, pin: string, now: int) returns (ok: bool, message: Message)
      modifies this
      ensures var r := AuthStep(old(attempts), users, id, pin, now);
              && message == r.message && attempts == r.attempts && (ok <==> r.user.Some?)
      ensures ok ==> authenticated && userData == GetUserData(users, id) && loginTime == Some(now)
      ensures !ok ==> authenticated == old(authenticated) && userData == old(userData) && loginTime == old(loginTime)
    {
      if !ValidTeacherId(id) {
        return false, BadIdFormat;
      }
      if !ValidPin(pin) {
        return false, BadPinFormat;
      }
      var allowed := CheckRateLimit(id, now);
      if !allowed {
        return false, TemporarilyLocked(LockoutDuration - (now - attempts[id][0]));
      }
      var user := GetUserData(users, id);
      if user.None? {
        RecordLoginAttempt(id, now);
        return false, InvalidCredentials;
      }
      if !user.value.isActive {
        return false, AccountInactive;
      }
      if pin != user.value.pin {
        RecordLoginAttempt(id, now);
        return false, InvalidCredentials;
      }
      authenticated := true;
      userData := user;
      loginTime := Some(now);
      return true, LoginSuccessful;
    }
  }
}
