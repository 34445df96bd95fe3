/**
 * The session helpers of `utils.py`: the 30-minute session timeout, the
 * sign-in and admin guards wrapped around pages, the dashboard defaults,
 * and the clearing of cached month results.
 */
module Guards {
  import opened Text
  import opened SessionState

  const SessionTimeout: int := 1800
  const CachePrefix: string := "cache_"

  /** The session has a login time more than 1800 seconds before `now` (strictly). */
  predicate TimedOut(entries: map<string, Value>, now: int) {
    "login_time" in entries && entries["login_time"].Time? && now - entries["login_time"].t > SessionTimeout
  }

  lemma TimeoutIsStrict(entries: map<string, Value>, login: int)
    requires "login_time" in entries && entries["login_time"] == Time(login)
    ensures !TimedOut(entries, login + SessionTimeout)
    ensures TimedOut(entries, login + SessionTimeout + 1)
  {
  }

  /** How a guarded page call ends: it runs, or the guard stops it and why. */
  datatype Gate = Proceed | Expired | NotSignedIn | NotAdmin | Crashed

  /** `require_auth`: the timeout check first, then the signed-in flag. */
  function AuthGate(entries: map<string, Value>, now: int): (g: Gate)
    ensures g == Proceed <==> !TimedOut(entries, now) && Truthy(Get(entries, "authenticated"))
    ensures g == Expired <==> TimedOut(entries, now)
  {
    if TimedOut(entries, now) then Expired
    else if !Truthy(Get(entries, "authenticated")) then NotSignedIn
    else Proceed
  }

  /**
   * `require_admin`: the same checks, then the role of `user_data` must be
   * `admin`; a session without user data (or with `None`) makes the role
   * lookup raise.
   */
  function AdminGate(entries: map<string, Value>, now: int): (g: Gate)
    ensures g == Proceed <==> AuthGate(entries, now) == Proceed && Get(entries, "user_data") == UserInfo("admin")
  {
    if TimedOut(entries, now) then Expired
    else if !Truthy(Get(entries, "authenticated")) then NotSignedIn
    else match Get(entries, "user_data")
      case UserInfo(role) => if role != "admin" then NotAdmin else Proceed
      case _ => Crashed
  }

  /** The admin guard is stricter than the sign-in guard, and both stop an expired session first. */
  lemma AdminGateRefinesAuthGate(entries: map<string, Value>, now: int)
    ensures AdminGate(entries, now) == Proceed ==> AuthGate(entries, now) == Proceed
    ensures AuthGate(entries, now) != Proceed ==> AdminGate(entries, now) == AuthGate(entries, now)
  {
  }

  /** An expired session is stopped by either guard whatever else it holds. */
  lemma ExpiryComesFirst(entries: map<string, Value>, now: int)
    requires TimedOut(entries, now)
    ensures AuthGate(entries, now) == Expired && AdminGate(entries, now) == Expired
  {
  }

  /** The dashboard defaults: `current_page`, `selected_year`, `selected_month`, `dashboard_manager`. */
  function WithDashboardDefaults(entries: map<string, Value>, year: int): (r: map<string, Value>)
    ensures r.Keys == entries.Keys + {"current_page", "selected_year", "selected_month", "dashboard_manager"}
    ensures forall k :: k in entries ==> r[k] == entries[k]
    ensures "current_page" !in entries ==> r["current_page"] == Text("dashboard")
    ensures "selected_year" !in entries ==> r["selected_year"] == Number(year)
    ensures "selected_month" !in entries ==> r["selected_month"] == Nothing
    ensures "dashboard_manager" !in entries ==> r["dashboard_manager"] == Nothing
  {
    var e1 := if "current_page" in entries then entries else entries["current_page" := Text("dashboard")];
    var e2 := if "selected_year" in e1 then e1 else e1["selected_year" := Number(year)];
    var e3 := if "selected_month" in e2 then e2 else e2["selected_month" := Nothing];
    if "dashboard_manager" in e3 then e3 else e3["dashboard_manager" := Nothing]
  }

  /** Initialising twice is initialising once, whatever year the second call sees. */
  lemma DashboardDefaultsIdempotent(entries: map<string, Value>, year1: int, year2: int)
    ensures WithDashboardDefaults(WithDashboardDefaults(entries, year1), year2) == WithDashboardDefaults(entries, year1)
  {
  }

  /** The session without its cache entries: every key starting `cache_` removed, every other kept. */
  function WithoutCache(entries: map<string, Value>): (r: map<string, Value>)
    ensures forall k :: k in r <==> k in entries && !StartsWith(k, CachePrefix)
    ensures forall k :: k in r ==> r[k] == entries[k]
  {
    map k | k in entries && !StartsWith(k, CachePrefix) :: entries[k]
  }

  /** Both keys a cached month result uses start with `cache_`, so clearing removes the timestamp too. */
  lemma CacheKeysAreCleared(entries: map<string, Value>, key: string)
    ensures "cache_" + key !in WithoutCache(entries)
    ensures "cache_time_" + key !in WithoutCache(entries)
  {
    assert ("cache_" + key)[..6] == CachePrefix;
    assert ("cache_time_" + key)[..6] == CachePrefix;
  }

  /** A session with the portal's own state. */
  class Guarded {
    var entries: map<string, Value>

    constructor (initial: map<string, Value>)
      ensures entries == initial
    {
      entries := initial;
    }

    /** `check_session_timeout`: an expired session is cleared entirely (`logout`). */
    method CheckSessionTimeout(now: int) returns (expired: bool)
      modifies this
      ensures expired <==> TimedOut(old(entries), now)
      ensures entries == if expired then map[] else old(entries)
    {
      expired := TimedOut(entries, now);
      if expired {
        entries := map[];
      }
    }

    /** A page wrapped in `require_auth`: it runs only on `Proceed`. */
    method RequireAuth(now: int) returns (g: Gate)
      modifies this
      ensures g == AuthGate(old(entries), now)
      ensures entries == if g == Expired then map[] else old(entries)
    {
      var expired := CheckSessionTimeout(now);
      if expired {
        return Expired;
      }
      if !Truthy(Get(entries, "authenticated")) {
        return NotSignedIn;
      }
      return Proceed;
    }

    /** A page wrapped in `require_admin`. */
    method RequireAdmin(now: int) returns (g: Gate)
      modifies this
      ensures g == AdminGate(old(entries), now)
      ensures entries == if g == Expired then map[] else old(entries)
    {
      var expired := CheckSessionTimeout(now);
      if expired {
        return Expired;
      }
      if !Truthy(Get(entries, "authenticated")) {
        return NotSignedIn;
      }
      var user := Get(entries, "user_data");
      if !user.UserInfo? {
        return Crashed;
      }
      if user.role != "admin" {
        return NotAdmin;
      }
      return Proceed;
    }

    /** `initialize_dashboard_state`: each missing key gets its default; present ones are left alone. */
    method InitializeDashboardState(year: int)
      modifies this
      ensures entries == WithDashboardDefaults(old(entries), year)
    {
      if "current_page" !in entries {
        entries := entries["current_page" := Text("dashboard")];
      }
      if "selected_year" !in entries {
        entries := entries["selected_year" := Number(year)];
      }
      if "selected_month" !in entries {
        entries := entries["selected_month" := Nothing];
      }
      if "dashboard_manager" !in entries {
        entries := entries["dashboard_manager" := Nothing];
      }
    }

    /** `clear_month_cache`: the cache keys are collected, then deleted one by one. */
    method ClearMonthCache()
      modifies this
      ensures entries == WithoutCache(old(entries))
    {
      var toRemove := set k | k in entries && StartsWith(k, CachePrefix);
      ghost var removed: set<string> := {};
      while toRemove != {}
        invariant toRemove !! removed
        invariant toRemove + removed == set k | k in old(entries) && StartsWith(k, CachePrefix)
        invariant entries == map k | k in old(entries) && k !in removed :: old(entries)[k]
        decreases toRemove
      {
        var k :| k in toRemove;
        entries := map j | j in entries && j != k :: entries[j];
        toRemove := toRemove - {k};
        removed := removed + {k};
      }
    }
  }
}
