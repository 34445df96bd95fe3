/**
 * The per-browser session store (`st.session_state`) the dashboard and the
 * page guards share: a map from key to value. Only the kinds of value those
 * parts of the portal store are modelled.
 */
module SessionState {

  /** A month's summary as the dashboard keeps it (the total amount is not modelled). */
  datatype MonthSummary = MonthSummary(status: string, entryCount: nat, draftCount: nat)

  datatype Value =
    | Flag(b: bool)
    | Time(t: int)
    | Number(n: int)
    | Text(s: string)
    | UserInfo(role: string)
    | Summary(summary: MonthSummary)
    | Nothing

  /** Python truthiness: false, zero, the empty text and `None` are false; a dict is true. */
  predicate Truthy(v: Value) {
    match v
    case Flag(b) => b
    case Time(t) => t != 0
    case Number(n) => n != 0
    case Text(s) => s != ""
    case UserInfo(_) => true
    case Summary(_) => true
    case Nothing => false
  }

  /** `st.session_state.get(key)`: `None` for a missing key. */
  function Get(entries: map<string, Value>, key: string): (v: Value)
    ensures key !in entries ==> v == Nothing
    ensures key in entries ==> v == entries[key]
  {
    if key in entries then entries[key] else Nothing
  }

  /** The session of one browser. */
  class Session {
    var entries: map<string, Value>

    constructor (initial: map<string, Value>)
      ensures entries == initial
    {
      entries := initial;
    }

    /** `st.session_state[key] = value`. */
    method Put(key: string, value: Value)
      modifies this
      ensures entries == old(entries)[key := value]
    {
      entries := entries[key := value];
    }
  }
}
