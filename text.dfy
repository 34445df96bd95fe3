/**
 * Character and string helpers shared by every component of the portal:
 * Python's `isdigit`, `isalnum`, `strip`, `upper`, `startswith`, `str(int)`,
 * `int(str)`, `float(str)` (as a validity test) and the `%Y-%m-%d` date format.
 * Only the ASCII subset of Python's Unicode-aware predicates is modelled.
 */
module Text {

  datatype Option<T> = None | Some(value: T) {
    predicate IsFailure() { None? }
    function PropagateFailure<U>(): Option<U> requires None? { None }
    function Extract(): T requires Some? { value }
  }

  predicate IsDigit(c: char) { '0' <= c <= '9' }

  predicate IsAsciiLetter(c: char) { 'a' <= c <= 'z' || 'A' <= c <= 'Z' }

  /** Python's `str.isdigit()`: non-empty and every character a digit. */
  predicate AllDigits(s: string) { |s| > 0 && forall i :: 0 <= i < |s| ==> IsDigit(s[i]) }

  /** Python's `str.isalnum()`: non-empty and every character a letter or a digit. */
  predicate AllAlnum(s: string) {
    |s| > 0 && forall i :: 0 <= i < |s| ==> IsDigit(s[i]) || IsAsciiLetter(s[i])
  }

  /** The characters `str.strip()` removes: those for which `str.isspace()` holds. */
  predicate IsSpace(c: char) {
    ('\t' <= c <= '\r') || ('\U{1C}' <= c <= ' ') || c == '\U{85}' || c == '\U{A0}' || c == '\U{1680}'
    || ('\U{2000}' <= c <= '\U{200A}') || c == '\U{2028}' || c == '\U{2029}' || c == '\U{202F}'
    || c == '\U{205F}' || c == '\U{3000}'
  }

  /** The number of white-space characters at the start of `s`. */
  function LeadingSpaces(s: string): (k: nat)
    ensures k <= |s|
    ensures forall i :: 0 <= i < k ==> IsSpace(s[i])
    ensures k == |s| || !IsSpace(s[k])
  {
    if |s| > 0 && IsSpace(s[0]) then 1 + LeadingSpaces(s[1..]) else 0
  }

  /** The number of white-space characters at the end of `s`. */
  function TrailingSpaces(s: string): (k: nat)
    ensures k <= |s|
    ensures forall i :: |s| - k <= i < |s| ==> IsSpace(s[i])
    ensures k == |s| || !IsSpace(s[|s| - k - 1])
  {
    if |s| > 0 && IsSpace(s[|s| - 1]) then 1 + TrailingSpaces(s[..|s| - 1]) else 0
  }

  /** Python's `str.strip()`. */
  function Strip(s: string): (r: string)
    ensures r == [] || (!IsSpace(r[0]) && !IsSpace(r[|r| - 1]))
  {
    var t := s[LeadingSpaces(s)..];
    t[..|t| - TrailingSpaces(t)]
  }

  /** Python's `str.startswith(prefix)`. */
  predicate StartsWith(s: string, prefix: string) { |prefix| <= |s| && s[..|prefix|] == prefix }

  function UpperChar(c: char): char { if 'a' <= c <= 'z' then (c as int - 32) as char else c }

  /** Python's `str.upper()` on ASCII letters. */
  function Upper(s: string): (r: string)
    ensures |r| == |s|
    ensures forall i :: 0 <= i < |s| ==> r[i] == UpperChar(s[i])
  {
    if s == [] then [] else [UpperChar(s[0])] + Upper(s[1..])
  }

  function DigitChar(d: nat): char requires d < 10 { ('0' as int + d) as char }

  function DigitValue(c: char): nat requires IsDigit(c) { c as int - '0' as int }

  /** `str(n)` for a natural number: decimal digits, no leading zeros. */
  function NatToString(n: nat): (r: string)
    ensures AllDigits(r)
    decreases n
  {
    if n < 10 then [DigitChar(n)] else NatToString(n / 10) + [DigitChar(n % 10)]
  }

  /** The value of a string of decimal digits (0 for the empty string). */
  function ParseNat(s: string): nat
    requires forall i :: 0 <= i < |s| ==> IsDigit(s[i])
  {
    if s == [] then 0 else 10 * ParseNat(s[..|s| - 1]) + DigitValue(s[|s| - 1])
  }

  lemma {:induction false} ParseNatOfNatToString(n: nat)
    ensures ParseNat(NatToString(n)) == n
    decreases n
  {
    var s := NatToString(n);
    if n >= 10 {
      ParseNatOfNatToString(n / 10);
      assert s[..|s| - 1] == NatToString(n / 10);
    }
  }

  /** `str(n)` for any integer. */
  function IntToString(n: int): string {
    if n < 0 then "-" + NatToString(-n) else NatToString(n)
  }

  /** The text `int(s)` accepts: an optional sign followed by at least one digit. */
  predicate IsIntText(s: string) {
    AllDigits(s) || (|s| > 1 && (s[0] == '-' || s[0] == '+') && AllDigits(s[1..]))
  }

  /** Python's `int(s)` on a string: `None` stands for the `ValueError`. */
  function ParseInt(s: string): (r: Option<int>)
    ensures r.Some? <==> IsIntText(s)
  {
    if AllDigits(s) then Some(ParseNat(s))
    else if |s| > 1 && s[0] == '-' && AllDigits(s[1..]) then Some(-(ParseNat(s[1..]) as int))
    else if |s| > 1 && s[0] == '+' && AllDigits(s[1..]) then Some(ParseNat(s[1..]))
    else None
  }

  lemma IntToStringIsIntText(n: int)
    ensures IsIntText(IntToString(n))
  {
    if n < 0 { assert IntToString(n)[1..] == NatToString(-n); }
  }

  /** `int(str(n)) == n`: the decimal rendering of an integer parses back to it. */
  lemma {:induction false} ParseIntOfIntToString(n: int)
    ensures ParseInt(IntToString(n)) == Some(n)
  {
    if n < 0 {
      var s := IntToString(n);
      assert s[1..] == NatToString(-n);
      assert !AllDigits(s) by { assert !IsDigit(s[0]); }
      ParseNatOfNatToString(-n);
    } else {
      ParseNatOfNatToString(n);
    }
  }

  /** Distinct integers have distinct renderings. */
  lemma IntToStringInjective(m: int, n: int)
    requires IntToString(m) == IntToString(n)
    ensures m == n
  {
    ParseIntOfIntToString(m);
    ParseIntOfIntToString(n);
  }

  /**
   * The text `float(s)` accepts, restricted to plain decimal notation:
   * an optional sign, digits, and at most one decimal point, with at least one digit.
   */
  predicate IsDecimalText(s: string) {
    var body := if |s| > 0 && (s[0] == '-' || s[0] == '+') then s[1..] else s;
    exists k :: 0 <= k <= |body| && DecimalSplit(body, k)
  }

  /** `body[..k]` is the integer part and `body[k..]` is empty or a point followed by digits. */
  predicate DecimalSplit(body: string, k: nat)
    requires k <= |body|
  {
    (forall i :: 0 <= i < k ==> IsDigit(body[i]))
    && (k == |body| || (body[k] == '.' && forall i :: k < i < |body| ==> IsDigit(body[i])))
    && (k > 0 || |body| - k > 1)
  }

  lemma IntTextIsDecimalText(s: string)
    requires IsIntText(s)
    ensures IsDecimalText(s)
  {
    var body := if |s| > 0 && (s[0] == '-' || s[0] == '+') then s[1..] else s;
    assert DecimalSplit(body, |body|);
  }

  /** `str(float(n))` for a whole number `n`: the digits and a trailing `.0`. */
  function FloatText(n: int): (s: string)
    ensures |s| >= 3 && s[|s| - 2..] == ".0"
  {
    IntToString(n) + ".0"
  }

  /** `float(str(float(n)))` succeeds: the rendering is plain decimal text. */
  lemma FloatTextIsDecimal(n: int)
    ensures IsDecimalText(FloatText(n))
  {
    var s := FloatText(n);
    var digits := NatToString(if n < 0 then -n else n);
    var body := if |s| > 0 && (s[0] == '-' || s[0] == '+') then s[1..] else s;
    assert body == digits + ".0" by {
      if n < 0 {
        assert s == "-" + (digits + ".0");
      } else {
        assert s == digits + ".0";
        assert IsDigit(s[0]);
      }
    }
    PointZeroSplit(digits);
  }

  /** Digits followed by `.0` split at the point. */
  lemma PointZeroSplit(d: string)
    requires |d| > 0 && forall i :: 0 <= i < |d| ==> IsDigit(d[i])
    ensures DecimalSplit(d + ".0", |d|)
  {
    var t := d + ".0";
    assert forall i :: 0 <= i < |d| ==> t[i] == d[i];
    assert t[|d|] == '.' && t[|d| + 1] == '0';
  }

  predicate IsLeapYear(y: int) { y % 4 == 0 && (y % 100 != 0 || y % 400 == 0) }

  function DaysInMonth(y: int, m: int): int {
    if m == 2 then (if IsLeapYear(y) then 29 else 28)
    else if m == 4 || m == 6 || m == 9 || m == 11 then 30
    else 31
  }

  /** Digits `s[lo..hi]` as a number (all positions must be digits). */
  function Field(s: string, lo: nat, hi: nat): nat
    requires lo <= hi <= |s|
    requires forall i :: lo <= i < hi ==> IsDigit(s[i])
  {
    ParseNat(s[lo..hi])
  }

  /**
   * `datetime.strptime(s, '%Y-%m-%d')` succeeds, for the zero-padded form
   * `YYYY-MM-DD` with a real calendar date.
   */
  predicate IsIsoDate(s: string) {
    && |s| == 10 && s[4] == '-' && s[7] == '-'
    && (forall i :: 0 <= i < 10 && i != 4 && i != 7 ==> IsDigit(s[i]))
    && 1 <= Field(s, 5, 7) <= 12
    && 1 <= Field(s, 8, 10) <= DaysInMonth(Field(s, 0, 4), Field(s, 5, 7))
  }

  function DateYear(s: string): int requires IsIsoDate(s) { Field(s, 0, 4) }

  function DateMonth(s: string): (m: int)
    requires IsIsoDate(s)
    ensures 1 <= m <= 12
  {
    Field(s, 5, 7)
  }

  /** `strftime('%B')` of a month number, in English. */
  function MonthName(m: int): string
    requires 1 <= m <= 12
  {
    ["January", "February", "March", "April", "May", "June", "July",
     "August", "September", "October", "November", "December"][m - 1]
  }

  lemma MonthNameInjective(m: int, n: int)
    requires 1 <= m <= 12 && 1 <= n <= 12
    requires MonthName(m) == MonthName(n)
    ensures m == n
  {
  }

  // ----- scans -----

  /** Index of the first set flag at or after `i`. */
  function FirstSet(flags: seq<bool>, i: nat): (r: Option<nat>)
    requires i <= |flags|
    ensures r.Some? ==> i <= r.value < |flags| && flags[r.value]
    ensures r.Some? ==> forall j :: i <= j < r.value ==> !flags[j]
    ensures r.None? ==> forall j :: i <= j < |flags| ==> !flags[j]
    decreases |flags| - i
  {
    if i == |flags| then None
    else if flags[i] then Some(i)
    else FirstSet(flags, i + 1)
  }

  lemma FirstSetAt(flags: seq<bool>, i: nat)
    requires i < |flags| && flags[i]
    ensures FirstSet(flags, i) == Some(i)
  {
  }

  lemma FirstSetPast(flags: seq<bool>, i: nat)
    requires i < |flags| && !flags[i]
    ensures FirstSet(flags, i) == FirstSet(flags, i + 1)
  {
  }
}
