/**
 * Expense line items and the text form in which a draft keeps them in one
 * sheet cell. The portal stores `json.dumps(expenses)` and reads it back with
 * `json.loads`; here the text form is a length-prefixed encoding whose only
 * promise used elsewhere is the same one JSON gives the portal: decoding what
 * was encoded returns the same items, and some texts do not decode at all.
 */
module Codec {
  import opened Text

  /**
   * A JSON value as it appears in an item field: a string, an integer, a
   * float (only whole values are modelled: `JFloat(12)` is `12.0`), or
   * anything else.
   */
  datatype Scalar = JStr(s: string) | JNum(n: int) | JFloat(whole: int) | JNull

  /**
   * An expense item (a Python dict). Each of the six keys the portal reads may
   * be missing (`None`); other keys are not modelled.
   */
  datatype Item = Item(
    date: Option<Scalar>,
    category: Option<Scalar>,
    vendor: Option<Scalar>,
    description: Option<Scalar>,
    amount: Option<Scalar>,
    id: Option<Scalar>)

  /** `str(v)` of a field value. */
  function ScalarText(v: Scalar): string {
    match v
    case JStr(s) => s
    case JNum(n) => IntToString(n)
    case JFloat(n) => FloatText(n)
    case JNull => "None"
  }

  // ----- encoding -----

  function EncText(s: string): string { NatToString(|s|) + ":" + s }

  function EncScalar(v: Scalar): string {
    match v
    case JStr(s) => "s" + EncText(s)
    case JNum(n) => "n" + EncText(IntToString(n))
    case JFloat(n) => "f" + EncText(IntToString(n))
    case JNull => "z"
  }

  function EncField(f: Option<Scalar>): string {
    match f
    case None => "-"
    case Some(v) => "+" + EncScalar(v)
  }

  /** The six fields of an item, in the order the encoding writes them. */
  function Fields(it: Item): (fs: seq<Option<Scalar>>)
    ensures |fs| == 6
  {
    [it.date, it.category, it.vendor, it.description, it.amount, it.id]
  }

  function ItemOf(fs: seq<Option<Scalar>>): Item
    requires |fs| == 6
  {
    Item(fs[0], fs[1], fs[2], fs[3], fs[4], fs[5])
  }

  function EncFields(fs: seq<Option<Scalar>>): string {
    if fs == [] then "" else EncField(fs[0]) + EncFields(fs[1..])
  }

  function EncItem(it: Item): string { "{" + EncFields(Fields(it)) }

  /** The cell text for a list of items (the model of `json.dumps`). */
  function Encode(items: seq<Item>): string {
    if items == [] then "]" else EncItem(items[0]) + Encode(items[1..])
  }

  // ----- decoding -----

  /** Length of the run of digits at the start of `s`. */
  function DigitRun(s: string): (k: nat)
    ensures k <= |s|
    ensures forall i :: 0 <= i < k ==> IsDigit(s[i])
    ensures k == |s| || !IsDigit(s[k])
  {
    if s == [] || !IsDigit(s[0]) then 0 else 1 + DigitRun(s[1..])
  }

  /** Reads one length-prefixed text; returns it with what follows. */
  function DecText(s: string): (r: Option<(string, string)>)
    ensures r.Some? ==> |r.value.1| < |s|
  {
    var k := DigitRun(s);
    if k == 0 || k == |s| || s[k] != ':' then None
    else
      var n := ParseNat(s[..k]);
      var rest := s[k + 1..];
      if n > |rest| then None else Some((rest[..n], rest[n..]))
  }

  function DecScalar(s: string): (r: Option<(Scalar, string)>)
    ensures r.Some? ==> |r.value.1| < |s|
  {
    if s == [] then None
    else if s[0] == 's' then
      var p :- DecText(s[1..]);
      Some((JStr(p.0), p.1))
    else if s[0] == 'n' then
      var p :- DecText(s[1..]);
      var n :- ParseInt(p.0);
      Some((JNum(n), p.1))
    else if s[0] == 'f' then
      var p :- DecText(s[1..]);
      var n :- ParseInt(p.0);
      Some((JFloat(n), p.1))
    else if s[0] == 'z' then Some((JNull, s[1..]))
    else None
  }

  function DecField(s: string): (r: Option<(Option<Scalar>, string)>)
    ensures r.Some? ==> |r.value.1| < |s|
  {
    if s == [] then None
    else if s[0] == '-' then Some((None, s[1..]))
    else if s[0] == '+' then
      var p :- DecScalar(s[1..]);
      Some((Some(p.0), p.1))
    else None
  }

  /** Reads `n` fields in a row; returns them with what follows. */
  function DecFields(s: string, n: nat): (r: Option<(seq<Option<Scalar>>, string)>)
    ensures r.Some? ==> |r.value.0| == n && |r.value.1| <= |s|
  {
    if n == 0 then Some(([], s))
    else
      var p :- DecField(s);
      var q :- DecFields(p.1, n - 1);
      Some(([p.0] + q.0, q.1))
  }

  function DecItem(s: string): (r: Option<(Item, string)>)
    ensures r.Some? ==> |r.value.1| < |s|
  {
    if s == [] || s[0] != '{' then None
    else
      var q :- DecFields(s[1..], 6);
      Some((ItemOf(q.0), q.1))
  }

  /** The items in a cell text (the model of `json.loads`); `None` is the decode error. */
  function Decode(s: string): Option<seq<Item>>
    decreases |s|
  {
    if s == "]" then Some([])
    else
      var p :- DecItem(s);
      var rest :- Decode(p.1);
      Some([p.0] + rest)
  }

  // ----- the round trip -----

  lemma {:induction false} DigitRunOverDigits(d: string, t: string)
    requires forall i :: 0 <= i < |d| ==> IsDigit(d[i])
    ensures DigitRun(d + t) == |d| + DigitRun(t)
  {
    if d != [] {
      assert (d + t)[1..] == d[1..] + t;
      DigitRunOverDigits(d[1..], t);
    } else {
      assert d + t == t;
    }
  }

  /** An encoded text is its length's digits, a colon, then the text. */
  lemma EncTextShape(x: string, rest: string)
    ensures var d := NatToString(|x|);
            var s := EncText(x) + rest;
            && |d| > 0 && |s| > |d|
            && s[..|d|] == d && s[|d|] == ':' && s[|d| + 1..] == x + rest
            && DigitRun(s) == |d|
  {
    var d := NatToString(|x|);
    var s := EncText(x) + rest;
    assert s == d + (":" + (x + rest));
    DigitRunOverDigits(d, ":" + (x + rest));
  }

  lemma DecTextOfEncText(x: string, rest: string)
    ensures DecText(EncText(x) + rest) == Some((x, rest))
  {
    EncTextShape(x, rest);
    ParseNatOfNatToString(|x|);
    var tail := x + rest;
    assert tail[..|x|] == x && tail[|x|..] == rest;
  }

  /** A tagged scalar text is the tag followed by the encoded text `x`. */
  lemma TaggedShape(tag: char, x: string, rest: string)
    ensures var s := [tag] + EncText(x) + rest;
            |s| > 0 && s[0] == tag && s[1..] == EncText(x) + rest
  {
    var s := [tag] + EncText(x) + rest;
    assert s == [tag] + (EncText(x) + rest);
  }

  lemma DecStrOfEncStr(x: string, rest: string)
    ensures DecScalar(EncScalar(JStr(x)) + rest) == Some((JStr(x), rest))
  {
    TaggedShape('s', x, rest);
    DecTextOfEncText(x, rest);
    DecStrStep(EncScalar(JStr(x)) + rest, x, rest);
  }

  lemma DecStrStep(s: string, x: string, rest: string)
    requires |s| > 0 && s[0] == 's' && DecText(s[1..]) == Some((x, rest))
    ensures DecScalar(s) == Some((JStr(x), rest))
  {
  }

  lemma DecNumOfEncNum(n: int, rest: string)
    ensures DecScalar(EncScalar(JNum(n)) + rest) == Some((JNum(n), rest))
  {
    TaggedShape('n', IntToString(n), rest);
    DecTextOfEncText(IntToString(n), rest);
    ParseIntOfIntToString(n);
    DecNumStep(EncScalar(JNum(n)) + rest, n, rest);
  }

  lemma DecNumStep(s: string, n: int, rest: string)
    requires |s| > 0 && s[0] == 'n' && DecText(s[1..]) == Some((IntToString(n), rest))
    requires ParseInt(IntToString(n)) == Some(n)
    ensures DecScalar(s) == Some((JNum(n), rest))
  {
  }

  lemma DecFloatOfEncFloat(n: int, rest: string)
    ensures DecScalar(EncScalar(JFloat(n)) + rest) == Some((JFloat(n), rest))
  {
    TaggedShape('f', IntToString(n), rest);
    DecTextOfEncText(IntToString(n), rest);
    ParseIntOfIntToString(n);
    DecFloatStep(EncScalar(JFloat(n)) + rest, n, rest);
  }

  lemma DecFloatStep(s: string, n: int, rest: string)
    requires |s| > 0 && s[0] == 'f' && DecText(s[1..]) == Some((IntToString(n), rest))
    requires ParseInt(IntToString(n)) == Some(n)
    ensures DecScalar(s) == Some((JFloat(n), rest))
  {
  }

  lemma DecScalarOfEncScalar(v: Scalar, rest: string)
    ensures DecScalar(EncScalar(v) + rest) == Some((v, rest))
  {
    match v
    case JStr(x) => DecStrOfEncStr(x, rest);
    case JNum(n) => DecNumOfEncNum(n, rest);
    case JFloat(n) => DecFloatOfEncFloat(n, rest);
    case JNull =>
      var s := EncScalar(v) + rest;
      assert s[0] == 'z' && s[1..] == rest;
  }

  /** A `+` followed by a decodable scalar decodes as that field. */
  lemma DecFieldPlus(s: string, v: Scalar, rest: string)
    requires |s| > 0 && s[0] == '+' && DecScalar(s[1..]) == Some((v, rest))
    ensures DecField(s) == Some((Some(v), rest))
  {
  }

  lemma DecSomeField(v: Scalar, rest: string)
    ensures DecField(EncField(Some(v)) + rest) == Some((Some(v), rest))
  {
    var s := EncField(Some(v)) + rest;
    var e := EncScalar(v);
    assert |s| > 0 && s[0] == '+' && s[1..] == e + rest by {
      assert s == "+" + (e + rest);
    }
    DecScalarOfEncScalar(v, rest);
    DecFieldPlus(s, v, rest);
  }

  lemma DecFieldOfEncField(f: Option<Scalar>, rest: string)
    ensures DecField(EncField(f) + rest) == Some((f, rest))
  {
    match f
    case None =>
      var s := EncField(f) + rest;
      assert s[0] == '-' && s[1..] == rest;
    case Some(v) =>
      DecSomeField(v, rest);
  }

  lemma EncFieldsShape(fs: seq<Option<Scalar>>, rest: string)
    requires fs != []
    ensures EncFields(fs) + rest == EncField(fs[0]) + (EncFields(fs[1..]) + rest)
  {
  }

  /** One step of `DecFields`: a field, then the remaining `n - 1`. */
  lemma DecFieldsStep(s: string, n: nat, f: Option<Scalar>, mid: string, fs: seq<Option<Scalar>>, rest: string)
    requires n > 0 && DecField(s) == Some((f, mid)) && DecFields(mid, n - 1) == Some((fs, rest))
    ensures DecFields(s, n) == Some(([f] + fs, rest))
  {
  }

  /** Decoding the encoding of a non-empty field list: its first field, then the rest. */
  lemma DecFieldsCons(fs: seq<Option<Scalar>>, rest: string, tail: string)
    requires fs != [] && tail == EncFields(fs[1..]) + rest
    requires DecField(EncField(fs[0]) + tail) == Some((fs[0], tail))
    requires DecFields(tail, |fs| - 1) == Some((fs[1..], rest))
    ensures DecFields(EncFields(fs) + rest, |fs|) == Some((fs, rest))
  {
    EncFieldsShape(fs, rest);
    DecFieldsStep(EncFields(fs) + rest, |fs|, fs[0], tail, fs[1..], rest);
    assert [fs[0]] + fs[1..] == fs;
  }

  lemma {:induction false} DecFieldsOfEncFields(fs: seq<Option<Scalar>>, rest: string)
    ensures DecFields(EncFields(fs) + rest, |fs|) == Some((fs, rest))
    decreases |fs|
  {
    if fs != [] {
      var tail := EncFields(fs[1..]) + rest;
      DecFieldOfEncField(fs[0], tail);
      DecFieldsOfEncFields(fs[1..], rest);
      DecFieldsCons(fs, rest, tail);
    } else {
      assert EncFields(fs) + rest == rest;
    }
  }

  lemma EncItemShape(it: Item, rest: string)
    ensures (EncItem(it) + rest)[0] == '{'
    ensures (EncItem(it) + rest)[1..] == EncFields(Fields(it)) + rest
  {
    assert EncItem(it) + rest == "{" + (EncFields(Fields(it)) + rest);
  }

  lemma DecItemOfEncItem(it: Item, rest: string)
    ensures DecItem(EncItem(it) + rest) == Some((it, rest))
  {
    var s := EncItem(it) + rest;
    EncItemShape(it, rest);
    DecFieldsOfEncFields(Fields(it), rest);
    assert ItemOf(Fields(it)) == it;
  }

  /** One step of `Decode`: an item, then the items after it. */
  lemma DecodeStep(s: string, it: Item, mid: string, items: seq<Item>)
    requires s != "]" && DecItem(s) == Some((it, mid)) && Decode(mid) == Some(items)
    ensures Decode(s) == Some([it] + items)
  {
  }

  /** `json.loads(json.dumps(items)) == items`. */
  lemma {:induction false} DecodeEncode(items: seq<Item>)
    ensures Decode(Encode(items)) == Some(items)
    decreases |items|
  {
    if items != [] {
      var tail := Encode(items[1..]);
      var s := Encode(items);
      assert s == EncItem(items[0]) + tail;
      EncItemShape(items[0], tail);
      assert s != "]" by {
        assert s[0] == '{';
      }
      DecItemOfEncItem(items[0], tail);
      DecodeEncode(items[1..]);
      DecodeStep(s, items[0], tail, items[1..]);
      assert [items[0]] + items[1..] == items;
    }
  }

  /**
   * Texts that start neither an item nor the end of the list do not decode:
   * the empty cell among them.
   */
  lemma NonListTextDoesNotDecode(s: string)
    requires s != "]" && (s == [] || s[0] != '{')
    ensures Decode(s) == None
  {
  }
}
