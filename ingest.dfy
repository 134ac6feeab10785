/**
 * The ingest step of the credit-scoring pipeline (`load_data`): every raw
 * transaction object is turned into a normalized record whose `wallet` is
 * the object's `userWallet` and whose `amount` is the `amount` entry of its
 * `actionData` payload, converted with Python's `float` and divided by
 * 10^6 (USDC has six decimals).
 */
module Ingest {
  import opened Wrappers

  /** A JSON value as the decoder hands it over. */
  datatype JsonValue =
    | JNull
    | JBool(flag: bool)
    | JNumber(number: real)
    | JString(text: string)
    | JArray(items: seq<JsonValue>)
    | JObject(fields: map<string, JsonValue>)

  /** Why the conversion of an amount with `float` raises. */
  datatype LoadError =
    | AmountTypeError(raw: JsonValue)   // `float` of None, a list or a dict
    | AmountValueError(text: string)    // `float` of a string that is not a number
    | MissingColumn(name: string)       // a column the frame built from the records does not have

  /** A transaction object of the input log, with the fields the pipeline reads. */
  datatype RawTxn = RawTxn(userWallet: string, action: string, actionData: map<string, JsonValue>)

  /** A normalized transaction: wallet id, action tag and amount in whole USDC. */
  datatype Txn = Txn(wallet: string, action: string, amount: real)

  /** The key of the amount inside `actionData`. */
  const AmountKey: string := "amount"

  /** Base units per USDC: the token has six decimals. */
  const UsdcScale: real := 1000000.0

  // ---------------------------------------------------------------------
  // Decimal digits

  predicate IsDigit(c: char) {
    '0' <= c <= '9'
  }

  predicate AllDigits(s: string) {
    forall i :: 0 <= i < |s| ==> IsDigit(s[i])
  }

  /** The natural number a string of decimal digits denotes (most significant first). */
  function DigitsValue(s: string): nat
    requires AllDigits(s)
  {
    if s == [] then 0
    else DigitsValue(s[..|s| - 1]) * 10 + (s[|s| - 1] - '0') as nat
  }

  function Pow10(k: nat): (p: nat)
    ensures p >= 1
  {
    if k == 0 then 1 else 10 * Pow10(k - 1)
  }

  /** The shortest decimal digit string of `n`. */
  function Digits(n: nat): (s: string)
    ensures |s| >= 1 && AllDigits(s)
  {
    if n < 10 then [('0' as int + n) as char]
    else Digits(n / 10) + [('0' as int + n % 10) as char]
  }

  lemma {:induction false} DigitsRoundTrip(n: nat)
    ensures DigitsValue(Digits(n)) == n
  {
    var s := Digits(n);
    if n >= 10 {
      DigitsRoundTrip(n / 10);
      assert s[..|s| - 1] == Digits(n / 10);
    }
  }

  // ---------------------------------------------------------------------
  // Python's `float` on the values an amount can hold

  /** The index of the first '.' in `s`, or |s| when there is none. */
  function DotIndex(s: string): (k: nat)
    ensures k <= |s|
    ensures k < |s| ==> s[k] == '.'
    ensures forall i :: 0 <= i < k ==> s[i] != '.'
  {
    if s == [] then 0
    else if s[0] == '.' then 0
    else 1 + DotIndex(s[1..])
  }

  /**
   * The number a decimal literal `[+|-]digits[.digits]` denotes, with at
   * least one digit in all (so ".5" and "5." are read); None for any other text.
   */
  function ParseDecimal(s: string): Option<real> {
    var negative := |s| > 0 && s[0] == '-';
    var body := if |s| > 0 && (s[0] == '-' || s[0] == '+') then s[1..] else s;
    match ParseUnsigned(body)
    case Some(x) => Some(if negative then -x else x)
    case None => None
  }

  /** The number `digits[.digits]` denotes, with at least one digit in all. */
  function ParseUnsigned(body: string): (r: Option<real>)
    ensures r.Some? ==> r.value >= 0.0
  {
    var k := DotIndex(body);
    var whole := body[..k];
    var frac := if k < |body| then body[k + 1..] else [];
    if AllDigits(whole) && AllDigits(frac) && |whole| + |frac| >= 1 then Some(DecimalValue(whole, frac))
    else None
  }

  /** The value of the literal `whole.frac`. */
  function DecimalValue(whole: string, frac: string): (x: real)
    requires AllDigits(whole) && AllDigits(frac)
    ensures x >= 0.0
  {
    DigitsValue(whole) as real + DigitsValue(frac) as real / Pow10(|frac|) as real
  }

  /** An integer written the way `str` writes it. */
  function FormatInt(n: int): string {
    if n < 0 then "-" + Digits(-n) else Digits(n)
  }

  lemma ParseFormatInt(n: int)
    ensures ParseDecimal(FormatInt(n)) == Some(n as real)
  {
    var m: nat := if n < 0 then -n else n;
    DigitsRoundTrip(m);
    if n < 0 {
      ParseDigits(Digits(m));
      ParseMinus(Digits(m), m as real);
    } else {
      ParseDigits(Digits(m));
      assert FormatInt(n)[0] != '-' && FormatInt(n)[0] != '+';
    }
  }

  lemma ParseDigits(d: string)
    requires AllDigits(d) && |d| >= 1
    ensures ParseUnsigned(d) == Some(DigitsValue(d) as real)
  {
    NoDotInDigits(d);
    assert d[..DotIndex(d)] == d;
    assert DecimalValue(d, []) == DigitsValue(d) as real;
  }

  /** A leading minus negates whatever the unsigned part reads as. */
  lemma ParseMinus(body: string, x: real)
    requires ParseUnsigned(body) == Some(x)
    ensures ParseDecimal("-" + body) == Some(-x)
  {
    var s := "-" + body;
    assert s[0] == '-' && s[1..] == body;
  }

  lemma NoDotInDigits(s: string)
    requires AllDigits(s)
    ensures DotIndex(s) == |s|
  {
    if s != [] {
      assert s[0] != '.';
      NoDotInDigits(s[1..]);
    }
  }

  /** A signed amount with a fractional part, as a decimal string. */
  lemma ParseFractionExample()
    ensures ParseDecimal("-2.5") == Some(-2.5)
  {
    var body := "2.5";
    assert ("-2.5")[1..] == body;
    assert DotIndex(body) == 1;
    assert body[..1] == "2" && body[2..] == "5";
    assert ParseUnsigned(body) == Some(2.5);
  }

  /** `float(x)` for a JSON value `x`. */
  function ToFloat(v: JsonValue): (r: Result<real, LoadError>)
    ensures r.Err? <==> v.JNull? || v.JArray? || v.JObject? || (v.JString? && ParseDecimal(v.text).None?)
    ensures v.JString? && ParseDecimal(v.text).Some? ==> r == Ok(ParseDecimal(v.text).value)
    ensures v.JNumber? ==> r == Ok(v.number)
    ensures v.JBool? ==> r == Ok(if v.flag then 1.0 else 0.0)
  {
    match v
    case JBool(b) => Ok(if b then 1.0 else 0.0)
    case JNumber(x) => Ok(x)
    case JString(t) =>
      (match ParseDecimal(t)
       case Some(x) => Ok(x)
       case None => Err(AmountValueError(t)))
    case _ => Err(AmountTypeError(v))
  }

  // ---------------------------------------------------------------------
  // The amount extraction and the whole load

  /** `float(actionData.get('amount', 0)) / 1e6`. */
  function Amount(actionData: map<string, JsonValue>): (r: Result<real, LoadError>)
    ensures AmountKey !in actionData ==> r == Ok(0.0)
    ensures AmountKey in actionData ==>
      (r.Ok? <==> ToFloat(actionData[AmountKey]).Ok?) &&
      (r.Ok? ==> r.value * UsdcScale == ToFloat(actionData[AmountKey]).value) &&
      (r.Err? ==> r.error == ToFloat(actionData[AmountKey]).error)
  {
    if AmountKey !in actionData then Ok(0.0)
    else
      match ToFloat(actionData[AmountKey])
      case Ok(x) => Ok(x / UsdcScale)
      case Err(e) => Err(e)
  }

  /** An amount written as an integer string of base units comes back as that many millionths. */
  lemma AmountOfBaseUnits(actionData: map<string, JsonValue>, units: int)
    requires AmountKey in actionData && actionData[AmountKey] == JString(FormatInt(units))
    ensures Amount(actionData) == Ok(units as real / UsdcScale)
  {
    ParseFormatInt(units);
  }

  /**
   * The normalized log: each raw object becomes a Txn in the same position.
   * `apply` runs the conversion row by row, so the first amount that
   * `float` rejects aborts the load with its error.
   */
  function Normalize(raws: seq<RawTxn>): (r: Result<seq<Txn>, LoadError>)
    ensures r.Ok? <==> forall i :: 0 <= i < |raws| ==> Amount(raws[i].actionData).Ok?
    ensures r.Ok? ==> |r.value| == |raws|
    ensures r.Ok? ==> forall i :: 0 <= i < |raws| ==>
      r.value[i] == Txn(raws[i].userWallet, raws[i].action, Amount(raws[i].actionData).value)
    ensures r.Err? ==> exists i :: 0 <= i < |raws| && FirstFailure(raws, i) && r.error == Amount(raws[i].actionData).error
  {
    if raws == [] then Ok([])
    else
      match Amount(raws[0].actionData)
      case Err(e) =>
        assert FirstFailure(raws, 0);
        Err(e)
      case Ok(a) =>
        match Normalize(raws[1..])
        case Err(e) =>
          var i :| 0 <= i < |raws[1..]| && FirstFailure(raws[1..], i) &&
            e == Amount(raws[1..][i].actionData).error;
          assert FirstFailure(raws, i + 1);
          Err(e)
        case Ok(rest) =>
          assert forall i :: 1 <= i < |raws| ==> raws[i] == raws[1..][i - 1];
          Ok([Txn(raws[0].userWallet, raws[0].action, a)] + rest)
  }

  /**
   * `load_data` on the decoded records: the frame built from an empty list
   * has no columns, so reading `userWallet` fails before any amount is
   * converted; otherwise the records are normalized.
   */
  function Load(raws: seq<RawTxn>): (r: Result<seq<Txn>, LoadError>)
    ensures raws == [] ==> r == Err(MissingColumn("userWallet"))
    ensures raws != [] ==> r == Normalize(raws)
    ensures r.Ok? ==> |r.value| == |raws| > 0
  {
    if raws == [] then Err(MissingColumn("userWallet")) else Normalize(raws)
  }

  /** Record `i` is the first whose amount cannot be converted. */
  predicate FirstFailure(raws: seq<RawTxn>, i: nat)
    requires i < |raws|
  {
    Amount(raws[i].actionData).Err? &&
    forall j :: 0 <= j < i ==> Amount(raws[j].actionData).Ok?
  }
}
