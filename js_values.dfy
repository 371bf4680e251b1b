/**
 * The JavaScript value semantics the modelled code depends on: truthiness,
 * the `||` fallback operator, and the global `parseInt` with no radix
 * argument, applied to the already-parsed values of a JSON request body.
 * Numbers are integers here; fractional and exponent-notation numbers are
 * not part of the model.
 */
module JsValues {
  import opened Wrappers
  import opened Strings

  /** A JSON scalar as a request handler sees it; `Undefined` stands for a
      missing property. */
  datatype Value = Undefined | Null | Bool(b: bool) | Num(n: int) | Str(s: string)

  /** JavaScript truthiness: `undefined`, `null`, `false`, `0` and `""` are
      falsy. */
  predicate Truthy(v: Value) {
    match v
    case Undefined => false
    case Null => false
    case Bool(b) => b
    case Num(n) => n != 0
    case Str(s) => s != ""
  }

  /** `a || b`: the first operand when it is truthy, otherwise the second,
      whatever it is. */
  function Or(a: Value, b: Value): (r: Value)
    ensures Truthy(r) <==> Truthy(a) || Truthy(b)
    ensures r == a || r == b
    ensures Truthy(a) ==> r == a
  {
    if Truthy(a) then a else b
  }

  /** An optional string as a value: `undefined` when absent. */
  function OfOption(o: Option<string>): (v: Value)
    ensures v.Undefined? <==> o.None?
    ensures o.Some? ==> v == Str(o.value)
  {
    match o
    case None => Undefined
    case Some(s) => Str(s)
  }

  /** `searchParams.get(name) || fallback`: an absent or empty query
      parameter takes the fallback. */
  function ParamOr(p: Option<string>, fallback: string): string {
    if p.Some? && p.value != "" then p.value else fallback
  }

  predicate IsDecimalDigit(c: char) { '0' <= c <= '9' }

  predicate IsHexDigit(c: char) {
    IsDecimalDigit(c) || 'a' <= c <= 'f' || 'A' <= c <= 'F'
  }

  function HexDigitValue(c: char): (d: nat)
    requires IsHexDigit(c)
    ensures d < 16
  {
    if IsDecimalDigit(c) then c as int - '0' as int
    else if 'a' <= c <= 'f' then c as int - 'a' as int + 10
    else c as int - 'A' as int + 10
  }

  /** The longest prefix of `s` made of digits of the given radix
      (10 or 16). */
  function DigitRun(s: string, hex: bool): (r: string)
    ensures |r| <= |s| && r == s[..|r|]
    ensures forall k :: 0 <= k < |r| ==> (if hex then IsHexDigit(r[k]) else IsDecimalDigit(r[k]))
    ensures |r| < |s| ==> !(if hex then IsHexDigit(s[|r|]) else IsDecimalDigit(s[|r|]))
  {
    if s != [] && (if hex then IsHexDigit(s[0]) else IsDecimalDigit(s[0]))
    then [s[0]] + DigitRun(s[1..], hex)
    else []
  }

  /** The number a run of digits denotes, most significant digit first. */
  function DigitsValue(ds: string, hex: bool): nat
    requires forall k :: 0 <= k < |ds| ==> (if hex then IsHexDigit(ds[k]) else IsDecimalDigit(ds[k]))
  {
    if ds == [] then 0
    else
      (if hex then 16 else 10) * DigitsValue(ds[..|ds| - 1], hex)
      + HexDigitValue(ds[|ds| - 1])
  }

  /** The number a digit run at the start of `body` denotes, `None` when
      there is no digit. */
  function ParseRun(body: string, hex: bool): Option<int> {
    var run := DigitRun(body, hex);
    if run == [] then None else Some(DigitsValue(run, hex))
  }

  /** An unsigned numeral: hexadecimal after a `0x` or `0X` prefix,
      decimal otherwise. */
  function ParseUnsigned(u: string): Option<int> {
    if |u| >= 2 && u[0] == '0' && (u[1] == 'x' || u[1] == 'X') then ParseRun(u[2..], true)
    else ParseRun(u, false)
  }

  /** `parseInt(s)`: skip leading white space, read an optional sign and an
      optional `0x`/`0X` prefix, then the longest run of digits; no digit at
      all gives `NaN` (here `None`). */
  function ParseIntString(s: string): Option<int>
  {
    var t := TrimStart(s);
    if t != [] && t[0] == '-' then
      match ParseUnsigned(t[1..])
      case None => None
      case Some(m) => Some(-m)
    else if t != [] && t[0] == '+' then ParseUnsigned(t[1..])
    else ParseUnsigned(t)
  }

  function DecimalDigit(d: nat): (c: char)
    requires d < 10
    ensures IsDecimalDigit(c) && HexDigitValue(c) == d
  {
    (d + '0' as int) as char
  }

  /** The decimal numeral of a natural number, without leading zeros. */
  function DecimalString(n: nat): (s: string)
    ensures s != []
    ensures forall k :: 0 <= k < |s| ==> IsDecimalDigit(s[k])
    ensures |s| > 1 ==> s[0] != '0'
  {
    if n < 10 then [DecimalDigit(n)] else DecimalString(n / 10) + [DecimalDigit(n % 10)]
  }

  /** `String(n)` for an integer-valued number. */
  function NumberToString(n: int): string {
    if n < 0 then "-" + DecimalString(-n) else DecimalString(n)
  }

  /** `parseInt(v)`: the value is first converted to a string. */
  function ParseInt(v: Value): Option<int> {
    match v
    case Undefined => ParseIntString("undefined")
    case Null => ParseIntString("null")
    case Bool(b) => ParseIntString(if b then "true" else "false")
    case Num(n) => ParseIntString(NumberToString(n))
    case Str(s) => ParseIntString(s)
  }

  /** `parseFloat(v)` on an integral amount: leading white space, an
      optional sign, then the decimal digit run; no digit gives `NaN`
      (`None`). Digits after a decimal point are not read. */
  function ParseAmount(v: Value): (r: Option<int>)
    ensures v.Num? ==> r == Some(v.n)
  {
    match v
    case Num(n) => Some(n)
    case Str(s) =>
      var t := TrimStart(s);
      var negative := t != [] && t[0] == '-';
      var u := if t != [] && (t[0] == '-' || t[0] == '+') then t[1..] else t;
      var run := DigitRun(u, false);
      if run == [] then None
      else
        var magnitude: int := DigitsValue(run, false);
        Some(if negative then -magnitude else magnitude)
    case _ => None
  }

  /** A decimal numeral denotes the number it was written for. */
  lemma {:induction false} DecimalStringValue(n: nat)
    ensures DigitsValue(DecimalString(n), false) == n
  {
    if n >= 10 {
      DecimalStringValue(n / 10);
      var s := DecimalString(n);
      assert s[..|s| - 1] == DecimalString(n / 10);
    }
  }

  /** The digit run of a string made only of digits is the whole string. */
  lemma {:induction false} DigitRunAll(s: string)
    requires forall k :: 0 <= k < |s| ==> IsDecimalDigit(s[k])
    ensures DigitRun(s, false) == s
  {
    if s != [] {
      DigitRunAll(s[1..]);
    }
  }

  /** A numeral is read as the number it denotes. */
  lemma ParseUnsignedDigits(d: string)
    requires d != [] && forall k :: 0 <= k < |d| ==> IsDecimalDigit(d[k])
    ensures ParseUnsigned(d) == Some(DigitsValue(d, false))
  {
    if |d| >= 2 {
      assert IsDecimalDigit(d[1]);
    }
    DigitRunAll(d);
  }

  /** Without leading white space or sign, `parseInt` reads an unsigned
      numeral. */
  lemma ParseIntUnsigned(t: string)
    requires t != [] && !IsJsSpace(t[0]) && t[0] != '-' && t[0] != '+'
    ensures ParseIntString(t) == ParseUnsigned(t)
  {
    assert TrimStart(t) == t;
  }

  /** After a leading minus sign, `parseInt` negates the unsigned numeral
      that follows. */
  lemma ParseIntMinus(u: string, m: int)
    requires ParseUnsigned(u) == Some(m)
    ensures ParseIntString("-" + u) == Some(-m)
  {
    var t := "-" + u;
    assert t[1..] == u;
    assert TrimStart(t) == t by { assert !IsJsSpace(t[0]); }
  }

  /** `parseInt` reads a numeral as the number it denotes. */
  lemma ParseIntDigits(d: string)
    requires d != [] && forall k :: 0 <= k < |d| ==> IsDecimalDigit(d[k])
    ensures ParseIntString(d) == Some(DigitsValue(d, false))
  {
    assert IsDecimalDigit(d[0]);
    ParseIntUnsigned(d);
    ParseUnsignedDigits(d);
  }

  /** `parseInt` reads the decimal numeral of `n` as `n`. */
  lemma ParseIntNumeral(n: nat)
    ensures ParseIntString(DecimalString(n)) == Some(n)
  {
    DecimalStringValue(n);
    ParseIntDigits(DecimalString(n));
  }

  /** `parseInt(String(n)) == n`: the server reads back an integer the
      client sent as a number. */
  lemma ParseIntNumber(n: int)
    ensures ParseInt(Num(n)) == Some(n)
  {
    if n < 0 {
      var d := DecimalString(-n);
      DecimalStringValue(-n);
      ParseUnsignedDigits(d);
      ParseIntMinus(d, -n);
    } else {
      DecimalStringValue(n);
      ParseIntDigits(DecimalString(n));
    }
  }

  /** A string that starts with a letter other than a sign or a digit has
      no number in it for `parseInt`. */
  lemma ParseIntLetter(s: string)
    requires s != [] && 'a' <= s[0] <= 'z'
    ensures ParseIntString(s) == None
  {
    assert TrimStart(s) == s by { assert !IsJsSpace(s[0]); }
  }

  /** Neither `null`, `undefined` nor a boolean parses to a number. */
  lemma ParseIntNonNumeric(v: Value)
    requires v.Undefined? || v.Null? || v.Bool?
    ensures ParseInt(v) == None
  {
    match v
    case Undefined => ParseIntLetter("undefined");
    case Null => ParseIntLetter("null");
    case Bool(b) => ParseIntLetter(if b then "true" else "false");
  }
}
