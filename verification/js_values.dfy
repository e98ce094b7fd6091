/**
 * The part of JavaScript's value semantics that the option handling relies
 * on: truthiness, `x == null`, `x == true`, `String(x)` (as in `x + ''`) and
 * the conversion of a string to a number. Numbers are the safe integers.
 */
module JsValues {
  import opened Wrappers

  const MAX_SAFE_INTEGER: int := 0x1F_FFFF_FFFF_FFFF

  type SafeInt = n: int | -MAX_SAFE_INTEGER <= n <= MAX_SAFE_INTEGER

  datatype JsValue =
    | Undefined
    | Null
    | Bool(b: bool)
    | Num(n: SafeInt)
    | Str(s: string)
    | Arr(elems: seq<JsValue>)

  /** Boolean(v): false for undefined, null, false, 0 and the empty string. */
  predicate Truthy(v: JsValue) {
    match v
    case Undefined => false
    case Null => false
    case Bool(b) => b
    case Num(n) => n != 0
    case Str(s) => s != ""
    case Arr(_) => true
  }

  /** `v == null`: loose equality with null holds for null and undefined only. */
  predicate IsNullish(v: JsValue) {
    v.Undefined? || v.Null?
  }

  function DigitChar(d: nat): (c: char)
    requires d < 10
    ensures '0' <= c <= '9'
  {
    "0123456789"[d]
  }

  function DigitValue(c: char): (d: nat)
    requires '0' <= c <= '9'
    ensures d < 10
  {
    (c as int - '0' as int) as nat
  }

  /** The decimal digits of n, most significant first, without leading zeros. */
  function NatToDecimal(n: nat): (r: string)
    ensures |r| > 0
    ensures forall i :: 0 <= i < |r| ==> '0' <= r[i] <= '9'
  {
    if n < 10 then [DigitChar(n)] else NatToDecimal(n / 10) + [DigitChar(n % 10)]
  }

  /** Number::toString for an integer. */
  function IntToDecimal(n: int): string {
    if n < 0 then "-" + NatToDecimal(-n) else NatToDecimal(n)
  }

  /** String(v); an array is joined with "," and its null or undefined elements print as "". */
  function ToJsString(v: JsValue): string
    decreases v
  {
    match v
    case Undefined => "undefined"
    case Null => "null"
    case Bool(b) => if b then "true" else "false"
    case Num(n) => IntToDecimal(n)
    case Str(s) => s
    case Arr(xs) => Join(xs)
  }

  function Join(xs: seq<JsValue>): string
    decreases xs
  {
    if |xs| == 0 then ""
    else
      var first := if IsNullish(xs[0]) then "" else ToJsString(xs[0]);
      if |xs| == 1 then first else first + "," + Join(xs[1..])
  }

  /** The white space and line terminators that string-to-number conversion trims. */
  predicate IsJsSpace(c: char) {
    || '\U{0009}' <= c <= '\U{000D}'
    || c == '\U{0020}' || c == '\U{00A0}' || c == '\U{1680}'
    || '\U{2000}' <= c <= '\U{200A}'
    || c == '\U{2028}' || c == '\U{2029}' || c == '\U{202F}' || c == '\U{205F}'
    || c == '\U{3000}' || c == '\U{FEFF}'
  }

  function TrimStart(s: string): (r: string)
    ensures |r| <= |s|
  {
    if |s| > 0 && IsJsSpace(s[0]) then TrimStart(s[1..]) else s
  }

  function TrimEnd(s: string): (r: string)
    ensures |r| <= |s|
  {
    if |s| > 0 && IsJsSpace(s[|s| - 1]) then TrimEnd(s[..|s| - 1]) else s
  }

  predicate IsDigits(s: string) {
    |s| > 0 && forall i :: 0 <= i < |s| ==> '0' <= s[i] <= '9'
  }

  /** The value of a string of decimal digits. */
  function DigitsValue(s: string): nat
    requires forall i :: 0 <= i < |s| ==> '0' <= s[i] <= '9'
  {
    if |s| == 0 then 0 else 10 * DigitsValue(s[..|s| - 1]) + DigitValue(s[|s| - 1])
  }

  /**
   * Number(s) for an integral decimal literal with an optional sign, after
   * trimming; the empty string is 0. Every other string is taken as NaN
   * (`None`).
   */
  function StringToNumber(s: string): Option<int> {
    var t := TrimEnd(TrimStart(s));
    if t == "" then Some(0)
    else if t[0] == '-' && IsDigits(t[1..]) then Some(-(DigitsValue(t[1..]) as int))
    else if t[0] == '+' && IsDigits(t[1..]) then Some(DigitsValue(t[1..]))
    else if IsDigits(t) then Some(DigitsValue(t))
    else None
  }

  /**
   * `v == true`: true becomes 1 and v is compared with it as a number; an
   * array is first turned into its string.
   */
  predicate LooseEqualsTrue(v: JsValue) {
    match v
    case Undefined => false
    case Null => false
    case Bool(b) => b
    case Num(n) => n == 1
    case Str(s) => StringToNumber(s) == Some(1)
    case Arr(xs) => StringToNumber(Join(xs)) == Some(1)
  }

  lemma {:induction false} DigitsValueOfDecimal(n: nat)
    ensures DigitsValue(NatToDecimal(n)) == n
  {
    if n >= 10 {
      var r := NatToDecimal(n);
      assert r[..|r| - 1] == NatToDecimal(n / 10);
      DigitsValueOfDecimal(n / 10);
    }
  }

  lemma {:induction false} TrimDigits(s: string)
    requires |s| > 0 && (s[0] == '-' || '0' <= s[0] <= '9')
    requires forall i :: 1 <= i < |s| ==> '0' <= s[i] <= '9'
    ensures TrimEnd(TrimStart(s)) == s
  {
    assert TrimStart(s) == s;
    assert !IsJsSpace(s[|s| - 1]);
  }

  lemma DigitsRead(d: string)
    requires IsDigits(d)
    ensures StringToNumber(d) == Some(DigitsValue(d) as int)
    ensures StringToNumber("-" + d) == Some(-(DigitsValue(d) as int))
  {
    TrimDigits(d);
    var m := "-" + d;
    assert m[1..] == d;
    TrimDigits(m);
  }

  /** Printing an integer and reading the string back as a number gives the integer. */
  lemma DecimalRoundTrip(n: int)
    ensures StringToNumber(IntToDecimal(n)) == Some(n)
  {
    var m: nat := if n < 0 then -n else n;
    DigitsValueOfDecimal(m);
    DigitsRead(NatToDecimal(m));
  }
}
