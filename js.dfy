/** JavaScript values as the route handlers see them: request bodies after
    `request.json()`, query parameters after `searchParams.get`, and the
    result of `parseInt(text, 10)`. */
module Js {

  datatype Option<T> = None | Some(value: T)

  /** A JSON-like JavaScript value. Numbers are mathematical reals plus NaN;
      an array is represented by the object holding its index properties. */
  datatype JsValue =
    | Undefined
    | Null
    | Bool(b: bool)
    | Num(x: real)
    | NaN
    | Str(s: string)
    | Obj(props: map<string, JsValue>)

  /** JavaScript truthiness (`!v` is `!Truthy(v)`). */
  predicate Truthy(v: JsValue)
  {
    match v
    case Undefined => false
    case Null => false
    case Bool(b) => b
    case Num(x) => x != 0.0
    case NaN => false
    case Str(s) => s != ""
    case Obj(_) => true
  }

  /** The strings `typeof` can yield for these values ("undefined",
      "object", "boolean", "number", "string"). */
  datatype TypeName = UndefinedType | ObjectType | BooleanType | NumberType | StringType

  /** The `typeof` operator; `typeof null` is "object". */
  function TypeOf(v: JsValue): TypeName
  {
    match v
    case Undefined => UndefinedType
    case Null => ObjectType
    case Bool(_) => BooleanType
    case Num(_) => NumberType
    case NaN => NumberType
    case Str(_) => StringType
    case Obj(_) => ObjectType
  }

  /** `(payload || {})`: a falsy payload is replaced by an empty object. */
  function OrEmptyObject(payload: JsValue): (r: JsValue)
    ensures r.Obj? ==> r == payload || r.props == map[]
    ensures !Truthy(payload) ==> r == Obj(map[])
    ensures Truthy(payload) ==> r == payload
  {
    if Truthy(payload) then payload else Obj(map[])
  }

  /** Reading a property, as object destructuring does: only objects carry
      the properties the handlers look up; anything else yields undefined.
      Destructuring also reads inherited properties, but none of the keys the
      handlers read (itemName, itemCategory, itemPrice, name, email, role,
      status) exists on `Object.prototype`, so the object's own properties
      decide the result. */
  function Prop(v: JsValue, key: string): (r: JsValue)
    ensures !v.Obj? ==> r == Undefined
    ensures v.Obj? && key in v.props ==> r == v.props[key]
  {
    if v.Obj? && key in v.props then v.props[key] else Undefined
  }

  /** The field `key` of `const { key } = payload || {}`. */
  function Field(payload: JsValue, key: string): (r: JsValue)
    ensures !payload.Obj? ==> r == Undefined
    ensures r != Undefined ==> payload.Obj? && key in payload.props && r == payload.props[key]
    ensures payload.Obj? && key in payload.props ==> r == payload.props[key]
  {
    Prop(OrEmptyObject(payload), key)
  }

  /** `searchParams.get(key) || fallback`: an absent or empty parameter takes the fallback. */
  function ParamOr(param: Option<string>, fallback: string): (r: string)
    ensures param.Some? && param.value != "" ==> r == param.value
    ensures param.None? || param.value == "" ==> r == fallback
  {
    if param.Some? && param.value != "" then param.value else fallback
  }

  // ---------------------------------------------------------------------
  // parseInt(text, 10)
  // ---------------------------------------------------------------------

  /** The outcome of `parseInt`: NaN, or an integer. */
  datatype Parsed = NotANumber | Int(value: int)

  /** The white space and line terminators that `parseInt` skips: TAB, VT, FF,
      ZWNBSP, LF, CR, LS, PS and every space separator (Unicode category Zs). */
  predicate IsWhiteSpace(c: char)
  {
    var k := c as int;
    k == 0x09 || k == 0x0B || k == 0x0C || k == 0xFEFF || k == 0x0A || k == 0x0D
    || k == 0x2028 || k == 0x2029
    || k == 0x20 || k == 0xA0 || k == 0x1680 || (0x2000 <= k <= 0x200A)
    || k == 0x202F || k == 0x205F || k == 0x3000
  }

  predicate IsDigit(c: char)
  {
    '0' <= c <= '9'
  }

  function DigitValue(c: char): (d: nat)
    requires IsDigit(c)
    ensures d < 10
  {
    c as int - '0' as int
  }

  function DigitChar(d: nat): (c: char)
    requires d < 10
    ensures IsDigit(c) && DigitValue(c) == d
  {
    ('0' as int + d) as char
  }

  /** The text with its leading white space removed. */
  function TrimStart(s: string): (r: string)
    ensures r == [] || !IsWhiteSpace(r[0])
  {
    if |s| > 0 && IsWhiteSpace(s[0]) then TrimStart(s[1..]) else s
  }

  /** -1 after a leading '-', otherwise +1. */
  function SignOf(t: string): int
  {
    if |t| > 0 && t[0] == '-' then -1 else 1
  }

  /** The text after an optional leading '+' or '-'. */
  function Unsigned(t: string): (r: string)
    ensures r == t || (|t| > 0 && (t[0] == '+' || t[0] == '-') && r == t[1..])
  {
    if |t| > 0 && (t[0] == '+' || t[0] == '-') then t[1..] else t
  }

  /** The longest prefix of `s` made of decimal digits. */
  function DigitPrefix(s: string): (r: string)
    ensures forall i :: 0 <= i < |r| ==> IsDigit(r[i])
  {
    if |s| > 0 && IsDigit(s[0]) then [s[0]] + DigitPrefix(s[1..]) else []
  }

  /** `TrimStart` drops exactly the leading white space: what it removes is
      all white space and what it keeps is a suffix of the text. */
  lemma {:induction false} TrimStartIsSuffix(s: string)
    ensures var r := TrimStart(s);
            |r| <= |s| && r == s[|s| - |r|..]
            && forall i :: 0 <= i < |s| - |r| ==> IsWhiteSpace(s[i])
  {
    if |s| > 0 && IsWhiteSpace(s[0]) {
      TrimStartIsSuffix(s[1..]);
    }
  }

  /** `DigitPrefix` is the longest run of digits at the start of the text. */
  lemma {:induction false} DigitPrefixIsLongest(s: string)
    ensures var r := DigitPrefix(s);
            |r| <= |s| && r == s[..|r|] && (|r| == |s| || !IsDigit(s[|r|]))
  {
    if |s| > 0 && IsDigit(s[0]) {
      DigitPrefixIsLongest(s[1..]);
    }
  }

  /** The number a string of decimal digits denotes. */
  function DigitsValue(d: string): nat
    requires forall i :: 0 <= i < |d| ==> IsDigit(d[i])
  {
    if d == [] then 0 else DigitsValue(d[..|d| - 1]) * 10 + DigitValue(d[|d| - 1])
  }

  /** `parseInt(s, 10)`: skip leading white space, read an optional sign and
      the longest run of decimal digits after it; NaN when that run is empty.
      Anything after the digits is ignored. */
  function ParseInt(s: string): (r: Parsed)
    ensures r == NotANumber <==> var u := Unsigned(TrimStart(s)); u == [] || !IsDigit(u[0])
  {
    var t := TrimStart(s);
    var digits := DigitPrefix(Unsigned(t));
    if digits == [] then NotANumber else Int(SignOf(t) * DigitsValue(digits))
  }

  /** The decimal numeral of `n`, without leading zeros. */
  function Decimal(n: nat): (r: string)
    ensures |r| > 0
    ensures forall i :: 0 <= i < |r| ==> IsDigit(r[i])
  {
    if n < 10 then [DigitChar(n)] else Decimal(n / 10) + [DigitChar(n % 10)]
  }

  lemma {:induction false} DigitsValueOfDecimal(n: nat)
    ensures DigitsValue(Decimal(n)) == n
  {
    if n >= 10 {
      var d := Decimal(n);
      assert d[..|d| - 1] == Decimal(n / 10);
      DigitsValueOfDecimal(n / 10);
    }
  }

  lemma {:induction false} DigitPrefixStopsAtNonDigit(d: string, t: string)
    requires forall i :: 0 <= i < |d| ==> IsDigit(d[i])
    requires t == [] || !IsDigit(t[0])
    ensures DigitPrefix(d + t) == d
  {
    if d != [] {
      assert (d + t)[1..] == d[1..] + t;
      DigitPrefixStopsAtNonDigit(d[1..], t);
    }
  }

  lemma {:induction false} TrimStartSkipsWhiteSpace(w: string, t: string)
    requires forall i :: 0 <= i < |w| ==> IsWhiteSpace(w[i])
    requires t == [] || !IsWhiteSpace(t[0])
    ensures TrimStart(w + t) == t
  {
    if w != [] {
      assert (w + t)[1..] == w[1..] + t;
      TrimStartSkipsWhiteSpace(w[1..], t);
    }
  }

  /** Round trip: `parseInt` reads back the numeral of any natural number,
      whatever white space precedes it and whatever non-digit text follows it. */
  lemma ParseIntOfDecimal(w: string, n: nat, t: string)
    requires forall i :: 0 <= i < |w| ==> IsWhiteSpace(w[i])
    requires t == [] || !IsDigit(t[0])
    ensures ParseInt(w + Decimal(n) + t) == Int(n)
  {
    var d := Decimal(n);
    var dt := d + t;
    assert w + d + t == w + dt;
    assert dt[0] == d[0];
    TrimStartSkipsWhiteSpace(w, dt);
    assert TrimStart(w + dt) == dt;
    assert Unsigned(dt) == dt;
    DigitPrefixStopsAtNonDigit(d, t);
    assert DigitPrefix(Unsigned(dt)) == d;
    assert SignOf(dt) == 1;
    DigitsValueOfDecimal(n);
  }

  /** `parseInt` read off its three steps: the trimmed text, and the digits
      after its sign. */
  lemma ParseIntBySteps(s: string, trimmed: string, digits: string)
    requires TrimStart(s) == trimmed && DigitPrefix(Unsigned(trimmed)) == digits && digits != []
    ensures ParseInt(s) == Int(SignOf(trimmed) * DigitsValue(digits))
  {
  }

  /** `parseInt` of unsigned digits: white space, a run of digits (leading
      zeros allowed) and any text that does not start with a digit parse to
      the value of the digits. */
  lemma ParseIntOfDigits(w: string, d: string, t: string)
    requires forall i :: 0 <= i < |w| ==> IsWhiteSpace(w[i])
    requires d != [] && forall i :: 0 <= i < |d| ==> IsDigit(d[i])
    requires t == [] || !IsDigit(t[0])
    ensures ParseInt(w + d + t) == Int(DigitsValue(d))
  {
    var dt := d + t;
    RegroupThree(w, d, t);
    UnsignedText(d, t);
    TrimStartSkipsWhiteSpace(w, dt);
    DigitPrefixStopsAtNonDigit(d, t);
    ParseIntBySteps(w + dt, dt, d);
  }

  /** Concatenation regrouped to the right. */
  lemma Regroup(w: string, a: string, d: string, t: string)
    ensures w + a + d + t == w + (a + (d + t))
  {
  }

  /** Concatenation regrouped to the right. */
  lemma RegroupThree(w: string, d: string, t: string)
    ensures w + d + t == w + (d + t)
  {
  }

  /** Text starting with a digit has no sign and no leading white space. */
  lemma UnsignedText(d: string, t: string)
    requires d != [] && IsDigit(d[0])
    ensures !IsWhiteSpace((d + t)[0]) && Unsigned(d + t) == d + t && SignOf(d + t) == 1
  {
    assert (d + t)[0] == d[0];
  }

  /** Text starting with '+' or '-' loses that character and takes its sign. */
  lemma SignedText(sign: char, dt: string)
    requires sign == '+' || sign == '-'
    ensures !IsWhiteSpace(([sign] + dt)[0]) && Unsigned([sign] + dt) == dt
    ensures SignOf([sign] + dt) == if sign == '-' then -1 else 1
  {
    assert ([sign] + dt)[1..] == dt;
  }

  /** `parseInt` of signed digits: white space, a '+' or '-', a run of digits
      (leading zeros allowed) and any text that does not start with a digit
      parse to the digits' value, negated after '-'. */
  lemma ParseIntOfSignedDigits(w: string, sign: char, d: string, t: string)
    requires forall i :: 0 <= i < |w| ==> IsWhiteSpace(w[i])
    requires sign == '+' || sign == '-'
    requires d != [] && forall i :: 0 <= i < |d| ==> IsDigit(d[i])
    requires t == [] || !IsDigit(t[0])
    ensures ParseInt(w + [sign] + d + t) == Int((if sign == '-' then -1 else 1) * DigitsValue(d))
  {
    var dt := d + t;
    var st := [sign] + dt;
    Regroup(w, [sign], d, t);
    SignedText(sign, dt);
    TrimStartSkipsWhiteSpace(w, st);
    DigitPrefixStopsAtNonDigit(d, t);
    ParseIntBySteps(w + st, st, d);
  }

  /** `parseInt` of a minus sign followed by a numeral is the negated number. */
  lemma ParseIntOfNegative(n: nat)
    ensures ParseInt("-" + Decimal(n)) == Int(-(n as int))
  {
    var d := Decimal(n);
    TrimStartSkipsWhiteSpace([], "-" + d);
    assert [] + ("-" + d) == "-" + d;
    assert Unsigned("-" + d) == d;
    DigitPrefixStopsAtNonDigit(d, []);
    assert d + [] == d;
    DigitsValueOfDecimal(n);
  }

  /** Text with no digit at the start (after white space and an optional sign) is NaN. */
  lemma ParseIntWithoutDigits(s: string)
    requires var u := Unsigned(TrimStart(s)); u == [] || !IsDigit(u[0])
    ensures ParseInt(s) == NotANumber
  {
  }
}
