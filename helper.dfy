/**
 * The client's tri-state boolean codec: a form value of any JavaScript type is read
 * as true, false or "no value" with the language's loose equality, and written back
 * as "1", "0" or null.
 */
module Helper {
  import opened Wrappers

  // ---------------------------------------------------------------------------
  // JavaScript values, as far as loose equality looks at them
  // ---------------------------------------------------------------------------

  /** A JavaScript number; finite values are kept exactly (see README on rounding). */
  datatype NumberValue = NaN | PositiveInfinity | NegativeInfinity | Finite(r: real)

  /** A primitive value. */
  datatype Primitive =
    | Undefined
    | Null
    | Bool(b: bool)
    | Number(n: NumberValue)
    | BigInt(i: int)
    | Str(s: string)

  /** A value: a primitive, or an object given by the primitive its conversion (`ToPrimitive`) yields. */
  datatype JsValue = Prim(p: Primitive) | Object(toPrimitive: Primitive)

  // ---------------------------------------------------------------------------
  // StringToNumber (section 7.1.4.1.1 of ECMA-262)
  // ---------------------------------------------------------------------------

  /** The white space and line terminators `StringToNumber` ignores around the literal. */
  predicate IsJsSpace(c: char) {
    c == ' ' || ('\t' <= c <= '\r') || c == '\U{00A0}' || c == '\U{1680}'
    || ('\U{2000}' <= c <= '\U{200A}') || c == '\U{2028}' || c == '\U{2029}' || c == '\U{202F}'
    || c == '\U{205F}' || c == '\U{3000}' || c == '\U{FEFF}'
  }

  function TrimJsSpace(s: string): (r: string)
    ensures |r| <= |s|
    ensures r == [] || (!IsJsSpace(r[0]) && !IsJsSpace(r[|r| - 1]))
    decreases |s|
  {
    if s == [] then s
    else if IsJsSpace(s[0]) then TrimJsSpace(s[1..])
    else if IsJsSpace(s[|s| - 1]) then TrimJsSpace(s[..|s| - 1])
    else s
  }

  /** The value of a digit in the given base, if it is one. */
  function DigitValue(c: char, base: nat): (r: Option<nat>)
    ensures r.Some? ==> r.value < base
  {
    var v: int :=
      if '0' <= c <= '9' then c as int - '0' as int
      else if 'a' <= c <= 'z' then c as int - 'a' as int + 10
      else if 'A' <= c <= 'Z' then c as int - 'A' as int + 10
      else 36;
    if v < base then Some(v) else None
  }

  predicate AllDigits(s: string, base: nat) {
    forall i :: 0 <= i < |s| ==> DigitValue(s[i], base).Some?
  }

  /** The value of a digit string, most significant digit first. */
  function DigitsValue(s: string, base: nat): nat
    requires AllDigits(s, base)
  {
    if s == [] then 0
    else DigitsValue(s[..|s| - 1], base) * base + DigitValue(s[|s| - 1], base).value
  }

  /** 10 to an integer power. */
  function Pow10(e: int): (r: real)
    ensures r > 0.0
    decreases if e < 0 then -e else e
  {
    if e == 0 then 1.0 else if e > 0 then 10.0 * Pow10(e - 1) else Pow10(e + 1) / 10.0
  }

  /** The index of the first occurrence of `c`, or |s|. */
  function IndexOf(s: string, c: char): (r: nat)
    ensures r <= |s| && c !in s[..r] && (r < |s| ==> s[r] == c)
  {
    if s == [] then 0 else if s[0] == c then 0 else 1 + IndexOf(s[1..], c)
  }

  /** `SignedInteger` of an exponent part: an optional sign and at least one decimal digit. */
  function ExponentValue(s: string): Option<int> {
    if s != [] && (s[0] == '+' || s[0] == '-') then
      var digits := s[1..];
      if digits != [] && AllDigits(digits, 10) then
        var v: int := DigitsValue(digits, 10);
        Some(if s[0] == '-' then -v else v)
      else None
    else if s != [] && AllDigits(s, 10) then Some(DigitsValue(s, 10))
    else None
  }

  /** The mantissa `Digits[.Digits]` or `.Digits`: at least one digit, at most one point. */
  function MantissaValue(s: string): Option<real> {
    var point := IndexOf(s, '.');
    var whole := s[..point];
    var fraction := if point < |s| then s[point + 1..] else "";
    if whole + fraction != [] && AllDigits(whole, 10) && AllDigits(fraction, 10) then
      Some((DigitsValue(whole, 10) as real) + (DigitsValue(fraction, 10) as real) / Pow10(|fraction|))
    else None
  }

  /** `StrUnsignedDecimalLiteral`. */
  function UnsignedDecimalValue(s: string): NumberValue {
    if s == "Infinity" then PositiveInfinity
    else
      var e := if IndexOf(s, 'e') < IndexOf(s, 'E') then IndexOf(s, 'e') else IndexOf(s, 'E');
      var mantissa := MantissaValue(s[..e]);
      var exponent := if e < |s| then ExponentValue(s[e + 1..]) else Some(0);
      if mantissa.Some? && exponent.Some? then Finite(mantissa.value * Pow10(exponent.value)) else NaN
  }

  function Negate(n: NumberValue): NumberValue {
    match n
    case NaN => NaN
    case PositiveInfinity => NegativeInfinity
    case NegativeInfinity => PositiveInfinity
    case Finite(r) => Finite(-r)
  }

  /** `NonDecimalIntegerLiteral`: 0b, 0o or 0x (either case) followed by digits of that base. */
  function NonDecimalValue(s: string): Option<nat> {
    if |s| > 2 && s[0] == '0' then
      var base: nat := if s[1] in "bB" then 2 else if s[1] in "oO" then 8 else if s[1] in "xX" then 16 else 0;
      if base != 0 && AllDigits(s[2..], base) then Some(DigitsValue(s[2..], base)) else None
    else None
  }

  /** `StringToNumber`: the numeric literal between optional white space; empty is 0, anything else NaN. */
  function StringToNumber(s: string): NumberValue {
    var t := TrimJsSpace(s);
    if t == [] then Finite(0.0)
    else if NonDecimalValue(t).Some? then Finite(NonDecimalValue(t).value as real)
    else if t[0] == '+' then UnsignedDecimalValue(t[1..])
    else if t[0] == '-' then Negate(UnsignedDecimalValue(t[1..]))
    else UnsignedDecimalValue(t)
  }

  /** `StringToBigInt`: an optionally signed decimal integer or a non-decimal literal, or empty for 0. */
  function StringToBigInt(s: string): Option<int> {
    var t := TrimJsSpace(s);
    if t == [] then Some(0)
    else if NonDecimalValue(t).Some? then Some(NonDecimalValue(t).value)
    else if t[0] == '+' || t[0] == '-' then
      var digits := t[1..];
      if digits != [] && AllDigits(digits, 10) then
        var v: int := DigitsValue(digits, 10);
        Some(if t[0] == '-' then -v else v)
      else None
    else if AllDigits(t, 10) then Some(DigitsValue(t, 10))
    else None
  }

  // ---------------------------------------------------------------------------
  // Loose equality (section 7.2.14 of ECMA-262) against a primitive
  // ---------------------------------------------------------------------------

  /** `Number::equal`: NaN equals nothing. */
  predicate NumberEqual(x: NumberValue, y: NumberValue) {
    !x.NaN? && x == y
  }

  /** A BigInt against a Number: equal when the number is finite with that integer value. */
  predicate BigIntEqualsNumber(i: int, n: NumberValue) {
    n.Finite? && n.r == i as real
  }

  function BoolToNumber(b: bool): NumberValue {
    Finite(if b then 1.0 else 0.0)
  }

  /** `IsLooselyEqual(x, y)` between two primitives. */
  predicate PrimitiveLooselyEqual(x: Primitive, y: Primitive)
    decreases x.Bool?, y.Bool?
  {
    // null and undefined equal each other and nothing else.
    if x.Undefined? || x.Null? then y.Undefined? || y.Null?
    else if y.Undefined? || y.Null? then false
    // Same type: strict equality.
    else if x.Bool? && y.Bool? then x.b == y.b
    // A boolean becomes the number 0 or 1, on either side.
    else if x.Bool? then PrimitiveLooselyEqual(Number(BoolToNumber(x.b)), y)
    else if y.Bool? then PrimitiveLooselyEqual(x, Number(BoolToNumber(y.b)))
    else match x
      case Number(a) =>
        (match y
         case Number(b) => NumberEqual(a, b)
         case Str(b) => NumberEqual(a, StringToNumber(b))
         case BigInt(b) => BigIntEqualsNumber(b, a)
         case _ => false)
      case BigInt(a) =>
        (match y
         case BigInt(b) => a == b
         case Str(b) => StringToBigInt(b) == Some(a)
         case Number(b) => BigIntEqualsNumber(a, b)
         case _ => false)
      case Str(a) =>
        (match y
         case Str(b) => a == b
         case Number(b) => NumberEqual(StringToNumber(a), b)
         case BigInt(b) => StringToBigInt(a) == Some(b)
         case _ => false)
      case _ => false
  }

  /** `x == y` with `y` a primitive: an object first converts itself to a primitive, unless `y` is null or undefined. */
  predicate LooselyEqual(x: JsValue, y: Primitive) {
    match x
    case Prim(p) => PrimitiveLooselyEqual(p, y)
    case Object(p) => !y.Undefined? && !y.Null? && PrimitiveLooselyEqual(p, y)
  }

  // ---------------------------------------------------------------------------
  // The codec
  // ---------------------------------------------------------------------------

  const One: NumberValue := Finite(1.0)

  /** `toBoolean`: null for null or undefined, true when loosely equal to "1", 1, "True", "true" or true. */
  function ToBoolean(val: JsValue): Option<bool> {
    if LooselyEqual(val, Null) then None
    else if LooselyEqual(val, Str("1")) || LooselyEqual(val, Number(One)) || LooselyEqual(val, Str("True"))
            || LooselyEqual(val, Str("true")) || LooselyEqual(val, Bool(true)) then Some(true)
    else Some(false)
  }

  /** `boolToString`: "1", "0" or null. */
  function BoolToString(val: JsValue): (r: Option<string>)
    ensures r.None? <==> ToBoolean(val).None?
    ensures r == Some("1") <==> ToBoolean(val) == Some(true)
    ensures r == Some("0") <==> ToBoolean(val) == Some(false)
  {
    var b := ToBoolean(val);
    if b.None? then None else if b.value then Some("1") else Some("0")
  }

  /** A string or null as a JavaScript value. */
  function AsJsValue(s: Option<string>): JsValue {
    if s.None? then Prim(Null) else Prim(Str(s.value))
  }

  // ---------------------------------------------------------------------------
  // What the codec means
  // ---------------------------------------------------------------------------

  /** The values read as true, type by type. */
  predicate PrimitiveMeansTrue(p: Primitive) {
    match p
    case Undefined => false
    case Null => false
    case Bool(b) => b
    case Number(n) => n == One
    case BigInt(i) => i == 1
    case Str(s) => s == "True" || s == "true" || StringToNumber(s) == One
  }

  predicate MeansTrue(val: JsValue) {
    match val
    case Prim(p) => PrimitiveMeansTrue(p)
    case Object(p) => PrimitiveMeansTrue(p)
  }

  /** Only null and undefined have no boolean; every other value is true or false. */
  lemma ToBooleanNull(val: JsValue)
    ensures ToBoolean(val).None? <==> val == Prim(Null) || val == Prim(Undefined)
  {
  }

  lemma StringOneIsOne()
    ensures StringToNumber("1") == One
  {
    assert TrimJsSpace("1") == "1";
    assert NonDecimalValue("1").None?;
    assert IndexOf("1", 'e') == 1 && IndexOf("1", 'E') == 1;
    assert IndexOf("1", '.') == 1;
    assert "1"[..1] == "1" && "1"[..0] == "";
    assert DigitsValue("1", 10) == 1;
    assert MantissaValue("1") == Some(1.0);
  }

  lemma TrueTextIsNotNumber(text: string)
    requires text == "True" || text == "true"
    ensures StringToNumber(text) == NaN && StringToBigInt(text).None?
  {
    assert TrimJsSpace(text) == text;
    assert !AllDigits(text, 10) by {
      assert DigitValue(text[0], 10).None?;
    }
    assert IndexOf(text, 'e') == 3;
    assert MantissaValue(text[..3]).None? by {
      assert IndexOf(text[..3], '.') == 3;
      assert text[..3][..3] == text[..3];
      assert DigitValue(text[..3][0], 10).None?;
    }
  }

  lemma BigIntOne()
    ensures StringToBigInt("1") == Some(1)
  {
    assert TrimJsSpace("1") == "1";
    assert DigitsValue("1", 10) == 1;
  }

  /** `p` is loosely equal to one of the five literals `toBoolean` accepts. */
  predicate MatchesTrueLiteral(p: Primitive) {
    PrimitiveLooselyEqual(p, Str("1")) || PrimitiveLooselyEqual(p, Number(One)) || PrimitiveLooselyEqual(p, Str("True"))
      || PrimitiveLooselyEqual(p, Str("true")) || PrimitiveLooselyEqual(p, Bool(true))
  }

  lemma MatchesTrueLiteralBool(b: bool)
    ensures MatchesTrueLiteral(Bool(b)) <==> b
  {
    StringOneIsOne();
    TrueTextIsNotNumber("True");
    TrueTextIsNotNumber("true");
    assert PrimitiveLooselyEqual(Bool(b), Str("1")) == PrimitiveLooselyEqual(Number(BoolToNumber(b)), Str("1"));
    assert PrimitiveLooselyEqual(Bool(b), Str("True")) == PrimitiveLooselyEqual(Number(BoolToNumber(b)), Str("True"));
    assert PrimitiveLooselyEqual(Bool(b), Str("true")) == PrimitiveLooselyEqual(Number(BoolToNumber(b)), Str("true"));
    assert PrimitiveLooselyEqual(Bool(b), Number(One)) == PrimitiveLooselyEqual(Number(BoolToNumber(b)), Number(One));
  }

  lemma MatchesTrueLiteralPrimitive(p: Primitive)
    ensures MatchesTrueLiteral(p) <==> PrimitiveMeansTrue(p)
  {
    match p
    case Undefined =>
    case Null =>
    case Bool(b) =>
      MatchesTrueLiteralBool(b);
    case Number(n) =>
      StringOneIsOne();
      TrueTextIsNotNumber("True");
      TrueTextIsNotNumber("true");
      assert PrimitiveLooselyEqual(p, Bool(true)) == PrimitiveLooselyEqual(p, Number(One));
    case BigInt(i) =>
      BigIntOne();
      TrueTextIsNotNumber("True");
      TrueTextIsNotNumber("true");
      assert PrimitiveLooselyEqual(p, Bool(true)) == PrimitiveLooselyEqual(p, Number(One));
    case Str(t) =>
      StringOneIsOne();
      assert PrimitiveLooselyEqual(p, Bool(true)) == PrimitiveLooselyEqual(p, Number(One));
  }

  /**
   * `toBoolean` is true exactly for true, the number 1, the BigInt 1, the strings
   * "True" and "true", the strings whose numeric value is 1 ("1", " 01 ", "1.0",
   * "+1e0", "0x1", ...) and the objects whose primitive is one of these.
   */
  lemma ToBooleanTrue(val: JsValue)
    ensures ToBoolean(val) == Some(true) <==> MeansTrue(val)
  {
    match val
    case Prim(p) =>
      MatchesTrueLiteralPrimitive(p);
    case Object(p) =>
      MatchesTrueLiteralPrimitive(p);
  }

  /** The whole of `toBoolean`: no value for null and undefined, otherwise whether the value means true. */
  lemma ToBooleanMeaning(val: JsValue)
    ensures ToBoolean(val) == if val == Prim(Null) || val == Prim(Undefined) then None else Some(MeansTrue(val))
  {
    ToBooleanNull(val);
    ToBooleanTrue(val);
  }

  lemma OnePointZeroMantissa()
    ensures MantissaValue("1.0") == Some(1.0)
  {
    assert IndexOf("1.0", '.') == 1;
    assert "1.0"[..1] == "1" && "1.0"[2..] == "0";
    assert DigitsValue("1", 10) == 1 && DigitsValue("0", 10) == 0;
  }

  lemma OnePointZeroValue()
    ensures StringToNumber("1.0") == One
  {
    assert TrimJsSpace("1.0") == "1.0";
    assert NonDecimalValue("1.0").None?;
    assert IndexOf("1.0", 'e') == 3 && IndexOf("1.0", 'E') == 3;
    assert "1.0"[..3] == "1.0";
    OnePointZeroMantissa();
  }

  /** Loose equality reads the decimal "1.0" as true. */
  lemma DecimalOneIsTrue()
    ensures ToBoolean(Prim(Str("1.0"))) == Some(true)
  {
    OnePointZeroValue();
    MatchesTrueLiteralPrimitive(Str("1.0"));
  }

  /** Loose equality reads the hexadecimal "0x1" as true. */
  lemma HexOneIsTrue()
    ensures ToBoolean(Prim(Str("0x1"))) == Some(true)
  {
    assert StringToNumber("0x1") == One by {
      assert TrimJsSpace("0x1") == "0x1";
      assert NonDecimalValue("0x1") == Some(1) by {
        assert "0x1"[2..] == "1";
        assert DigitsValue("1", 16) == 1;
      }
    }
    MatchesTrueLiteralPrimitive(Str("0x1"));
  }

  /** Reading back what `boolToString` wrote gives the same boolean. */
  lemma BoolToStringRoundTrip(val: JsValue)
    ensures ToBoolean(AsJsValue(BoolToString(val))) == ToBoolean(val)
  {
    ZeroIsFalse();
    ToBooleanTrue(Prim(Str("1")));
    StringOneIsOne();
  }

  lemma ZeroIsFalse()
    ensures ToBoolean(Prim(Str("0"))) == Some(false)
  {
    assert TrimJsSpace("0") == "0";
    assert NonDecimalValue("0").None?;
    assert IndexOf("0", 'e') == 1 && IndexOf("0", 'E') == 1 && IndexOf("0", '.') == 1;
    assert "0"[..1] == "0" && "0"[..0] == "";
    assert DigitsValue("0", 10) == 0;
    assert StringToNumber("0") == Finite(0.0);
    ToBooleanTrue(Prim(Str("0")));
  }

  /** Writing twice writes the same as writing once. */
  lemma BoolToStringIdempotent(val: JsValue)
    ensures BoolToString(AsJsValue(BoolToString(val))) == BoolToString(val)
  {
    BoolToStringRoundTrip(val);
  }
}
