/**
 * The integer, boolean and byte fragment of the constant evaluator: the
 * values it computes with, the conversions between them, literal decoding,
 * the unary and non-arithmetic binary operators, index access and the Yul
 * literal and bitwise builtins.
 *
 * A `Decimal` is held as an exact fraction. A JavaScript string is held as
 * its UTF-8 bytes, which is what every conversion of a string reads.
 */
module EvalConst {
  import opened Wrappers
  import opened Numeric
  import opened BigIntBits
  import opened JsStrings
  import Hex

  type Denominator = d: int | d > 0 witness 1

  /** A decimal.js `Decimal`, as the fraction `num / den`. */
  datatype Dec = Dec(num: int, den: Denominator)

  predicate DecIsInt(d: Dec) {
    d.num % d.den == 0
  }

  /** `a.equals(b)` */
  predicate DecEq(a: Dec, b: Dec) {
    a.num * b.den == b.num * a.den
  }

  /** `a.lessThan(b)` */
  predicate DecLt(a: Dec, b: Dec) {
    a.num * b.den < b.num * a.den
  }

  /** The evaluator's `Value`: `boolean | bigint | Decimal | string | Buffer`. */
  datatype Value =
    | VBool(b: bool)
    | VInt(i: int)
    | VDec(d: Dec)
    | VStr(s: seq<byte>)
    | VBuf(buf: seq<byte>)

  /** What the evaluator throws. */
  datatype Thrown =
    | EvalError     // the evaluator's own `EvalError`
    | PlainError    // a plain `Error`
    | DecimalError  // decimal.js rejecting a number string
    | SyntaxError   // `BigInt` rejecting a string
    | TypeError     // a method called on `undefined`

  /** `BigInt(s)` as a result: a string `BigInt` cannot read throws `SyntaxError`. */
  function BigIntOf(s: string): (r: Result<int, Thrown>)
    ensures r.Failure? ==> r.error == SyntaxError
  {
    match BigIntFromString(s)
    case Some(n) => Success(n)
    case None => Failure(SyntaxError)
  }

  /** `BigInt("0x" + buf.toString("hex"))` reads a non-empty buffer as a big-endian unsigned integer. */
  lemma HexOfBytes(bs: seq<byte>)
    requires |bs| > 0
    ensures BigIntOf("0x" + Hex.BytesToHex(bs)) == Success(BigEndian(bs))
  {
    Hex.HexBigInt(bs);
  }

  // ---------------------------------------------------------------------
  // `new Decimal(s)`
  // ---------------------------------------------------------------------

  /** Where the exponent mark `e`/`E` of a decimal string is, or `|v|`. */
  function ExponentMark(v: string): (k: nat)
    ensures k <= |v|
    ensures forall i :: 0 <= i < k ==> v[i] != 'e' && v[i] != 'E'
    ensures k < |v| ==> v[k] == 'e' || v[k] == 'E'
  {
    if |v| == 0 || v[0] == 'e' || v[0] == 'E' then 0 else 1 + ExponentMark(v[1..])
  }

  /** Where the decimal point of a mantissa is, or `|m|`. */
  function PointMark(m: string): (k: nat)
    ensures k <= |m|
    ensures forall i :: 0 <= i < k ==> m[i] != '.'
    ensures k < |m| ==> m[k] == '.'
  {
    if |m| == 0 || m[0] == '.' then 0 else 1 + PointMark(m[1..])
  }

  /** An exponent: an optional sign, then decimal digits. */
  function ParseExponent(x: string): Option<int> {
    if |x| > 0 && x[0] == '-' then Negate(ParseDigits(x[1..], 10))
    else if |x| > 0 && x[0] == '+' then ParseDigits(x[1..], 10)
    else ParseDigits(x, 10)
  }

  /** `m * 10^e` */
  function Scaled(m: nat, e: int): (d: Dec)
    ensures e >= 0 ==> d.den == 1
  {
    if e >= 0 then Dec(m * Pow(10, e), 1) else Dec(m, Pow(10, -e))
  }

  /**
   * The unsigned forms decimal.js reads that a Solidity number literal can
   * take: `0x` followed by hex digits, or digits with an optional point and
   * an optional exponent (`^(\d+(\.\d*)?|\.\d+)(e[+-]?\d+)?$`, any case).
   */
  function UnsignedDecimal(v: string): Option<Dec> {
    if |v| >= 2 && v[0] == '0' && (v[1] == 'x' || v[1] == 'X') then
      match ParseDigits(v[2..], 16)
      case Some(n) => Some(Dec(n, 1))
      case None => None
    else
      var k := ExponentMark(v);
      var mantissa := v[..k];
      var exponent := if k == |v| then Some(0) else ParseExponent(v[k + 1..]);
      var p := PointMark(mantissa);
      var whole := mantissa[..p];
      var fraction := if p < |mantissa| then mantissa[p + 1..] else "";
      if exponent.None? || !AllDigits(whole, 10) || !AllDigits(fraction, 10) || |whole| + |fraction| == 0 then None
      else
        assert AllDigits(whole + fraction, 10);
        Some(Scaled(DigitsValue(whole + fraction, 10), exponent.value - |fraction|))
  }

  /** `new Decimal(s)`: a leading `-` or `+` sign, then the unsigned forms. */
  function DecimalOf(s: string): Option<Dec> {
    if |s| > 0 && s[0] == '-' then
      match UnsignedDecimal(s[1..])
      case Some(d) => Some(Dec(-d.num, d.den))
      case None => None
    else if |s| > 0 && s[0] == '+' then UnsignedDecimal(s[1..])
    else UnsignedDecimal(s)
  }

  /** A string of decimal digits holds neither an exponent mark nor a point. */
  lemma {:induction false} DigitsHaveNoMarks(s: string)
    requires AllDigits(s, 10)
    ensures ExponentMark(s) == |s| && PointMark(s) == |s|
  {
    if |s| > 0 {
      assert IsDigit(s[0], 10);
      DigitsHaveNoMarks(s[1..]);
    }
  }

  /** Plain decimal digits are read as the integer they spell. */
  lemma UnsignedDecimalDigits(s: string)
    requires |s| > 0 && AllDigits(s, 10)
    requires !(|s| >= 2 && s[0] == '0' && (s[1] == 'x' || s[1] == 'X'))
    ensures UnsignedDecimal(s) == Some(Dec(DigitsValue(s, 10), 1))
  {
    DigitsHaveNoMarks(s);
    var k := ExponentMark(s);
    assert s[..k] == s;
    assert PointMark(s[..k]) == |s|;
    assert s + "" == s;
    ScaledByOne(DigitsValue(s, 10));
  }

  /** Scaling by `10^0` leaves the integer as it is. */
  lemma ScaledByOne(m: nat)
    ensures Scaled(m, 0) == Dec(m, 1)
  {
    assert Pow(10, 0) == 1;
  }

  /** The decimal digits of a natural number are read back as that number. */
  lemma DecimalOfDigits(n: nat)
    ensures DecimalOf(NatToString(n, 10)) == Some(Dec(n, 1))
  {
    var s := NatToString(n, 10);
    NatToStringValue(n, 10);
    assert IsDigit(s[0], 10);
    assert |s| >= 2 ==> IsDigit(s[1], 10);
    UnsignedDecimalDigits(s);
  }

  /** A `0x`-prefixed hex string is read as the integer its digits spell. */
  lemma DecimalOfHex(h: string)
    requires |h| > 0 && AllDigits(h, 16)
    ensures DecimalOf("0x" + h) == Some(Dec(DigitsValue(h, 16), 1))
  {
    assert ("0x" + h)[2..] == h;
  }

  // ---------------------------------------------------------------------
  // Conversions
  // ---------------------------------------------------------------------

  /** `toDec(v)` */
  function ToDec(v: Value): (r: Result<Dec, Thrown>)
    ensures r.Failure? <==> v.VBool?
    ensures r.Failure? ==> r.error == PlainError
    ensures v.VDec? ==> r == Success(v.d)
  {
    match v
    case VDec(d) => Success(d)
    case VInt(i) => Success(Dec(i, 1))
    case VStr(s) => DecOfBytes(s)
    case VBuf(s) => DecOfBytes(s)
    case VBool(_) => Failure(PlainError)
  }

  /** `new Decimal(bytes.length === 0 ? 0 : "0x" + hex)` for the bytes of a string or buffer. */
  function DecOfBytes(s: seq<byte>): (r: Result<Dec, Thrown>)
    ensures r.Success?
  {
    if s == [] then Success(Dec(0, 1))
    else
      var h := Hex.BytesToHex(s);
      Hex.BytesToHexDigits(s);
      DecimalOfHex(h);
      Success(DecimalOf("0x" + h).value)
  }

  /** A string or buffer is the decimal of its big-endian unsigned value (0 when empty). */
  lemma ToDecBytes(s: seq<byte>)
    ensures ToDec(VStr(s)) == ToDec(VBuf(s)) == Success(Dec(BigEndian(s), 1))
  {
    if s != [] {
      Hex.HexDigitsValue(s);
      DecimalOfHex(Hex.BytesToHex(s));
    }
  }

  /** `Decimal.toHex()` of an integral value: `0x` digits, with `-` in front when negative. */
  function DecToHex(q: int): string {
    if q < 0 then "-0x" + NatToString(-q, 16) else "0x" + NatToString(q, 16)
  }

  /** `toInt(v)` */
  function ToInt(v: Value): (r: Result<int, Thrown>)
    ensures v.VInt? ==> r == Success(v.i)
    ensures v.VBool? || (v.VDec? && !DecIsInt(v.d)) ==> r == Failure(PlainError)
  {
    match v
    case VInt(i) => Success(i)
    case VDec(d) => if DecIsInt(d) then BigIntOf(DecToHex(d.num / d.den)) else Failure(PlainError)
    case VStr(s) => if s == [] then Success(0) else BigIntOf("0x" + Hex.BytesToHex(s))
    case VBuf(s) => if s == [] then Success(0) else BigIntOf("0x" + Hex.BytesToHex(s))
    case VBool(_) => Failure(PlainError)
  }

  /** Strings and buffers are read as big-endian unsigned integers, the empty ones as 0. */
  lemma ToIntBytes(s: seq<byte>)
    ensures ToInt(VStr(s)) == ToInt(VBuf(s)) == Success(if s == [] then 0 else BigEndian(s))
  {
    ToIntByteText(VStr(s), s);
    ToIntByteText(VBuf(s), s);
  }

  /** One of the two byte-holding kinds of value, read as an integer. */
  lemma ToIntByteText(v: Value, s: seq<byte>)
    requires v == VStr(s) || v == VBuf(s)
    ensures ToInt(v) == Success(if s == [] then 0 else BigEndian(s))
  {
    if s != [] {
      HexOfBytes(s);
    }
  }

  /** `BigInt` rejects `-0x…`. */
  lemma NegativeHexRejected(h: string)
    requires |h| > 0 && AllDigits(h, 16)
    ensures BigIntFromString("-0x" + h) == None
  {
    var s := "-0x" + h;
    assert IsDigit(s[|s| - 1], 16);
    TrimUnchanged(s);
    assert !IsDigit(s[1..][1], 10);
  }

  /** `BigInt(q.toHex())` for a non-negative integer is `q`. */
  lemma HexOfNatural(q: nat)
    ensures BigIntOf(DecToHex(q)) == Success(q)
  {
    NatToStringValue(q, 16);
    BigIntOfHex(NatToString(q, 16));
  }

  /** `BigInt(q.toHex())` for a negative integer throws. */
  lemma HexOfNegative(q: int)
    requires q < 0
    ensures BigIntOf(DecToHex(q)) == Failure(SyntaxError)
  {
    NegativeHexRejected(NatToString(-q, 16));
  }

  /** An exact quotient has the sign of the dividend. */
  lemma ExactQuotientSign(a: int, b: Denominator)
    requires a % b == 0
    ensures a >= 0 <==> a / b >= 0
  {
    var q := a / b;
    assert a == q * b;
    if q >= 0 {
      MulLeft(0, q, b);
    } else {
      MulLeft(0, -q, b);
      assert (-q) * b == -(q * b);
    }
  }

  /** An integral decimal converts to itself when it is not negative; a negative one throws, as `BigInt("-0x…")` does. */
  lemma ToIntDecimal(d: Dec)
    requires DecIsInt(d)
    ensures d.num >= 0 ==> ToInt(VDec(d)) == Success(d.num / d.den)
    ensures d.num < 0 ==> ToInt(VDec(d)) == Failure(SyntaxError)
  {
    var q := d.num / d.den;
    ExactQuotientSign(d.num, d.den);
    if q >= 0 {
      HexOfNatural(q);
    } else {
      HexOfNegative(q);
    }
  }

  /** `coerceInteger(v)`, used where Yul treats every value as a word. */
  function CoerceInteger(v: Value): (r: Result<int, Thrown>)
    ensures v.VInt? ==> r == Success(v.i)
    ensures v.VStr? ==> r == Failure(PlainError)
    ensures v.VBool? ==> r == Success(if v.b then 1 else 0)
    ensures v.VBuf? ==> r == Success(1)
  {
    match v
    case VInt(i) => Success(i)
    case VStr(_) => Failure(PlainError)
    // `BigInt(d.toFixed())`: the digits of an integral value; a fraction point is a syntax error
    case VDec(d) => if DecIsInt(d) then BigIntOf(DecimalString(d.num / d.den)) else Failure(SyntaxError)
    case VBool(b) => Success(if b then 1 else 0)
    case VBuf(_) => Success(1)
  }

  /** `coerceInteger` and `toInt` agree on integers and on non-negative integral decimals; `coerceInteger` also takes negative ones. */
  lemma CoerceAgreesWithToInt(v: Value)
    requires v.VInt? || (v.VDec? && DecIsInt(v.d))
    ensures CoerceInteger(v).Success?
    ensures v.VInt? || v.d.num >= 0 ==> CoerceInteger(v) == ToInt(v)
  {
    if v.VDec? {
      DecimalStringRoundTrip(v.d.num / v.d.den);
      ToIntDecimal(v.d);
    }
  }

  // ---------------------------------------------------------------------
  // castToType
  // ---------------------------------------------------------------------

  /** The target types `castToType` distinguishes for strings and buffers. */
  datatype TypeName = BytesType | StringType | FixedBytesType(size: nat) | IntType | OtherType

  /** The bytes a cast to `bytesN` keeps: the first `n`, right-padded with zero bytes. */
  function FitBytes(s: seq<byte>, n: nat): (r: seq<byte>)
    ensures |r| == n
    ensures forall i :: 0 <= i < n ==> r[i] == if i < |s| then s[i] else 0
  {
    if |s| < n then s + Zeros(n - |s|) else s[..n]
  }

  /** The string/buffer branches of `castToType(v, fromT, toT)`; an integer cast to an integer or fixed-bytes type is not part of this model. */
  function CastToType(v: Value, toT: TypeName): (r: Result<Value, Thrown>)
    requires !(v.VInt? && (toT.IntType? || toT.FixedBytesType?))
    ensures v.VStr? && toT == BytesType ==> r == Success(VBuf(v.s))
    ensures v.VBuf? && toT == StringType ==> r == Success(VStr(v.buf))
    ensures (!((v.VStr? || v.VBuf?) && toT.FixedBytesType?) && !(v.VStr? && toT == BytesType)
      && !(v.VBuf? && toT == StringType)) ==> r == Success(v)
  {
    match v
    case VStr(s) =>
      if toT == BytesType then Success(VBuf(s))
      else if toT.FixedBytesType? then CastBytes(s, toT.size)
      else Success(v)
    case VBuf(s) =>
      if toT == StringType then Success(VStr(s))
      else if toT.FixedBytesType? then CastBytes(s, toT.size)
      else Success(v)
    case _ => Success(v)
  }

  /** A string's bytes or a buffer cast to `bytesN`. */
  function CastBytes(s: seq<byte>, n: nat): Result<Value, Thrown> {
    if |s| == 0 then Success(VInt(0))
    else
      var hex := if |s| < n then PadEnd(Hex.BytesToHex(s), 2 * n, '0') else Hex.BytesToHex(s[..n]);
      match BigIntOf("0x" + hex)
      case Success(i) => Success(VInt(i))
      case Failure(e) => Failure(e)
  }

  /** The bytes of a cast to `bytesN`, read big-endian. */
  lemma CastBytesFit(s: seq<byte>, n: nat)
    requires n > 0
    ensures CastBytes(s, n) == Success(VInt(BigEndian(FitBytes(s, n))))
  {
    if |s| == 0 {
      assert FitBytes(s, n) == Zeros(n);
      BigEndianOfZeros(n);
    } else if |s| < n {
      var t := s + Zeros(n - |s|);
      Hex.HexPadEnd(s, n);
      HexOfBytes(t);
      assert FitBytes(s, n) == t;
    } else {
      HexOfBytes(s[..n]);
      assert FitBytes(s, n) == s[..n];
    }
  }

  /** Casting to `bytesN` keeps the first `n` bytes, pads a shorter input with zero bytes, and reads the result big-endian. */
  lemma CastToFixedBytes(v: Value, n: nat)
    requires v.VStr? || v.VBuf?
    requires n > 0
    ensures CastToType(v, FixedBytesType(n)) == Success(VInt(BigEndian(FitBytes(if v.VStr? then v.s else v.buf, n))))
  {
    CastBytesFit(if v.VStr? then v.s else v.buf, n);
  }

  /** A string cast to `bytes` and back is the same string. */
  lemma BytesStringRoundTrip(s: seq<byte>)
    ensures CastToType(CastToType(VStr(s), BytesType).value, StringType) == Success(VStr(s))
  {
  }

  // ---------------------------------------------------------------------
  // Literals
  // ---------------------------------------------------------------------

  datatype LiteralKind = BoolLiteral | NumberLiteral | StringLiteral | HexStringLiteral | UnicodeStringLiteral

  /** A `Literal` node: its text may be absent, its hex form is always there. */
  datatype Literal = Literal(kind: LiteralKind, value: Option<string>, hexValue: string, subdenomination: Option<string>)

  /** An integral decimal as a `bigint`, any other one as itself (`demoteFromDec`). */
  function Demote(d: Dec): (v: Value)
    ensures v.VInt? <==> DecIsInt(d)
    ensures v.VInt? ==> v.i * d.den == d.num
    ensures v.VDec? ==> v.d == d
  {
    if DecIsInt(d) then VInt(d.num / d.den) else VDec(d)
  }

  /** A unit that is present: `undefined` and the empty string count as none. */
  predicate HasUnit(subdenomination: Option<string>) {
    subdenomination.Some? && subdenomination.value != ""
  }

  /**
   * `evalLiteralImpl(kind, value, subdenomination)`. `multipliers` maps each
   * unit (`wei`, `gwei`, `ether`, `seconds`, `minutes`, …) to its factor.
   */
  function EvalLiteralImpl(kind: LiteralKind, value: string, subdenomination: Option<string>, multipliers: map<string, nat>): (r: Result<Value, Thrown>)
    ensures kind == BoolLiteral ==> r.Success? && (r.value == VBool(true) <==> value == "true")
    ensures r.Failure? ==> kind == NumberLiteral && (r.error == DecimalError || r.error == EvalError)
    ensures kind == NumberLiteral && r.Success? ==> r.value.VInt? || r.value.VDec?
  {
    match kind
    case BoolLiteral => Success(VBool(value == "true"))
    case HexStringLiteral => Success(VBuf(Hex.BufferFromHex(value)))
    case StringLiteral => Success(VStr(Utf8Encode(value)))
    case UnicodeStringLiteral => Success(VStr(Utf8Encode(value)))
    case NumberLiteral =>
      match DecimalOf(RemoveAll(value, '_'))
      case None => Failure(DecimalError)
      case Some(dec) =>
        var val := Demote(dec);
        if !HasUnit(subdenomination) then Success(val)
        else if subdenomination.value !in multipliers then Failure(EvalError)
        else
          var m := multipliers[subdenomination.value];
          if val.VDec? then Success(Demote(Dec(dec.num * m, dec.den)))
          else Success(VInt(val.i * m))
  }

  /** Underscores in a number literal are ignored. */
  lemma LiteralUnderscores(value: string, subdenomination: Option<string>, multipliers: map<string, nat>)
    ensures EvalLiteralImpl(NumberLiteral, RemoveAll(value, '_'), subdenomination, multipliers)
         == EvalLiteralImpl(NumberLiteral, value, subdenomination, multipliers)
  {
    RemoveAllAbsent(RemoveAll(value, '_'), '_');
  }

  /** An integral number with a known unit is multiplied by the unit's factor. */
  lemma LiteralWithUnit(value: string, unit: string, multipliers: map<string, nat>, d: Dec)
    requires DecimalOf(RemoveAll(value, '_')) == Some(d) && DecIsInt(d)
    requires unit != "" && unit in multipliers
    ensures EvalLiteralImpl(NumberLiteral, value, Some(unit), multipliers) == Success(VInt(d.num / d.den * multipliers[unit]))
  {
  }

  /** A number with a unit missing from the table is an `EvalError`. */
  lemma LiteralUnknownUnit(value: string, unit: string, multipliers: map<string, nat>)
    requires DecimalOf(RemoveAll(value, '_')).Some?
    requires unit != "" && unit !in multipliers
    ensures EvalLiteralImpl(NumberLiteral, value, Some(unit), multipliers) == Failure(EvalError)
  {
  }

  /** The decimal digits of a natural number evaluate to that number. */
  lemma LiteralDigits(n: nat, multipliers: map<string, nat>)
    ensures EvalLiteralImpl(NumberLiteral, NatToString(n, 10), None, multipliers) == Success(VInt(n))
  {
    var s := NatToString(n, 10);
    RemoveAllAbsent(s, '_');
    DecimalOfDigits(n);
  }

  /** A hex string literal evaluates to the bytes its digits spell. */
  lemma HexLiteralRoundTrip(bs: seq<byte>, subdenomination: Option<string>, multipliers: map<string, nat>)
    ensures EvalLiteralImpl(HexStringLiteral, Hex.BytesToHex(bs), subdenomination, multipliers) == Success(VBuf(bs))
  {
    Hex.BufferFromHexRoundTrip(bs);
  }

  /**
   * `evalLiteral(node)`: a string literal whose text the compiler left out is
   * read from its hex form. A missing text reaches `evalLiteralImpl` as
   * `undefined`: a bool is then `false`, a number throws `TypeError`.
   */
  function EvalLiteral(node: Literal, multipliers: map<string, nat>): (r: Result<Value, Thrown>)
    ensures node.value.Some? && node.kind != HexStringLiteral ==>
      r == EvalLiteralImpl(node.kind, node.value.value, node.subdenomination, multipliers)
    ensures node.kind == HexStringLiteral ==>
      r == EvalLiteralImpl(HexStringLiteral, node.hexValue, node.subdenomination, multipliers)
  {
    var kind := if (node.kind == StringLiteral || node.kind == UnicodeStringLiteral) && node.value.None? then HexStringLiteral else node.kind;
    var value := if kind == HexStringLiteral then Some(node.hexValue) else node.value;
    match value
    case Some(text) => EvalLiteralImpl(kind, text, node.subdenomination, multipliers)
    case None => if kind == BoolLiteral then Success(VBool(false)) else Failure(TypeError)
  }

  /** A string literal without text evaluates to the bytes of its hex form. */
  lemma TextlessStringLiteral(kind: LiteralKind, bs: seq<byte>, subdenomination: Option<string>, multipliers: map<string, nat>)
    requires kind == StringLiteral || kind == UnicodeStringLiteral
    ensures EvalLiteral(Literal(kind, None, Hex.BytesToHex(bs), subdenomination), multipliers) == Success(VBuf(bs))
  {
    Hex.BufferFromHexRoundTrip(bs);
  }

  // ---------------------------------------------------------------------
  // Operators
  // ---------------------------------------------------------------------

  /** `~a` flips every bit of `a`. */
  lemma ComplementBits(a: int)
    ensures forall k: nat :: Bit(Not(a), k) == 1 - Bit(a, k)
  {
    forall k: nat
      ensures Bit(Not(a), k) == 1 - Bit(a, k)
    {
      NotBits(a, k);
    }
  }

  /** `evalUnaryImpl(operator, value)` */
  function EvalUnaryImpl(op: string, v: Value): (r: Result<Value, Thrown>)
    ensures r.Failure? ==> r.error == EvalError
    ensures op == "!" ==> (r.Success? <==> v.VBool?) && (v.VBool? ==> r.value == VBool(!v.b))
    ensures op == "~" ==> (r.Success? <==> v.VInt?)
    ensures op == "~" && v.VInt? ==> r.value.VInt? && forall k: nat :: Bit(r.value.i, k) == 1 - Bit(v.i, k)
    ensures op == "+" ==> (r.Success? <==> v.VInt? || v.VDec?) && (r.Success? ==> r.value == v)
    ensures op == "-" ==> (r.Success? <==> v.VInt? || v.VDec?)
    ensures op == "-" && v.VInt? ==> r.value == VInt(-v.i)
    ensures op == "-" && v.VDec? ==> r.value == VDec(Dec(-v.d.num, v.d.den))
    ensures op != "!" && op != "~" && op != "+" && op != "-" ==> r == Failure(EvalError)
  {
    if op == "!" then
      if v.VBool? then Success(VBool(!v.b)) else Failure(EvalError)
    else if op == "~" then
      if v.VInt? then
        ComplementBits(v.i);
        Success(VInt(Not(v.i)))
      else Failure(EvalError)
    else if op == "+" then
      if v.VInt? || v.VDec? then Success(v) else Failure(EvalError)
    else if op == "-" then
      match v
      case VDec(d) => Success(VDec(Dec(-d.num, d.den)))
      case VInt(i) => Success(VInt(-i))
      case _ => Failure(EvalError)
    else Failure(EvalError)
  }

  /** Negating a number twice gives it back. */
  lemma NegateTwice(v: Value)
    requires v.VInt? || v.VDec?
    ensures EvalUnaryImpl("-", EvalUnaryImpl("-", v).value) == Success(v)
  {
  }

  /** Complementing an integer twice gives it back. */
  lemma ComplementTwice(a: int)
    ensures EvalUnaryImpl("~", EvalUnaryImpl("~", VInt(a)).value) == Success(VInt(a))
  {
  }

  const LogicalOps: set<string> := {"&&", "||"}
  const EqualityOps: set<string> := {"==", "!="}
  const ComparisonOps: set<string> := {"<", ">", "<=", ">="}
  const ArithmeticOps: set<string> := {"+", "-", "*", "/", "%", "**"}
  const BitwiseOps: set<string> := {"<<", ">>", "&", "|", "^"}

  /** The comparison operators on decimals. */
  function Compare(op: string, a: Dec, b: Dec): bool
    requires op in ComparisonOps
  {
    if op == "<" then DecLt(a, b)
    else if op == "<=" then !DecLt(b, a)
    else if op == ">" then DecLt(b, a)
    else !DecLt(a, b)
  }

  /** The bitwise operators on integers. */
  function Bitwise(op: string, a: int, b: int): int
    requires op in BitwiseOps
  {
    if op == "<<" then ShiftLeft(a, b)
    else if op == ">>" then ShiftRight(a, b)
    else if op == "|" then Or(a, b)
    else if op == "&" then And(a, b)
    else Xor(a, b)
  }

  /** `evalBinaryImpl(operator, left, right)` for every operator group except arithmetic. */
  function EvalBinaryImpl(op: string, l: Value, r: Value): (res: Result<Value, Thrown>)
    requires op !in ArithmeticOps
    ensures op in LogicalOps ==> (res.Success? <==> l.VBool? && r.VBool?)
    ensures op == "&&" && res.Success? ==> res.value == VBool(l.b && r.b)
    ensures op == "||" && res.Success? ==> res.value == VBool(l.b || r.b)
    ensures op in EqualityOps ==> (res.Success? <==> !(l.VStr? && r.VStr?))
    ensures op == "==" && res.Success? && (l.VBool? || r.VBool?) ==> res.value == VBool(l == r)
    ensures op == "==" && res.Success? && !l.VBool? && !r.VBool? ==>
      res.value == VBool(DecEq(ToDec(l).value, ToDec(r).value))
    ensures op in ComparisonOps ==> (res.Success? <==> !(l.VStr? && r.VStr?) && !l.VBool? && !r.VBool?)
    ensures op in ComparisonOps && res.Success? ==> res.value == VBool(Compare(op, ToDec(l).value, ToDec(r).value))
    ensures op in BitwiseOps ==> (res.Success? <==> ToInt(l).Success? && ToInt(r).Success?)
    ensures op in BitwiseOps && res.Success? ==> res.value == VInt(Bitwise(op, ToInt(l).value, ToInt(r).value))
    ensures op !in LogicalOps + EqualityOps + ComparisonOps + BitwiseOps ==> res == Failure(EvalError)
  {
    if op in LogicalOps then
      if !(l.VBool? && r.VBool?) then Failure(EvalError)
      else if op == "&&" then Success(VBool(l.b && r.b))
      else Success(VBool(l.b || r.b))
    else if op in EqualityOps then
      if l.VStr? && r.VStr? then Failure(EvalError)
      else
        var isEqual := if l.VBool? || r.VBool? then l == r else DecEq(ToDec(l).value, ToDec(r).value);
        Success(VBool(if op == "==" then isEqual else !isEqual))
    else if op in ComparisonOps then
      if l.VStr? && r.VStr? then Failure(EvalError)
      else
        match ToDec(l)
        case Failure(e) => Failure(e)
        case Success(a) =>
          match ToDec(r)
          case Failure(e) => Failure(e)
          case Success(b) => Success(VBool(Compare(op, a, b)))
    else if op in BitwiseOps then
      match ToInt(l)
      case Failure(e) => Failure(e)
      case Success(a) =>
        match ToInt(r)
        case Failure(e) => Failure(e)
        case Success(b) => Success(VInt(Bitwise(op, a, b)))
    else Failure(EvalError)
  }

  /** On two integers the comparisons and equality are the ordinary ones. */
  lemma IntegerComparisons(a: int, b: int)
    ensures EvalBinaryImpl("<", VInt(a), VInt(b)) == Success(VBool(a < b))
    ensures EvalBinaryImpl("<=", VInt(a), VInt(b)) == Success(VBool(a <= b))
    ensures EvalBinaryImpl(">", VInt(a), VInt(b)) == Success(VBool(a > b))
    ensures EvalBinaryImpl(">=", VInt(a), VInt(b)) == Success(VBool(a >= b))
    ensures EvalBinaryImpl("==", VInt(a), VInt(b)) == Success(VBool(a == b))
    ensures EvalBinaryImpl("!=", VInt(a), VInt(b)) == Success(VBool(a != b))
  {
  }

  /** `!=` is the negation of `==`, and both reject the same operands. */
  lemma NotEqualNegatesEqual(l: Value, r: Value)
    ensures EvalBinaryImpl("!=", l, r).Success? <==> EvalBinaryImpl("==", l, r).Success?
    ensures EvalBinaryImpl("==", l, r).Success? ==>
      EvalBinaryImpl("!=", l, r).value == VBool(!EvalBinaryImpl("==", l, r).value.b)
  {
  }

  /** `==` is symmetric. */
  lemma EqualitySymmetric(l: Value, r: Value)
    ensures EvalBinaryImpl("==", l, r) == EvalBinaryImpl("==", r, l)
  {
  }

  /** `a < b` is `b > a`, errors included. */
  lemma LessIsFlippedGreater(l: Value, r: Value)
    ensures EvalBinaryImpl("<", l, r) == EvalBinaryImpl(">", r, l)
  {
  }

  /** An integer equals a buffer exactly when it is the buffer's big-endian value (0 for an empty buffer). */
  lemma EqualityReadsBytes(i: int, s: seq<byte>)
    ensures EvalBinaryImpl("==", VInt(i), VBuf(s)) == Success(VBool(i == if s == [] then 0 else BigEndian(s)))
  {
    ToDecBytes(s);
  }

  /** `(a << n) >> n == a` for a non-negative shift. */
  lemma ShiftOperatorsRoundTrip(a: int, n: nat)
    ensures EvalBinaryImpl(">>", EvalBinaryImpl("<<", VInt(a), VInt(n)).value, VInt(n)) == Success(VInt(a))
  {
    ShiftRoundTrip(a, n);
  }

  // ---------------------------------------------------------------------
  // Index access
  // ---------------------------------------------------------------------

  /** `b.toString(16)`, with a `0` in front when its length is odd. */
  function EvenHex(b: int): (h: string)
    ensures |h| % 2 == 0
  {
    var hex := if b < 0 then "-" + NatToString(-b, 16) else NatToString(b, 16);
    if |hex| % 2 != 0 then "0" + hex else hex
  }

  /**
   * `evalIndexAccess` once base and index are evaluated. An integer base is
   * read two hex digits at a time, a buffer base with `at`, which counts a
   * negative index from the end.
   */
  function EvalIndexAccess(base: Value, index: Value): (r: Result<Value, Thrown>)
    requires !base.VDec? && !index.VDec?
    ensures !index.VInt? ==> r == Failure(EvalError)
    ensures index.VInt? && base.VBuf? ==> (r.Success? <==> -|base.buf| <= index.i < |base.buf|)
    ensures index.VInt? && base.VBuf? && 0 <= index.i < |base.buf| ==> r.value == VInt(base.buf[index.i])
    ensures index.VInt? && base.VBuf? && -|base.buf| <= index.i < 0 ==> r.value == VInt(base.buf[|base.buf| + index.i])
    ensures index.VInt? && base.VInt? && 2 * index.i >= |EvenHex(base.i)| ==> r == Failure(EvalError)
    ensures index.VInt? && !base.VInt? && !base.VBuf? ==> r == Failure(EvalError)
  {
    if !index.VInt? then Failure(EvalError)
    else
      var i := index.i;
      match base
      case VInt(b) => IntegerByte(b, i)
      case VBuf(bs) =>
        var j := if i < 0 then |bs| + i else i;
        if 0 <= j < |bs| then Success(VInt(bs[j])) else Failure(EvalError)
      case _ => Failure(EvalError)
  }

  /** The integer branch of `evalIndexAccess`: the `i`-th pair of digits of the even-length hex form. */
  function IntegerByte(b: int, i: int): (r: Result<Value, Thrown>)
    ensures 2 * i >= |EvenHex(b)| ==> r == Failure(EvalError)
  {
    var hex := EvenHex(b);
    if 2 * i >= |hex| then Failure(EvalError)
    else
      match BigIntOf("0x" + Slice(hex, 2 * i, 2 * i + 2))
      case Success(n) => Success(VInt(n))
      case Failure(e) => Failure(e)
  }

  /** A leading zero digit does not change the value. */
  lemma {:induction false} LeadingZero(s: string, base: nat)
    requires base >= 2 && AllDigits(s, base)
    ensures AllDigits("0" + s, base)
    ensures DigitsValue("0" + s, base) == DigitsValue(s, base)
  {
    assert IsDigit('0', base);
    var t := "0" + s;
    assert AllDigits(t, base);
    if |s| > 0 {
      var init := s[..|s| - 1];
      LeadingZero(init, base);
      assert t[..|t| - 1] == "0" + init;
    } else {
      assert t[..0] == [];
    }
  }

  /** The hex digits of a non-negative integer, padded to even length, spell that integer. */
  lemma EvenHexValue(b: nat)
    ensures AllDigits(EvenHex(b), 16)
    ensures DigitsValue(EvenHex(b), 16) == b
  {
    var hex := NatToString(b, 16);
    NatToStringValue(b, 16);
    if |hex| % 2 != 0 {
      LeadingZero(hex, 16);
    }
  }

  /** Two hex digits after `0x` read as the byte they spell. */
  lemma PairValue(pair: string)
    requires |pair| == 2 && IsHexDigit(pair[0]) && IsHexDigit(pair[1])
    ensures BigIntOf("0x" + pair) == Success(16 * DigitValue(pair[0]).value + DigitValue(pair[1]).value)
  {
    Hex.TwoDigits(pair);
    BigIntOfHex(pair);
  }

  /** Indexing an integer within its even-length hex form reads the pair of digits there. */
  lemma IndexIntegerPair(b: int, i: int, h: string, v: int)
    requires h == EvenHex(b) && 0 <= i && 2 * i < |h|
    requires BigIntOf("0x" + h[2 * i..2 * i + 2]) == Success(v)
    ensures EvalIndexAccess(VInt(b), VInt(i)) == Success(VInt(v))
  {
    IntegerByteAt(b, i, h, v);
  }

  /** The integer branch reads the pair of digits at `2 * i`. */
  lemma IntegerByteAt(b: int, i: int, h: string, v: int)
    requires h == EvenHex(b) && 0 <= i && 2 * i < |h|
    requires BigIntOf("0x" + h[2 * i..2 * i + 2]) == Success(v)
    ensures IntegerByte(b, i) == Success(VInt(v))
  {
    EvenBound(i, |h|);
    assert Slice(h, 2 * i, 2 * i + 2) == h[2 * i..2 * i + 2];
  }

  /** A pair that starts inside a text of even length ends inside it. */
  lemma EvenBound(i: int, n: nat)
    requires 0 <= 2 * i < n && n % 2 == 0
    ensures 2 * i + 2 <= n
  {
  }

  /** Indexing an integer reads digits `2i` and `2i+1` of its even-length hex form as a byte. */
  lemma IndexIntegerDigits(b: int, i: nat, h: string)
    requires h == EvenHex(b) && AllDigits(h, 16) && 2 * i < |h|
    ensures EvalIndexAccess(VInt(b), VInt(i)) == Success(VInt(16 * DigitValue(h[2 * i]).value + DigitValue(h[2 * i + 1]).value))
  {
    EvenBound(i, |h|);
    var v := 16 * DigitValue(h[2 * i]).value + DigitValue(h[2 * i + 1]).value;
    PairAt(h, i);
    IndexIntegerPair(b, i, h, v);
  }

  /** Digits `2i` and `2i+1` of a hex string, after `0x`, read as the byte they spell. */
  lemma PairAt(h: string, i: nat)
    requires AllDigits(h, 16) && 2 * i + 1 < |h|
    ensures BigIntOf("0x" + h[2 * i..2 * i + 2]) == Success(16 * DigitValue(h[2 * i]).value + DigitValue(h[2 * i + 1]).value)
  {
    var pair := h[2 * i..2 * i + 2];
    assert pair[0] == h[2 * i] && pair[1] == h[2 * i + 1];
    assert IsDigit(h[2 * i], 16) && IsDigit(h[2 * i + 1], 16);
    PairValue(pair);
  }

  /** Indexing a non-negative integer gives the byte spelt by digits `2i` and `2i+1` of its even-length hex form. */
  lemma IndexInteger(b: nat, i: nat)
    requires 2 * i < |EvenHex(b)|
    ensures AllDigits(EvenHex(b), 16)
    ensures DigitsValue(EvenHex(b), 16) == b
    ensures EvalIndexAccess(VInt(b), VInt(i))
         == Success(VInt(16 * DigitValue(EvenHex(b)[2 * i]).value + DigitValue(EvenHex(b)[2 * i + 1]).value))
  {
    EvenHexValue(b);
    IndexIntegerDigits(b, i, EvenHex(b));
  }

  // ---------------------------------------------------------------------
  // Yul
  // ---------------------------------------------------------------------

  datatype YulLiteralKind = YulNumber | YulString | YulBool

  /** `evalYulLiteral(expr)`: a string is its UTF-8 bytes right-padded to a 32-byte word. */
  function EvalYulLiteral(kind: YulLiteralKind, value: string): (r: Result<int, Thrown>)
    ensures kind == YulBool ==> r.Success? && (r.value == 1 <==> value == "true") && (r.value == 0 <==> value != "true")
    ensures kind == YulNumber ==> (r.Success? <==> BigIntFromString(value).Some?)
  {
    match kind
    case YulString => BigIntOf("0x" + PadEnd(Hex.BytesToHex(Utf8Encode(value)), 64, '0'))
    case YulBool => Success(if value == "true" then 1 else 0)
    case YulNumber => BigIntOf(value)
  }

  /** At most 32 bytes, right-padded to 64 hex digits, read as the left-aligned word. */
  lemma PaddedWord(b: seq<byte>)
    requires |b| <= 32
    ensures BigIntOf("0x" + PadEnd(Hex.BytesToHex(b), 64, '0')) == Success(BigEndian(b + Zeros(32 - |b|)))
  {
    Hex.HexPadEnd(b, 32);
    HexOfBytes(b + Zeros(32 - |b|));
  }

  /** More than 32 bytes are not padded. */
  lemma UnpaddedWord(b: seq<byte>)
    requires |b| > 32
    ensures BigIntOf("0x" + PadEnd(Hex.BytesToHex(b), 64, '0')) == Success(BigEndian(b))
  {
    HexOfBytes(b);
  }

  /** A Yul string literal of at most 32 bytes is the word holding its bytes left-aligned; a longer one keeps all its bytes. */
  lemma YulStringLiteral(value: string, bytes: seq<byte>)
    requires bytes == Utf8Encode(value)
    ensures |bytes| <= 32 ==> EvalYulLiteral(YulString, value) == Success(BigEndian(bytes + Zeros(32 - |bytes|)))
    ensures |bytes| > 32 ==> EvalYulLiteral(YulString, value) == Success(BigEndian(bytes))
  {
    StringWord(bytes);
  }

  /** The word a string literal's bytes stand for: right-padded when they fit in 32 bytes. */
  lemma StringWord(b: seq<byte>)
    ensures BigIntOf("0x" + PadEnd(Hex.BytesToHex(b), 64, '0')) ==
      Success(if |b| <= 32 then BigEndian(b + Zeros(32 - |b|)) else BigEndian(b))
  {
    if |b| <= 32 {
      PaddedWord(b);
    } else {
      UnpaddedWord(b);
    }
  }

  /** A Yul number literal written in decimal evaluates to its value. */
  lemma YulNumberLiteral(n: int)
    ensures EvalYulLiteral(YulNumber, DecimalString(n)) == Success(n)
  {
    DecimalStringRoundTrip(n);
  }

  const YulBitwiseOps: set<string> := {"shl", "shr", "sar", "or", "and", "xor", "byte"}

  /** `evalYulBinaryBitwise(expr, lVal, rVal)`: the shifts take the amount first. */
  function EvalYulBinaryBitwise(op: string, l: int, r: int): (res: Result<int, Thrown>)
    ensures res.Failure? <==> op !in YulBitwiseOps
    ensures res.Failure? ==> res.error == EvalError
  {
    if op == "shl" then Success(ShiftLeft(r, l))
    else if op == "shr" || op == "sar" then Success(ShiftRight(r, l))
    else if op == "or" then Success(Or(l, r))
    else if op == "and" then Success(And(l, r))
    else if op == "xor" then Success(Xor(l, r))
    else if op == "byte" then Success(And(ShiftRight(r, 248 - l * 8), 255))
    else Failure(EvalError)
  }

  /** `shr(n, shl(n, x)) == x` */
  lemma YulShiftRoundTrip(x: int, n: nat)
    ensures EvalYulBinaryBitwise("shr", n, EvalYulBinaryBitwise("shl", n, x).value) == Success(x)
  {
    ShiftRoundTrip(x, n);
  }

  /**
   * The shifts move the second argument by the first: `shl(n, x)` is `x * 2^n` and
   * `shr(n, x)` (and `sar`) is `x / 2^n` rounded down; a negative amount shifts the
   * other way.
   */
  lemma YulShiftValues(n: int, x: int)
    ensures n >= 0 ==> EvalYulBinaryBitwise("shl", n, x) == Success(x * Pow(2, n))
    ensures n >= 0 ==> EvalYulBinaryBitwise("shr", n, x) == Success(x / Pow(2, n))
    ensures n >= 0 ==> EvalYulBinaryBitwise("sar", n, x) == Success(x / Pow(2, n))
    ensures n < 0 ==> EvalYulBinaryBitwise("shl", n, x) == Success(x / Pow(2, -n))
    ensures n < 0 ==> EvalYulBinaryBitwise("shr", n, x) == Success(x * Pow(2, -n))
  {
  }

  /** `and` acts bit by bit on the two's-complement bits of its arguments. */
  lemma YulAndBits(l: int, r: int, i: nat)
    ensures Bit(EvalYulBinaryBitwise("and", l, r).value, i) == Bit(l, i) * Bit(r, i)
  {
    var v := EvalYulBinaryBitwise("and", l, r).value;
    assert v == And(l, r);
    AndBits(l, r, i);
  }

  /** `or` acts bit by bit on the two's-complement bits of its arguments. */
  lemma YulOrBits(l: int, r: int, i: nat)
    ensures Bit(EvalYulBinaryBitwise("or", l, r).value, i) == if Bit(l, i) == 1 || Bit(r, i) == 1 then 1 else 0
  {
    var v := EvalYulBinaryBitwise("or", l, r).value;
    assert v == Or(l, r);
    OrBits(l, r, i);
  }

  /** `xor` acts bit by bit on the two's-complement bits of its arguments. */
  lemma YulXorBits(l: int, r: int, i: nat)
    ensures Bit(EvalYulBinaryBitwise("xor", l, r).value, i) == (Bit(l, i) + Bit(r, i)) % 2
  {
    var v := EvalYulBinaryBitwise("xor", l, r).value;
    assert v == Xor(l, r);
    XorBits(l, r, i);
  }

  /** `shr(n, x)` drops the `n` lowest bits of `x`. */
  lemma YulShiftRightBits(n: nat, x: int, i: nat)
    ensures Bit(EvalYulBinaryBitwise("shr", n, x).value, i) == Bit(x, i + n)
  {
    ShiftRightBits(x, n, i);
  }

  /** `2^(8k) == 256^k` */
  lemma {:induction false} PowBytes(k: nat)
    ensures Pow(2, 8 * k) == Pow(256, k)
  {
    if k > 0 {
      PowBytes(k - 1);
      PowAdd(2, 8 * (k - 1), 8);
      assert Pow(2, 8) == 256;
    }
  }

  /** Masking with `0xff` keeps the lowest byte. */
  lemma LowByte(y: int)
    ensures And(y, 255) == y % 256
  {
    AndMask(y, 8);
    assert Pow(2, 8) == 256;
  }

  /** `byte(n, x)` is byte `n` of the big-endian word `x`. */
  lemma YulByte(word: seq<byte>, n: nat)
    requires |word| == 32 && n < 32
    ensures EvalYulBinaryBitwise("byte", n, BigEndian(word)) == Success(word[n])
  {
    var x := BigEndian(word);
    PowBytes(31 - n);
    assert 248 - n * 8 == 8 * (31 - n);
    LowByte(x / Pow(256, 31 - n));
    BigEndianByteAt(word, n);
  }

  /** `byte(n, x)` is 0 for `n >= 32`. */
  lemma YulByteOutOfRange(x: int, n: nat)
    requires n >= 32
    ensures EvalYulBinaryBitwise("byte", n, x) == Success(0)
  {
    var p := Pow(256, n - 32);
    PowBytes(n - 31);
    assert 8 * (n - 31) == -(248 - n * 8);
    PowAdd(256, 1, n - 32);
    assert Pow(256, 1) == 256;
    var y := x * Pow(2, 8 * (n - 31));
    assert y == (x * p) * 256 by {
      MulAssoc(x, p, 256);
    }
    DivModUnique(y, 256, x * p, 0);
    LowByte(y);
  }
}
