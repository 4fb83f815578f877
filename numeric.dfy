/**
 * Numbers as text and as bytes: digit values, JavaScript's `BigInt(string)`
 * conversion, `toString(radix)` of a non-negative integer, and big-endian
 * reading of byte sequences (what `BigInt("0x" + buf.toString("hex"))` computes).
 */
module Numeric {
  import opened Wrappers
  import JsStrings

  /** A byte, as held by a Node.js `Buffer` or a `Uint8Array`. */
  type byte = b: int | 0 <= b < 256

  /**
   * The UTF-8 encoding of a string, as `new TextEncoder().encode(s)` and
   * `Buffer.from(s, "utf-8")` produce it: one to four bytes per code point.
   */
  function Utf8Encode(s: string): (r: seq<byte>)
    ensures |s| <= |r| <= 4 * |s|
    ensures (forall i :: 0 <= i < |s| ==> s[i] as int < 0x80) ==> |r| == |s|
  {
    if |s| == 0 then [] else Utf8Char(s[0]) + Utf8Encode(s[1..])
  }

  /** The bytes of one code point: a lead byte carrying the length, then 6-bit continuation bytes. */
  function Utf8Char(c: char): (r: seq<byte>)
    ensures 1 <= |r| <= 4
    ensures c as int < 0x80 <==> r == [c as int]
  {
    var n := c as int;
    if n < 0x80 then [n]
    else if n < 0x800 then [0xC0 + n / 0x40, 0x80 + n % 0x40]
    else if n < 0x1_0000 then [0xE0 + n / 0x1000, 0x80 + (n / 0x40) % 0x40, 0x80 + n % 0x40]
    else [0xF0 + n / 0x4_0000, 0x80 + (n / 0x1000) % 0x40, 0x80 + (n / 0x40) % 0x40, 0x80 + n % 0x40]
  }

  function Pow(b: nat, e: nat): (r: nat)
    ensures b > 0 ==> r > 0
  {
    if e == 0 then 1 else b * Pow(b, e - 1)
  }

  lemma {:induction false} PowAdd(b: nat, e1: nat, e2: nat)
    ensures Pow(b, e1 + e2) == Pow(b, e1) * Pow(b, e2)
  {
    if e1 > 0 {
      PowAdd(b, e1 - 1, e2);
      PowStep(b, e1 + e2, (e1 - 1) + e2);
      MulAssoc(b, Pow(b, e1 - 1), Pow(b, e2));
    }
  }

  /** One more factor: the power at `e` is `b` times the power at `e - 1`, written `e'`. */
  lemma PowStep(b: nat, e: nat, e': nat)
    requires e > 0 && e' == e - 1
    ensures Pow(b, e) == b * Pow(b, e') == Pow(b, e') * b
  {
  }

  /** One more digit keeps a value below the next power: `v < p` and `d < b` give `v * b + d < p * b`. */
  lemma DigitStep(v: nat, d: nat, b: nat, p: nat)
    requires v < p && d < b
    ensures v * b + d < p * b
  {
    assert (v + 1) * b <= p * b by {
      MulLeft(v + 1, p, b);
    }
  }

  lemma MulLeft(x: nat, y: nat, b: nat)
    requires x <= y
    ensures x * b <= y * b
  {
  }

  /** The value of `c` as a digit (0-9, a-f, A-F), if it is one. */
  function DigitValue(c: char): (r: Option<nat>)
    ensures r.Some? ==> r.value < 16
  {
    if '0' <= c <= '9' then Some(c as int - '0' as int)
    else if 'a' <= c <= 'f' then Some(c as int - 'a' as int + 10)
    else if 'A' <= c <= 'F' then Some(c as int - 'A' as int + 10)
    else None
  }

  predicate IsDigit(c: char, base: nat) {
    DigitValue(c).Some? && DigitValue(c).value < base
  }

  predicate IsHexDigit(c: char) {
    IsDigit(c, 16)
  }

  predicate AllDigits(s: string, base: nat) {
    forall i :: 0 <= i < |s| ==> IsDigit(s[i], base)
  }

  /** The value of a digit string, most significant digit first. */
  function DigitsValue(s: string, base: nat): (r: nat)
    requires AllDigits(s, base)
    ensures r < Pow(base, |s|)
  {
    if |s| == 0 then 0
    else
      var p := s[..|s| - 1];
      var v := DigitsValue(p, base);
      var d := DigitValue(s[|s| - 1]).value;
      AppendedDigitBound(v, d, base, |p|, |s|);
      v * base + d
  }

  /** A value below `base` to the `n` with one digit appended is below `base` to the `n + 1`. */
  lemma AppendedDigitBound(v: nat, d: nat, base: nat, n: nat, m: nat)
    requires v < Pow(base, n) && d < base && m == n + 1
    ensures 0 <= v * base + d < Pow(base, m)
  {
    DigitStep(v, d, base, Pow(base, n));
    PowStep(base, m, n);
  }

  /** Appending a digit multiplies the value by the base and adds the digit. */
  lemma DigitsValueSnoc(p: string, c: char, base: nat)
    requires AllDigits(p, base) && IsDigit(c, base)
    ensures AllDigits(p + [c], base)
    ensures DigitsValue(p + [c], base) == DigitsValue(p, base) * base + DigitValue(c).value
  {
    assert (p + [c])[..|p|] == p;
  }

  /** Digits in `base`, at least one: what JavaScript accepts after a radix prefix. */
  function ParseDigits(s: string, base: nat): (r: Option<nat>)
    ensures r.Some? <==> |s| > 0 && AllDigits(s, base)
  {
    if |s| > 0 && AllDigits(s, base) then Some(DigitsValue(s, base)) else None
  }

  function Negate(r: Option<nat>): Option<int> {
    match r
    case None => None
    case Some(v) => Some(0 - v)
  }

  /**
   * `BigInt(s)` for a string: surrounding whitespace is ignored, the empty
   * string is 0, `0x`/`0o`/`0b` (either case) introduce hexadecimal, octal and
   * binary digits without a sign, and otherwise an optional sign precedes
   * decimal digits. None stands for the SyntaxError thrown on anything else.
   */
  function BigIntFromString(s: string): Option<int> {
    var t := JsStrings.Trim(s);
    if t == "" then Some(0)
    else if |t| >= 2 && t[0] == '0' && RadixMark(t[1]).Some? then ParseDigits(t[2..], RadixMark(t[1]).value)
    else if t[0] == '-' then Negate(ParseDigits(t[1..], 10))
    else if t[0] == '+' then ParseDigits(t[1..], 10)
    else ParseDigits(t, 10)
  }

  /** The base a `0x`, `0o` or `0b` prefix (either case) introduces. */
  function RadixMark(c: char): Option<nat> {
    if c == 'x' || c == 'X' then Some(16)
    else if c == 'o' || c == 'O' then Some(8)
    else if c == 'b' || c == 'B' then Some(2)
    else None
  }

  /** `BigInt("0x" + h)` for a non-empty string of hex digits is their value. */
  lemma BigIntOfHex(h: string)
    requires |h| > 0 && AllDigits(h, 16)
    ensures BigIntFromString("0x" + h) == Some(DigitsValue(h, 16))
  {
    HexPrefixed(h);
  }

  lemma HexPrefixed(h: string)
    requires |h| > 0 && AllDigits(h, 16)
    ensures BigIntFromString("0x" + h) == ParseDigits(h, 16)
  {
    var s := "0x" + h;
    assert s[|s| - 1] == h[|h| - 1];
    assert IsDigit(h[|h| - 1], 16);
    JsStrings.TrimUnchanged(s);
    assert s[2..] == h;
  }

  /** The lower-case digit character for `d`. */
  function DigitChar(d: nat): (c: char)
    requires d < 16
    ensures DigitValue(c) == Some(d)
  {
    "0123456789abcdef"[d]
  }

  /** `n.toString(base)` for a non-negative integer: no leading zeros, "0" for zero. */
  function NatToString(n: nat, base: nat): (s: string)
    requires 2 <= base <= 16
    ensures |s| > 0 && AllDigits(s, base)
    decreases n
  {
    if n < base then [DigitChar(n)]
    else
      DivMod(n, base);
      NatToString(n / base, base) + [DigitChar(n % base)]
  }

  /** The digits `toString` writes spell the number back. */
  lemma {:induction false} NatToStringValue(n: nat, base: nat)
    requires 2 <= base <= 16
    ensures DigitsValue(NatToString(n, base), base) == n
    decreases n
  {
    var s := NatToString(n, base);
    if n < base {
      assert s[..0] == [];
    } else {
      var q, d := n / base, n % base;
      DivMod(n, base);
      NatToStringValue(q, base);
      var p := NatToString(q, base);
      assert s == p + [DigitChar(d)];
      DigitsValueSnoc(p, DigitChar(d), base);
    }
  }

  lemma DivMod(n: nat, b: nat)
    requires b > 0
    ensures n == (n / b) * b + n % b && n % b < b
    ensures n >= b >= 2 ==> 0 < n / b < n
  {
    if n >= b >= 2 {
      var q := n / b;
      MulLeft(2, b, q);
      assert q * 2 <= q * b <= n;
    }
  }

  /** `n.toString()` of an integer (a `bigint`, or a safe integer `number`). */
  function DecimalString(n: int): string {
    if n < 0 then "-" + NatToString(-n, 10) else NatToString(n, 10)
  }

  /** `BigInt` reads back what `toString` wrote. */
  lemma DecimalStringRoundTrip(n: int)
    ensures BigIntFromString(DecimalString(n)) == Some(n)
  {
    DecimalStringParses(n, DecimalString(n));
  }

  /** The two cases of the round trip, over the written string. */
  lemma DecimalStringParses(n: int, s: string)
    requires s == DecimalString(n)
    ensures BigIntFromString(s) == Some(n)
  {
    if n < 0 {
      NegativeDecimalParses(n, s);
    } else {
      NonNegativeDecimalParses(n, s);
    }
  }

  lemma NegativeDecimalParses(n: int, s: string)
    requires n < 0 && s == "-" + NatToString(-n, 10)
    ensures BigIntFromString(s) == Some(n)
  {
    NatToStringValue(-n, 10);
    SignedDecimalParses(n, NatToString(-n, 10), s);
  }

  lemma NonNegativeDecimalParses(n: int, s: string)
    requires n >= 0 && s == NatToString(n, 10)
    ensures BigIntFromString(s) == Some(n)
  {
    NatToStringParses(n);
    UnsignedDecimalParses(s);
  }

  /** Decimal digits alone are read in base 10. */
  lemma UnsignedDecimalParses(s: string)
    requires |s| > 0 && AllDigits(s, 10)
    ensures BigIntFromString(s) == ParseDigits(s, 10)
  {
    assert IsDigit(s[0], 10) && IsDigit(s[|s| - 1], 10);
    JsStrings.TrimUnchanged(s);
    if |s| >= 2 {
      assert IsDigit(s[1], 10);
    }
  }

  /** A minus sign before decimal digits negates what they read as. */
  lemma SignedDecimalParses(n: int, t: string, s: string)
    requires n < 0 && s == "-" + t && |t| > 0 && AllDigits(t, 10) && DigitsValue(t, 10) == -n
    ensures BigIntFromString(s) == Some(n)
  {
    assert s[|s| - 1] == t[|t| - 1] && IsDigit(t[|t| - 1], 10);
    JsStrings.TrimUnchanged(s);
    assert s[1..] == t;
    assert Negate(ParseDigits(t, 10)) == Some(n);
  }

  /** The decimal digits `toString` writes parse back to the number. */
  lemma NatToStringParses(n: nat)
    ensures ParseDigits(NatToString(n, 10), 10) == Some(n)
  {
    NatToStringValue(n, 10);
  }

  /** Big-endian unsigned value of a byte sequence, 0 when empty. */
  function BigEndian(bs: seq<byte>): (r: nat)
    ensures r < Pow(256, |bs|)
  {
    if |bs| == 0 then 0
    else
      var v := BigEndian(bs[..|bs| - 1]);
      DigitStep(v, bs[|bs| - 1], 256, Pow(256, |bs| - 1));
      v * 256 + bs[|bs| - 1]
  }

  /** Appending `k` zero bytes shifts the value left by `k` bytes. */
  lemma {:induction false} BigEndianZeroPadding(bs: seq<byte>, k: nat)
    ensures BigEndian(bs + Zeros(k)) == BigEndian(bs) * Pow(256, k)
  {
    if k > 0 {
      var padded := bs + Zeros(k);
      assert padded[..|padded| - 1] == bs + Zeros(k - 1);
      BigEndianZeroPadding(bs, k - 1);
      var v, p := BigEndian(bs), Pow(256, k - 1);
      calc {
        BigEndian(padded);
        BigEndian(bs + Zeros(k - 1)) * 256;
        (v * p) * 256;
        { MulAssoc(v, p, 256); }
        v * (p * 256);
        v * Pow(256, k);
      }
    } else {
      assert bs + Zeros(0) == bs;
    }
  }

  /** `k` zero bytes. */
  function Zeros(k: nat): (r: seq<byte>)
    ensures |r| == k
    ensures forall i :: 0 <= i < k ==> r[i] == 0
  {
    seq(k, _ => 0)
  }

  lemma BigEndianOfZeros(k: nat)
    ensures BigEndian(Zeros(k)) == 0
  {
    BigEndianZeroPadding([], k);
    assert [] + Zeros(k) == Zeros(k);
  }

  lemma MulAssoc(a: int, b: int, c: int)
    ensures (a * b) * c == a * (b * c)
  {
  }

  /** Euclidean division is unique: `a == q * d + r` with `0 <= r < d` fixes `a / d` and `a % d`. */
  lemma DivModUnique(a: int, d: int, q: int, r: int)
    requires d > 0 && 0 <= r < d && a == q * d + r
    ensures a / d == q && a % d == r
  {
    var q', r' := a / d, a % d;
    assert a == q' * d + r';
    if q > q' {
      assert (q - q') * d == r' - r;
      MulLeft(1, q - q', d);
    } else if q < q' {
      assert (q' - q) * d == r - r';
      MulLeft(1, q' - q, d);
    }
  }

  /** The bytes of `a` are the high part and those of `b` the low part of `a + b`. */
  lemma {:induction false} BigEndianAppend(a: seq<byte>, b: seq<byte>)
    ensures BigEndian(a + b) == BigEndian(a) * Pow(256, |b|) + BigEndian(b)
  {
    if |b| == 0 {
      assert a + b == a;
    } else {
      var b' := b[..|b| - 1];
      var x := b[|b| - 1];
      assert (a + b)[..|a + b| - 1] == a + b';
      BigEndianAppend(a, b');
      var va, p, vb := BigEndian(a), Pow(256, |b'|), BigEndian(b');
      calc {
        BigEndian(a + b);
        BigEndian(a + b') * 256 + x;
        (va * p + vb) * 256 + x;
        { MulAssoc(va, p, 256); }
        va * (p * 256) + (vb * 256 + x);
        va * Pow(256, |b|) + BigEndian(b);
      }
    }
  }

  /** The last byte is the value modulo 256, the others the value divided by 256. */
  lemma BigEndianLast(bs: seq<byte>)
    requires |bs| > 0
    ensures BigEndian(bs) % 256 == bs[|bs| - 1]
    ensures BigEndian(bs) / 256 == BigEndian(bs[..|bs| - 1])
  {
    DivModUnique(BigEndian(bs), 256, BigEndian(bs[..|bs| - 1]), bs[|bs| - 1]);
  }

  /** Byte `n` of a big-endian word: divide away the bytes after it, keep the last. */
  lemma BigEndianByteAt(bs: seq<byte>, n: nat)
    requires n < |bs|
    ensures (BigEndian(bs) / Pow(256, |bs| - 1 - n)) % 256 == bs[n]
  {
    var hi, lo := bs[..n + 1], bs[n + 1..];
    assert hi + lo == bs;
    BigEndianAppend(hi, lo);
    DivModUnique(BigEndian(bs), Pow(256, |lo|), BigEndian(hi), BigEndian(lo));
    BigEndianLast(hi);
  }
}
