/**
 * Hexadecimal text and bytes: `hexToBytes`, which reads each pair of
 * characters with `parseInt(pair, 16)` into a `Uint8Array`, and
 * `bytesToHex`, which writes each byte as two lower-case digits.
 */
module Hex {
  import opened Wrappers
  import opened Numeric
  import JsStrings

  /** The longest prefix of `s` made of digits in `base`. */
  function DigitPrefix(s: string, base: nat): (r: string)
    ensures |r| <= |s| && r == s[..|r|] && AllDigits(r, base)
    ensures |r| < |s| ==> !IsDigit(s[|r|], base)
  {
    if |s| > 0 && IsDigit(s[0], base) then [s[0]] + DigitPrefix(s[1..], base) else ""
  }

  /**
   * `parseInt(s, 16)`, None standing for NaN: leading whitespace is skipped,
   * then one sign is allowed, then the unsigned part is read.
   */
  function ParseIntHex(s: string): Option<int> {
    var t := JsStrings.TrimStart(s);
    if |t| > 0 && t[0] == '-' then Negate(UnsignedHex(t[1..]))
    else if |t| > 0 && t[0] == '+' then UnsignedHex(t[1..])
    else UnsignedHex(t)
  }

  /** The unsigned part of `parseInt(u, 16)`: an optional `0x`/`0X`, then the longest run of hex digits, which must not be empty. */
  function UnsignedHex(u: string): Option<nat> {
    var v := if |u| >= 2 && u[0] == '0' && (u[1] == 'x' || u[1] == 'X') then u[2..] else u;
    var d := DigitPrefix(v, 16);
    if d == "" then None else Some(DigitsValue(d, 16))
  }

  /** Storing a number into a `Uint8Array`: modulo 256, and NaN becomes 0. */
  function ToUint8(x: Option<int>): byte {
    match x
    case None => 0
    case Some(v) => v % 256
  }

  /** What `hexToBytes(hex)` holds at index `i`. */
  function PairByte(hex: string, i: nat): byte
    requires 2 * i + 2 <= |hex|
  {
    ToUint8(ParseIntHex(hex[2 * i..2 * i + 2]))
  }

  /** The contents `hexToBytes(hex)` produces: `|hex| / 2` bytes, a trailing odd character is dropped. */
  function HexBytes(hex: string): (r: seq<byte>)
    ensures |r| == |hex| / 2
  {
    seq(|hex| / 2, i requires 0 <= i < |hex| / 2 => PairByte(hex, i))
  }

  /** `hexToBytes`: the array is allocated with length `|hex| / 2` and filled pair by pair. */
  method HexToBytes(hex: string) returns (bytes: array<byte>)
    ensures bytes.Length == |hex| / 2
    ensures bytes[..] == HexBytes(hex)
  {
    bytes := new byte[|hex| / 2];
    var i := 0;
    while i != bytes.Length
      invariant 0 <= i <= bytes.Length
      invariant forall j :: 0 <= j < i ==> bytes[j] == PairByte(hex, j)
    {
      bytes[i] := ToUint8(ParseIntHex(hex[i * 2..i * 2 + 2]));
      i := i + 1;
    }
  }

  /** A string of digits is its own longest digit prefix. */
  lemma {:induction false} DigitPrefixAll(s: string, base: nat)
    requires AllDigits(s, base)
    ensures DigitPrefix(s, base) == s
  {
    if |s| > 0 {
      DigitPrefixAll(s[1..], base);
      assert [s[0]] + s[1..] == s;
    }
  }

  /** The unsigned reading of a non-empty string of hex digits is their value. */
  lemma UnsignedHexDigits(s: string)
    requires |s| > 0 && AllDigits(s, 16)
    ensures UnsignedHex(s) == Some(DigitsValue(s, 16))
  {
    if |s| >= 2 {
      assert IsDigit(s[1], 16);
      assert s[1] != 'x' && s[1] != 'X';
    }
    DigitPrefixAll(s, 16);
  }

  /** `parseInt` of a non-empty string of hex digits is their value. */
  lemma ParseIntHexDigits(s: string)
    requires |s| > 0 && AllDigits(s, 16)
    ensures ParseIntHex(s) == Some(DigitsValue(s, 16))
  {
    assert IsDigit(s[0], 16);
    assert !JsStrings.IsWhitespace(s[0]);
    assert JsStrings.TrimStart(s) == s;
    assert s[0] != '-' && s[0] != '+';
    UnsignedHexDigits(s);
  }

  /** The value of two hex digits. */
  lemma TwoDigits(pair: string)
    requires |pair| == 2 && IsHexDigit(pair[0]) && IsHexDigit(pair[1])
    ensures AllDigits(pair, 16)
    ensures DigitsValue(pair, 16) == 16 * DigitValue(pair[0]).value + DigitValue(pair[1]).value
  {
    var a := [pair[0]];
    assert a == [] + [pair[0]];
    DigitsValueSnoc([], pair[0], 16);
    assert pair == a + [pair[1]];
    DigitsValueSnoc(a, pair[1], 16);
  }

  /** A pair of hex digits reads as `16 * high + low`. */
  lemma PairOfDigits(hex: string, i: nat)
    requires 2 * i + 2 <= |hex|
    requires IsHexDigit(hex[2 * i]) && IsHexDigit(hex[2 * i + 1])
    ensures PairByte(hex, i) == 16 * DigitValue(hex[2 * i]).value + DigitValue(hex[2 * i + 1]).value
  {
    var pair := hex[2 * i..2 * i + 2];
    TwoDigits(pair);
    ParseIntHexDigits(pair);
    StoredByte(ParseIntHex(pair), 16 * DigitValue(hex[2 * i]).value + DigitValue(hex[2 * i + 1]).value);
  }

  /** A number below 256 is stored unchanged. */
  lemma StoredByte(x: Option<int>, v: int)
    requires x == Some(v) && 0 <= v < 256
    ensures ToUint8(x) == v
  {
  }

  /** The digit for the high four bits of a byte. */
  function HighDigit(b: byte): (c: char)
    ensures IsHexDigit(c) && DigitValue(c).value == b / 16
  {
    DigitChar(b / 16)
  }

  /** The digit for the low four bits of a byte. */
  function LowDigit(b: byte): (c: char)
    ensures IsHexDigit(c) && DigitValue(c).value == b % 16
  {
    DigitChar(b % 16)
  }

  /** `byte.toString(16).padStart(2, "0")` */
  function ByteToHex(b: byte): (r: string)
    ensures r == [HighDigit(b), LowDigit(b)]
  {
    var r := JsStrings.PadStart(NatToString(b, 16), 2, '0');
    if b < 16 then
      assert r == "0" + [DigitChar(b)];
      r
    else
      DivMod(b, 16);
      assert NatToString(b / 16, 16) == [DigitChar(b / 16)];
      r
  }

  /** `bytesToHex`: the two-digit forms of the bytes, in order. */
  function BytesToHex(bs: seq<byte>): (r: string)
    ensures |r| == 2 * |bs|
  {
    if |bs| == 0 then ""
    else BytesToHex(bs[..|bs| - 1]) + ByteToHex(bs[|bs| - 1])
  }

  /** Characters `2 * i` and `2 * i + 1` of `bytesToHex(bs)` are the two digits of byte `i`. */
  lemma BytesToHexAt(bs: seq<byte>)
    ensures forall i :: 0 <= i < |bs| ==>
      BytesToHex(bs)[2 * i] == HighDigit(bs[i]) && BytesToHex(bs)[2 * i + 1] == LowDigit(bs[i])
  {
    forall i | 0 <= i < |bs|
      ensures BytesToHex(bs)[2 * i] == HighDigit(bs[i]) && BytesToHex(bs)[2 * i + 1] == LowDigit(bs[i])
    {
      BytesToHexAtIndex(bs, i);
    }
  }

  /** The two characters byte `i` contributes to `bytesToHex(bs)`. */
  lemma {:induction false} BytesToHexAtIndex(bs: seq<byte>, i: nat)
    requires i < |bs|
    ensures BytesToHex(bs)[2 * i] == HighDigit(bs[i]) && BytesToHex(bs)[2 * i + 1] == LowDigit(bs[i])
    decreases |bs|
  {
    var init := bs[..|bs| - 1];
    if i < |init| {
      BytesToHexAtIndex(init, i);
      assert init[i] == bs[i];
    }
  }

  /** Each character `bytesToHex` writes is a hex digit. */
  lemma BytesToHexDigitAt(bs: seq<byte>, k: nat)
    requires k < 2 * |bs|
    ensures IsDigit(BytesToHex(bs)[k], 16)
  {
    var i := k / 2;
    BytesToHexAtIndex(bs, i);
    if k == 2 * i {
      assert BytesToHex(bs)[k] == HighDigit(bs[i]);
    } else {
      assert k == 2 * i + 1;
      assert BytesToHex(bs)[k] == LowDigit(bs[i]);
    }
  }

  /** Every character `bytesToHex` writes is a lower-case hex digit. */
  lemma BytesToHexDigits(bs: seq<byte>)
    ensures AllDigits(BytesToHex(bs), 16)
  {
    forall k | 0 <= k < |BytesToHex(bs)|
      ensures IsDigit(BytesToHex(bs)[k], 16)
    {
      BytesToHexDigitAt(bs, k);
    }
  }

  /** `hexToBytes(bytesToHex(b))` gives `b` back. */
  lemma HexRoundTrip(bs: seq<byte>)
    ensures HexBytes(BytesToHex(bs)) == bs
  {
    var h := BytesToHex(bs);
    BytesToHexAt(bs);
    forall i | 0 <= i < |bs|
      ensures HexBytes(h)[i] == bs[i]
    {
      PairOfDigits(h, i);
      DivMod(bs[i], 16);
    }
  }

  /** Two more hex digits multiply the value by 256 and add the byte they spell. */
  lemma DigitsValuePair(p: string, b: byte)
    requires AllDigits(p, 16)
    ensures AllDigits(p + ByteToHex(b), 16)
    ensures DigitsValue(p + ByteToHex(b), 16) == DigitsValue(p, 16) * 256 + b
  {
    var hi, lo := HighDigit(b), LowDigit(b);
    var p1 := p + [hi];
    assert p + ByteToHex(b) == p1 + [lo];
    DigitsValueSnoc(p, hi, 16);
    DigitsValueSnoc(p1, lo, 16);
    DivMod(b, 16);
  }

  /** Read as a hexadecimal numeral, `bytesToHex(b)` denotes the big-endian value of `b`. */
  lemma {:induction false} HexDigitsValue(bs: seq<byte>)
    ensures AllDigits(BytesToHex(bs), 16)
    ensures DigitsValue(BytesToHex(bs), 16) == BigEndian(bs)
  {
    BytesToHexDigits(bs);
    if |bs| > 0 {
      var init := bs[..|bs| - 1];
      HexDigitsValue(init);
      DigitsValuePair(BytesToHex(init), bs[|bs| - 1]);
    }
  }

  /** `BigInt("0x" + buf.toString("hex"))` is the big-endian value of a non-empty buffer. */
  lemma HexBigInt(bs: seq<byte>)
    requires |bs| > 0
    ensures BigIntFromString("0x" + BytesToHex(bs)) == Some(BigEndian(bs))
  {
    HexDigitsValue(bs);
    BigIntOfHex(BytesToHex(bs));
  }

  /** The hex text of `k` zero bytes is `2 * k` zeros. */
  lemma {:induction false} HexOfZeros(bs: seq<byte>, k: nat)
    ensures BytesToHex(bs + Zeros(k)) == BytesToHex(bs) + JsStrings.Repeat('0', 2 * k)
  {
    if k == 0 {
      HexOfNoZeros(bs);
    } else {
      HexOfZeros(bs, k - 1);
      HexZeroSnoc(bs, k, BytesToHex(bs + Zeros(k - 1)));
      RepeatTwoMore(BytesToHex(bs), k);
    }
  }

  /** No zero bytes add nothing. */
  lemma HexOfNoZeros(bs: seq<byte>)
    ensures BytesToHex(bs + Zeros(0)) == BytesToHex(bs) + JsStrings.Repeat('0', 2 * 0)
  {
    assert bs + Zeros(0) == bs;
    assert BytesToHex(bs) + JsStrings.Repeat('0', 0) == BytesToHex(bs);
  }

  /** One more zero byte adds `"00"` to the hex text. */
  lemma HexZeroSnoc(bs: seq<byte>, k: nat, h: string)
    requires k > 0 && h == BytesToHex(bs + Zeros(k - 1))
    ensures BytesToHex(bs + Zeros(k)) == h + "00"
  {
    var ext := bs + Zeros(k);
    assert ext[..|ext| - 1] == bs + Zeros(k - 1);
    assert ext[|ext| - 1] == 0;
    assert ByteToHex(0) == "00";
  }

  /** Two more zeros after a text of zeros. */
  lemma RepeatTwoMore(h: string, k: nat)
    requires k > 0
    ensures h + JsStrings.Repeat('0', 2 * (k - 1)) + "00" == h + JsStrings.Repeat('0', 2 * k)
  {
  }

  /** Padding the hex text of `bs` with `"0"` up to `2 * n` characters is the hex text of `bs` padded with zero bytes. */
  lemma HexPadEnd(bs: seq<byte>, n: nat)
    requires |bs| <= n
    ensures JsStrings.PadEnd(BytesToHex(bs), 2 * n, '0') == BytesToHex(bs + Zeros(n - |bs|))
  {
    var k := n - |bs|;
    HexOfZeros(bs, k);
    PadEndZeros(BytesToHex(bs), n, k, BytesToHex(bs + Zeros(k)));
  }

  /** Padding `h` with `"0"` to `2 * n` characters gives `x` when `x` is `h` followed by the `2 * k` missing zeros. */
  lemma PadEndZeros(h: string, n: nat, k: nat, x: string)
    requires |h| + 2 * k == 2 * n && x == h + JsStrings.Repeat('0', 2 * k)
    ensures JsStrings.PadEnd(h, 2 * n, '0') == x
  {
    if k == 0 {
      assert h + JsStrings.Repeat('0', 0) == h;
    }
  }

  /** `bytesToHex` read from the front: the first byte's digits, then the rest. */
  lemma {:induction false} BytesToHexCons(bs: seq<byte>)
    requires |bs| > 0
    ensures BytesToHex(bs) == ByteToHex(bs[0]) + BytesToHex(bs[1..])
  {
    if |bs| > 1 {
      var init := bs[..|bs| - 1];
      BytesToHexCons(init);
      assert init[1..] == bs[1..][..|bs[1..]| - 1];
    } else {
      assert bs[..0] == [];
    }
  }

  /**
   * `Buffer.from(s, "hex")` in Node.js: pairs of hex digits are decoded from
   * the front until the first pair that is not two hex digits; that pair,
   * everything after it and a trailing odd character are dropped.
   */
  function BufferFromHex(s: string): (r: seq<byte>)
    ensures |r| <= |s| / 2
  {
    if |s| >= 2 && IsHexDigit(s[0]) && IsHexDigit(s[1]) then
      [16 * DigitValue(s[0]).value + DigitValue(s[1]).value] + BufferFromHex(s[2..])
    else []
  }

  /** Decoding the two digits of one byte in front of the rest. */
  lemma BufferFromHexStep(b: byte, rest: string)
    ensures BufferFromHex(ByteToHex(b) + rest) == [b] + BufferFromHex(rest)
  {
    var s := ByteToHex(b) + rest;
    assert s[0] == HighDigit(b) && s[1] == LowDigit(b) && s[2..] == rest;
    DivMod(b, 16);
  }

  /** `Buffer.from(bytesToHex(b), "hex")` gives `b` back. */
  lemma {:induction false} BufferFromHexRoundTrip(bs: seq<byte>)
    ensures BufferFromHex(BytesToHex(bs)) == bs
  {
    if |bs| > 0 {
      BytesToHexCons(bs);
      BufferFromHexRoundTrip(bs[1..]);
      BufferFromHexStep(bs[0], BytesToHex(bs[1..]));
      assert [bs[0]] + bs[1..] == bs;
    }
  }
}
