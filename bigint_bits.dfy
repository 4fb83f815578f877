/**
 * The `bigint` bit operators of JavaScript on unbounded integers: `~`, `&`,
 * `|`, `^` act on the infinite two's-complement representation (a negative
 * number has infinitely many leading one bits), `<<` and `>>` shift by a
 * signed amount (a negative amount shifts the other way, `>>` rounds toward
 * minus infinity).
 */
module BigIntBits {
  import opened Numeric

  function Abs(a: int): nat {
    if a < 0 then -a else a
  }

  /** Bit `i` of `a` in two's complement: the reference the operators are proved against. */
  function Bit(a: int, i: nat): (r: int)
    ensures r == 0 || r == 1
    decreases i
  {
    if i == 0 then a % 2 else Bit(a / 2, i - 1)
  }

  /** Halving moves every integer other than 0 and -1 strictly toward 0. */
  lemma HalfShrinks(a: int)
    requires a != 0 && a != -1
    ensures Abs(a / 2) < Abs(a)
  {
  }

  /** `2 * c + r` has lowest bit `r` and the bits of `c` above it. */
  lemma Halves(c: int, r: int)
    requires r == 0 || r == 1
    ensures (2 * c + r) % 2 == r && (2 * c + r) / 2 == c
  {
  }

  lemma {:induction false} BitOfZero(i: nat)
    ensures Bit(0, i) == 0
  {
    if i > 0 {
      BitOfZero(i - 1);
    }
  }

  lemma {:induction false} BitOfMinusOne(i: nat)
    ensures Bit(-1, i) == 1
  {
    if i > 0 {
      BitOfMinusOne(i - 1);
    }
  }

  /** `~a` */
  function Not(a: int): int {
    -a - 1
  }

  /** `~a` flips every bit. */
  lemma {:induction false} NotBits(a: int, i: nat)
    ensures Bit(Not(a), i) == 1 - Bit(a, i)
    decreases i
  {
    var q, r := a / 2, a % 2;
    assert a == 2 * q + r;
    Halves(-q - 1, 1 - r);
    assert Not(a) == 2 * (-q - 1) + (1 - r);
    if i > 0 {
      NotBits(q, i - 1);
    }
  }

  /** `a & b` */
  function And(a: int, b: int): int
    decreases Abs(a) + Abs(b)
  {
    if a == 0 || b == 0 then 0
    else if a == -1 then b
    else if b == -1 then a
    else
      HalfShrinks(a);
      HalfShrinks(b);
      2 * And(a / 2, b / 2) + (a % 2) * (b % 2)
  }

  /** `a | b` */
  function Or(a: int, b: int): int
    decreases Abs(a) + Abs(b)
  {
    if a == 0 then b
    else if b == 0 then a
    else if a == -1 || b == -1 then -1
    else
      HalfShrinks(a);
      HalfShrinks(b);
      2 * Or(a / 2, b / 2) + (if a % 2 == 1 || b % 2 == 1 then 1 else 0)
  }

  /** `a ^ b` */
  function Xor(a: int, b: int): int
    decreases Abs(a) + Abs(b)
  {
    if a == 0 then b
    else if b == 0 then a
    else if a == -1 then Not(b)
    else if b == -1 then Not(a)
    else
      HalfShrinks(a);
      HalfShrinks(b);
      2 * Xor(a / 2, b / 2) + (a % 2 + b % 2) % 2
  }

  /** Bit `i` of `a & b` is set exactly when it is set in both. */
  lemma {:induction false} AndBits(a: int, b: int, i: nat)
    ensures Bit(And(a, b), i) == Bit(a, i) * Bit(b, i)
    decreases Abs(a) + Abs(b)
  {
    if a == 0 || b == 0 {
      BitOfZero(i);
    } else if a == -1 {
      BitOfMinusOne(i);
    } else if b == -1 {
      BitOfMinusOne(i);
    } else {
      HalfShrinks(a);
      HalfShrinks(b);
      Halves(And(a / 2, b / 2), (a % 2) * (b % 2));
      if i > 0 {
        AndBits(a / 2, b / 2, i - 1);
      }
    }
  }

  /** Bit `i` of `a | b` is set exactly when it is set in either. */
  lemma {:induction false} OrBits(a: int, b: int, i: nat)
    ensures Bit(Or(a, b), i) == if Bit(a, i) == 1 || Bit(b, i) == 1 then 1 else 0
    decreases Abs(a) + Abs(b)
  {
    if a == 0 {
      BitOfZero(i);
    } else if b == 0 {
      BitOfZero(i);
    } else if a == -1 || b == -1 {
      BitOfMinusOne(i);
    } else {
      HalfShrinks(a);
      HalfShrinks(b);
      Halves(Or(a / 2, b / 2), if a % 2 == 1 || b % 2 == 1 then 1 else 0);
      if i > 0 {
        OrBits(a / 2, b / 2, i - 1);
      }
    }
  }

  /** Bit `i` of `a ^ b` is set exactly when it is set in one of them only. */
  lemma {:induction false} XorBits(a: int, b: int, i: nat)
    ensures Bit(Xor(a, b), i) == (Bit(a, i) + Bit(b, i)) % 2
    decreases Abs(a) + Abs(b)
  {
    if a == 0 {
      BitOfZero(i);
    } else if b == 0 {
      BitOfZero(i);
    } else if a == -1 {
      BitOfMinusOne(i);
      NotBits(b, i);
    } else if b == -1 {
      BitOfMinusOne(i);
      NotBits(a, i);
    } else {
      HalfShrinks(a);
      HalfShrinks(b);
      Halves(Xor(a / 2, b / 2), (a % 2 + b % 2) % 2);
      if i > 0 {
        XorBits(a / 2, b / 2, i - 1);
      }
    }
  }

  /** `a << n`: a negative amount shifts right. */
  function ShiftLeft(a: int, n: int): int {
    if n >= 0 then a * Pow(2, n) else a / Pow(2, -n)
  }

  /** `a >> n`: rounds toward minus infinity; a negative amount shifts left. */
  function ShiftRight(a: int, n: int): int {
    if n >= 0 then a / Pow(2, n) else a * Pow(2, -n)
  }

  /** Shifting right by `n` drops the `n` lowest bits. */
  lemma {:induction false} ShiftRightBits(a: int, n: nat, i: nat)
    ensures Bit(ShiftRight(a, n), i) == Bit(a, i + n)
    decreases n
  {
    if n > 0 {
      var p := Pow(2, n - 1);
      ShiftRightBits(a / 2, n - 1, i);
      HalveThenDivide(a, p);
      assert ShiftRight(a / 2, n - 1) == ShiftRight(a, n);
      assert Bit(a, i + n) == Bit(a / 2, i + n - 1);
    }
  }

  /** A left shift by a non-negative amount is undone by the right shift by the same amount. */
  lemma ShiftRoundTrip(a: int, n: nat)
    ensures ShiftRight(ShiftLeft(a, n), n) == a
  {
    DivModUnique(a * Pow(2, n), Pow(2, n), a, 0);
  }

  /** Dividing by `2 * p` is halving, then dividing by `p`; the remainder is rebuilt from both remainders. */
  lemma HalveThenDivide(a: int, p: int)
    requires p > 0
    ensures a / (2 * p) == (a / 2) / p
    ensures a % (2 * p) == 2 * ((a / 2) % p) + a % 2
  {
    var h, q, r := a / 2, (a / 2) / p, (a / 2) % p;
    assert a == 2 * h + a % 2;
    assert h == q * p + r;
    assert a == q * (2 * p) + (2 * r + a % 2) by {
      MulAssoc(q, 2, p);
      assert 2 * (q * p) == q * (2 * p);
    }
    DivModUnique(a, 2 * p, q, 2 * r + a % 2);
  }

  /** Masking with `2^k - 1` keeps the value modulo `2^k` (for negative `a` as well). */
  lemma {:induction false} AndMask(a: int, k: nat)
    ensures And(a, Pow(2, k) - 1) == a % Pow(2, k)
    decreases k
  {
    var m := Pow(2, k) - 1;
    if k == 0 || a == 0 {
    } else if a == -1 {
      DivModUnique(-1, Pow(2, k), -1, m);
    } else {
      var p := Pow(2, k - 1);
      assert m == 2 * (p - 1) + 1;
      Halves(p - 1, 1);
      AndMask(a / 2, k - 1);
      HalfShrinks(a);
      assert And(a, m) == 2 * And(a / 2, p - 1) + a % 2;
      HalveThenDivide(a, p);
    }
  }
}
