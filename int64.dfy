/**
 * Go's `int64` over Dafny's unbounded integers: two's-complement
 * wrap-around for `+ - *` and negation, truncating `/` and `%`, arithmetic
 * `>>`, and the bitwise operators `& | ^ ~` defined bit by bit on the
 * unsigned (two's-complement) reading of a value.
 */
module Int64 {
  const TwoTo64: int := 0x1_0000_0000_0000_0000
  const MinInt64: int := -0x8000_0000_0000_0000
  const MaxInt64: int := 0x7FFF_FFFF_FFFF_FFFF

  type int64 = x: int | MinInt64 <= x <= MaxInt64

  function Pow2(n: nat): (r: nat)
    ensures r >= 1
  {
    if n == 0 then 1 else 2 * Pow2(n - 1)
  }

  lemma {:induction false} Pow2Monotone(m: nat, n: nat)
    requires m <= n
    ensures Pow2(m) <= Pow2(n)
    decreases n
  {
    if m < n {
      Pow2Monotone(m, n - 1);
    }
  }

  lemma {:induction false} Pow2Add(m: nat, n: nat)
    ensures Pow2(m + n) == Pow2(m) * Pow2(n)
    decreases m
  {
    if m > 0 {
      Pow2Add(m - 1, n);
      assert Pow2(m + n) == 2 * Pow2(m - 1 + n);
    }
  }

  lemma Pow2Of63And64()
    ensures Pow2(63) == -MinInt64
    ensures Pow2(64) == TwoTo64
  {
    assert Pow2(7) == 0x80;
    assert Pow2(8) == 0x100;
    Pow2Add(8, 8);
    assert Pow2(16) == 0x1_0000;
    Pow2Add(16, 16);
    assert Pow2(32) == 0x1_0000_0000;
    Pow2Add(8, 7);
    assert Pow2(15) == 0x8000;
    Pow2Add(16, 15);
    assert Pow2(31) == 0x8000_0000;
    Pow2Add(32, 31);
    Pow2Add(32, 32);
  }

  /** The int64 congruent to `x` modulo 2^64: what Go keeps of an overflowing
      result. */
  function Wrap(x: int): (r: int64)
    ensures (r - x) % TwoTo64 == 0
    ensures MinInt64 <= x <= MaxInt64 ==> r == x
  {
    (x - MinInt64) % TwoTo64 + MinInt64
  }

  /** The two's-complement bit pattern of `x`, read as an unsigned number. */
  function ToUnsigned(x: int64): (u: nat)
    ensures u < TwoTo64
    ensures (u - x) % TwoTo64 == 0
  {
    if x < 0 then x + TwoTo64 else x
  }

  lemma WrapOfUnsigned(u: nat)
    requires u < TwoTo64
    ensures ToUnsigned(Wrap(u)) == u
  {
  }

  // ---------------------------------------------------------------------
  // Arithmetic operators of Go on int64
  // ---------------------------------------------------------------------

  /** `a + b`, `a - b` and `a * b` are the exact results modulo 2^64, and
      exact whenever they fit. */
  function Add(a: int64, b: int64): (r: int64)
    ensures (r - (a + b)) % TwoTo64 == 0
    ensures MinInt64 <= a + b <= MaxInt64 ==> r == a + b
  {
    Wrap(a + b)
  }

  function Sub(a: int64, b: int64): (r: int64)
    ensures (r - (a - b)) % TwoTo64 == 0
    ensures MinInt64 <= a - b <= MaxInt64 ==> r == a - b
  {
    Wrap(a - b)
  }

  function Mul(a: int64, b: int64): (r: int64)
    ensures (r - a * b) % TwoTo64 == 0
    ensures MinInt64 <= a * b <= MaxInt64 ==> r == a * b
  {
    Wrap(a * b)
  }

  /** Unary minus (and `-1 * x`): MinInt64 is its own negation. */
  function Neg(a: int64): (r: int64)
    ensures a != MinInt64 ==> r == -a
    ensures a == MinInt64 ==> r == MinInt64
  {
    Wrap(-(a as int))
  }

  function Abs(a: int): nat { if a < 0 then -a else a }

  /** The quotient rounded toward zero, before any wrap-around. */
  function TruncQuot(a: int, b: int): int
    requires b != 0
  {
    var q := Abs(a) / Abs(b);
    if (a < 0) == (b < 0) then q else -q
  }

  /** Go's `a / b` on int64; `b == 0` is a run-time panic, excluded here and
      handled by the evaluator. `MinInt64 / -1` wraps to MinInt64. */
  function Quo(a: int64, b: int64): (r: int64)
    requires b != 0
    ensures a == MinInt64 && b == -1 ==> r == MinInt64
    ensures !(a == MinInt64 && b == -1) ==>
      Abs(r) * Abs(b) <= Abs(a) < (Abs(r) + 1) * Abs(b)
      && (r == 0 || (r < 0 <==> (a < 0) != (b < 0)))
  {
    TruncBounds(a, b);
    Wrap(TruncQuot(a, b))
  }

  /** Go's `a % b` on int64: the remainder of the truncated division. */
  function Rem(a: int64, b: int64): (r: int64)
    requires b != 0
    ensures Abs(r) < Abs(b)
    ensures r == 0 || (r < 0 <==> a < 0)
  {
    TruncFacts(a, b);
    DivFacts(Abs(a), Abs(b));
    Wrap(a - b * TruncQuot(a, b))
  }

  /** The truncated quotient: its magnitude is the floor of |a| / |b|, its
      sign the sign of the exact quotient, and it fits an int64 except for
      MinInt64 / -1. */
  lemma TruncBounds(a: int64, b: int64)
    requires b != 0
    ensures var t := TruncQuot(a, b);
      && (a == MinInt64 && b == -1 ==> t == -MinInt64)
      && (!(a == MinInt64 && b == -1) ==> MinInt64 <= t <= MaxInt64)
      && Abs(t) * Abs(b) <= Abs(a) < (Abs(t) + 1) * Abs(b)
      && (t == 0 || (t < 0 <==> (a < 0) != (b < 0)))
  {
    TruncMagnitude(a, b);
    TruncFacts(a, b);
    var t := TruncQuot(a, b);
    if Abs(b) == 1 {
      assert Abs(t) == Abs(a);
    } else {
      assert 2 * Abs(t) <= Abs(a);
    }
  }

  /** The magnitude of the truncated quotient is the floored quotient of
      the magnitudes. */
  lemma TruncMagnitude(a: int, b: int)
    requires b != 0
    ensures Abs(TruncQuot(a, b)) == Abs(a) / Abs(b)
    ensures Abs(TruncQuot(a, b)) * Abs(b) <= Abs(a) < (Abs(TruncQuot(a, b)) + 1) * Abs(b)
  {
    DivNonNegative(Abs(a), Abs(b));
    FloorBounds(Abs(a), Abs(b));
  }

  lemma DivNonNegative(x: int, y: int)
    requires x >= 0 && y > 0
    ensures x / y >= 0
  {
  }

  /** `x / y` is the largest multiple count of `y` that fits in `x`. */
  lemma FloorBounds(x: nat, y: nat)
    requires y > 0
    ensures (x / y) * y <= x < (x / y + 1) * y
  {
    DivFacts(x, y);
    var q := x / y;
    assert (q + 1) * y == q * y + y;
  }

  /** Go's division law: `a == (a / b) * b + a % b`, the remainder is
      smaller than the divisor and takes the dividend's sign. */
  lemma {:induction false} QuoRemLaw(a: int64, b: int64)
    requires b != 0
    requires !(a == MinInt64 && b == -1)
    ensures a == Quo(a, b) * b + Rem(a, b)
    ensures Abs(Rem(a, b)) < Abs(b)
    ensures Rem(a, b) == 0 || (Rem(a, b) < 0 <==> a < 0)
  {
    TruncFacts(a, b);
    var t := TruncQuot(a, b);
    assert MinInt64 <= t <= MaxInt64 by {
      if Abs(b) == 1 {
        assert t == a || t == -a;
      }
    }
    var s := a - b * t;
    assert Abs(s) < Abs(b) by {
      DivFacts(Abs(a), Abs(b));
    }
    assert Quo(a, b) == t;
    assert Rem(a, b) == s;
  }

  lemma TruncFacts(a: int, b: int)
    requires b != 0
    ensures a - b * TruncQuot(a, b) == (if a < 0 then -(Abs(a) % Abs(b)) else Abs(a) % Abs(b))
    ensures Abs(TruncQuot(a, b)) <= Abs(a)
    ensures Abs(b) >= 2 ==> 2 * Abs(TruncQuot(a, b)) <= Abs(a)
  {
    var A, B := Abs(a), Abs(b);
    var q: int, m := A / B, A % B;
    DivFacts(A, B);
    var t := TruncQuot(a, b);
    assert Abs(t) == q;
    assert b * t == (if a < 0 then -(q * B) else q * B) by {
      SignedProduct(a, b, q);
    }
  }

  lemma SignedProduct(a: int, b: int, q: int)
    requires b != 0
    ensures b * (if (a < 0) == (b < 0) then q else -q) == (if a < 0 then -(q * Abs(b)) else q * Abs(b))
  {
    if b < 0 {
      assert q * Abs(b) == -(q * b);
    }
  }

  lemma MulAtLeast(q: int, p: int)
    requires p >= 1
    ensures q >= 0 ==> q * p >= q
    ensures q < 0 ==> q * p <= q
  {
  }

  lemma DivFacts(x: nat, y: nat)
    requires y > 0
    ensures x == (x / y) * y + x % y && 0 <= x % y < y
    ensures x / y <= x
    ensures y >= 2 ==> 2 * (x / y) <= x
  {
    var q := x / y;
    MulAtLeast(q, y);
    if y >= 2 {
      MulAtLeast(q, y - 1);
      assert q * y == q * (y - 1) + q;
    }
  }

  lemma QuoRemOverflow()
    ensures Quo(MinInt64, -1) == MinInt64
    ensures Rem(MinInt64, -1) == 0
  {
  }

  /** Go's `a << s` for a non-negative count: multiplication by 2^s modulo
      2^64, so shifts of 64 or more give 0. */
  function Shl(a: int64, s: nat): (r: int64)
    ensures s >= 64 ==> r == 0
    ensures s < 64 ==> (r - a * Pow2(s)) % TwoTo64 == 0
    ensures s < 64 && MinInt64 <= a * Pow2(s) <= MaxInt64 ==> r == a * Pow2(s)
  {
    if s >= 64 then 0 else Wrap(a * Pow2(s))
  }

  /** Go's arithmetic `a >> s` for a non-negative count: floor division by
      2^s (Dafny's `/` rounds down for a positive divisor), so shifts of 64
      or more give 0 or -1 by the sign. */
  function Shr(a: int64, s: nat): (r: int64)
    ensures r * Pow2(s) <= a < r * Pow2(s) + Pow2(s)
    ensures a >= 0 ==> r >= 0
    ensures a < 0 ==> r < 0
  {
    if s >= 64 then
      Pow2Of63And64();
      Pow2Monotone(64, s);
      if a < 0 then -1 else 0
    else
      FloorDivBounds(a, Pow2(s));
      a / Pow2(s)
  }

  lemma FloorDivBounds(a: int, p: int)
    requires p >= 1
    ensures a >= 0 ==> 0 <= a / p <= a
    ensures a < 0 ==> a <= a / p < 0
    ensures (a / p) * p <= a < (a / p) * p + p
  {
    var q := a / p;
    var r := a % p;
    assert a == q * p + r && 0 <= r < p;
    assert (q + 1) * p == q * p + p;
    MulAtLeast(q, p);
    MulAtLeast(q + 1, p);
  }

  // ---------------------------------------------------------------------
  // Bits and bitwise operators
  // ---------------------------------------------------------------------

  /** Bit `i` (0 = least significant) of a natural number. */
  function BitNat(u: nat, i: nat): bool
  {
    if i == 0 then u % 2 == 1 else BitNat(u / 2, i - 1)
  }

  /** Bit `i` of the two's-complement pattern of `x`. */
  function Bit(x: int64, i: nat): bool
  {
    BitNat(ToUnsigned(x), i)
  }

  datatype BitOp = AndOp | OrOp | XorOp

  function Combine(op: BitOp, x: bool, y: bool): bool
  {
    match op
    case AndOp => x && y
    case OrOp => x || y
    case XorOp => x != y
  }

  /** `op` applied bit by bit to two natural numbers, from the least
      significant bit up. */
  function BitwiseNat(op: BitOp, a: nat, b: nat): nat
    decreases a + b
  {
    if a == 0 && b == 0 then 0
    else 2 * BitwiseNat(op, a / 2, b / 2) + (if Combine(op, a % 2 == 1, b % 2 == 1) then 1 else 0)
  }

  function Bitwise(op: BitOp, a: int64, b: int64): int64
  {
    Wrap(BitwiseNat(op, ToUnsigned(a), ToUnsigned(b)))
  }

  /** Each of the 64 bits of `Bitwise(op, a, b)` is `op` of the operands'
      bits. */
  lemma BitwiseBits(op: BitOp, a: int64, b: int64)
    ensures forall i :: 0 <= i < 64 ==> Bit(Bitwise(op, a, b), i) == Combine(op, Bit(a, i), Bit(b, i))
  {
    forall i | 0 <= i < 64
      ensures Bit(Bitwise(op, a, b), i) == Combine(op, Bit(a, i), Bit(b, i))
    {
      BitOfBitwise(op, a, b, i);
    }
  }

  /** Go's `a & b`, `a | b` and `a ^ b` (binary): bit by bit. */
  function And(a: int64, b: int64): (r: int64)
    ensures forall i :: 0 <= i < 64 ==> Bit(r, i) == (Bit(a, i) && Bit(b, i))
  {
    BitwiseBits(AndOp, a, b);
    Bitwise(AndOp, a, b)
  }

  function Or(a: int64, b: int64): (r: int64)
    ensures forall i :: 0 <= i < 64 ==> Bit(r, i) == (Bit(a, i) || Bit(b, i))
  {
    BitwiseBits(OrOp, a, b);
    Bitwise(OrOp, a, b)
  }

  function Xor(a: int64, b: int64): (r: int64)
    ensures forall i :: 0 <= i < 64 ==> Bit(r, i) == (Bit(a, i) != Bit(b, i))
  {
    BitwiseBits(XorOp, a, b);
    Bitwise(XorOp, a, b)
  }

  /** Go's unary `^a` (written `~` in the calculator): every bit flipped,
      which is `-a - 1`. */
  function Not(a: int64): (r: int64)
    ensures r + a == -1
    ensures forall i :: 0 <= i < 64 ==> Bit(r, i) == !Bit(a, i)
  {
    Pow2Of63And64();
    ComplementBits(ToUnsigned(a), 64);
    -(a as int) - 1
  }

  /** Below 2^n, `2^n - 1 - u` has exactly the bits `u` lacks. */
  lemma {:induction false} ComplementBits(u: nat, n: nat)
    requires u < Pow2(n)
    ensures forall i :: 0 <= i < n ==> BitNat(Pow2(n) - 1 - u, i) == !BitNat(u, i)
    decreases n
  {
    if n > 0 {
      var v := Pow2(n) - 1 - u;
      assert v == 2 * (Pow2(n - 1) - 1 - u / 2) + (1 - u % 2);
      assert v % 2 == 1 - u % 2 && v / 2 == Pow2(n - 1) - 1 - u / 2;
      ComplementBits(u / 2, n - 1);
      forall i | 0 <= i < n
        ensures BitNat(v, i) == !BitNat(u, i)
      {
        if i > 0 {
          assert BitNat(v, i) == BitNat(v / 2, i - 1);
        }
      }
    }
  }

  lemma {:induction false} BitNatZero(i: nat)
    ensures !BitNat(0, i)
  {
    if i > 0 {
      BitNatZero(i - 1);
    }
  }

  lemma {:induction false} BitOfBitwiseNat(op: BitOp, a: nat, b: nat, i: nat)
    ensures BitNat(BitwiseNat(op, a, b), i) == Combine(op, BitNat(a, i), BitNat(b, i))
    decreases i
  {
    if a == 0 && b == 0 {
      BitNatZero(i);
    } else if i > 0 {
      var r := BitwiseNat(op, a, b);
      assert r / 2 == BitwiseNat(op, a / 2, b / 2);
      BitOfBitwiseNat(op, a / 2, b / 2, i - 1);
    }
  }

  lemma {:induction false} BitwiseNatBelow(op: BitOp, a: nat, b: nat, n: nat)
    requires a < Pow2(n) && b < Pow2(n)
    ensures BitwiseNat(op, a, b) < Pow2(n)
    decreases n
  {
    if n > 0 && !(a == 0 && b == 0) {
      BitwiseNatBelow(op, a / 2, b / 2, n - 1);
    }
  }

  /** Bit `i` of `a op b` is `op` of the two operands' bits `i`. */
  lemma BitOfBitwise(op: BitOp, a: int64, b: int64, i: nat)
    requires i < 64
    ensures Bit(Bitwise(op, a, b), i) == Combine(op, Bit(a, i), Bit(b, i))
  {
    Pow2Of63And64();
    BitwiseNatBelow(op, ToUnsigned(a), ToUnsigned(b), 64);
    WrapOfUnsigned(BitwiseNat(op, ToUnsigned(a), ToUnsigned(b)));
    BitOfBitwiseNat(op, ToUnsigned(a), ToUnsigned(b), i);
  }

  lemma {:induction false} BitOfPow2(b: nat, i: nat)
    ensures BitNat(Pow2(b), i) <==> i == b
    decreases i
  {
    if i == 0 {
    } else if b == 0 {
      BitNatZero(i - 1);
    } else {
      BitOfPow2(b - 1, i - 1);
    }
  }

  /** `1 << b` has exactly bit `b` set, for `b < 64`. */
  lemma ShlOne(b: nat)
    requires b < 64
    ensures ToUnsigned(Shl(1, b)) == Pow2(b)
    ensures forall i :: Bit(Shl(1, b), i) <==> i == b
  {
    Pow2Of63And64();
    Pow2Monotone(b, 63);
    WrapOfUnsigned(Pow2(b));
    forall i ensures Bit(Shl(1, b), i) <==> i == b {
      BitOfPow2(b, i);
    }
  }

  /** `a ^ (1 << b)` flips bit `b` of `a` and keeps every other bit. */
  lemma FlipBit(a: int64, b: nat, i: nat)
    requires b < 64 && i < 64
    ensures Bit(Xor(a, Shl(1, b)), i) == (Bit(a, i) != (i == b))
  {
    ShlOne(b);
    BitOfBitwise(XorOp, a, Shl(1, b), i);
  }

  /** `2^i & u` keeps exactly bit `i` of `u`. */
  lemma {:induction false} AndPow2(i: nat, u: nat)
    ensures BitwiseNat(AndOp, Pow2(i), u) == if BitNat(u, i) then Pow2(i) else 0
    decreases i
  {
    if i == 0 {
      AndZero(u / 2);
    } else {
      AndPow2(i - 1, u / 2);
    }
  }

  lemma {:induction false} AndZero(u: nat)
    ensures BitwiseNat(AndOp, 0, u) == 0
    decreases u
  {
    if u > 0 {
      AndZero(u / 2);
    }
  }
}
