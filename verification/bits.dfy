/**
 * Bit-level reference semantics on non-negative integers.
 *
 * The simulator works on plain numbers: a shift right is a floor division by a
 * power of two, a mask with 2^k - 1 is a remainder, and AND/OR/XOR are built
 * from byte lookups. This module gives the independent, bit-by-bit meaning
 * those computations are proved against.
 */
module Bits {

  /** 2^n. */
  function Pow2(n: nat): (r: nat)
    ensures r >= 1
  {
    if n == 0 then 1 else 2 * Pow2(n - 1)
  }

  lemma {:induction false} Pow2Add(m: nat, n: nat)
    ensures Pow2(m + n) == Pow2(m) * Pow2(n)
    decreases m
  {
    if m > 0 {
      Pow2Add(m - 1, n);
      assert Pow2(m + n) == 2 * Pow2(m - 1 + n);
      assert 2 * (Pow2(m - 1) * Pow2(n)) == (2 * Pow2(m - 1)) * Pow2(n);
    }
  }

  /** The powers of two the simulator's byte and word arithmetic is built on. */
  lemma Pow2Values()
    ensures Pow2(1) == 2 && Pow2(4) == 0x10 && Pow2(8) == 0x100
    ensures Pow2(16) == 0x1_0000 && Pow2(24) == 0x100_0000 && Pow2(31) == 0x8000_0000
    ensures Pow2(32) == 0x1_0000_0000
  {
    assert Pow2(2) == 4;
    assert Pow2(4) == 16;
    assert Pow2(8) == 256 by {
      assert Pow2(5) == 32;
      assert Pow2(6) == 64;
      assert Pow2(7) == 128;
    }
    Pow2Add(8, 8);
    Pow2Add(16, 8);
    Pow2Add(16, 16);
    Pow2Add(16, 15);
    Pow2Add(8, 7);
    assert Pow2(7) == 128 by {
      assert Pow2(5) == 32;
      assert Pow2(6) == 64;
    }
  }

  /** Floor division and remainder are determined by the defining equation. */
  lemma DivModUnique(x: int, d: int, q: int, m: int)
    requires d > 0
    requires x == d * q + m && 0 <= m < d
    ensures x / d == q && x % d == m
  {
    var q0, m0 := x / d, x % d;
    if q0 < q {
      MulMonotone(d, q0 + 1, q);
      assert false;
    } else if q < q0 {
      MulMonotone(d, q + 1, q0);
      assert false;
    }
  }

  /** Dividing by a then by b is dividing by a * b. */
  lemma DivDiv(x: int, a: int, b: int)
    requires a > 0 && b > 0
    ensures (x / a) / b == x / (a * b)
  {
    var q1, r1 := x / a, x % a;
    var q2, r2 := q1 / b, q1 % b;
    assert x == a * (b * q2 + r2) + r1;
    assert a * (b * q2 + r2) == (a * b) * q2 + a * r2;
    MulMonotone(a, r2, b - 1);
    assert a * (b - 1) == a * b - a;
    DivModUnique(x, a * b, q2, a * r2 + r1);
  }

  /** In x = lo + w*d + (w*width)*hi with lo and d in range, the field at weight w is d. */
  lemma Field(x: int, lo: int, d: int, hi: int, w: int, width: int)
    requires w > 0 && width > 0
    requires 0 <= lo < w && 0 <= d < width
    requires x == lo + w * d + (w * width) * hi
    ensures x / w == d + width * hi
    ensures (x / w) % width == d
    ensures x / (w * width) == hi
  {
    assert (w * width) * hi == w * (width * hi);
    assert x == w * (d + width * hi) + lo;
    DivModUnique(x, w, d + width * hi, lo);
    DivModUnique(d + width * hi, width, hi, d);
    DivDiv(x, w, width);
  }

  lemma MulMonotone(d: int, a: int, b: int)
    requires d >= 0 && a <= b
    ensures d * a <= d * b
  {
    assert d * b - d * a == d * (b - a);
  }

  lemma DivNonNegative(x: int, d: int)
    requires x >= 0 && d > 0
    ensures x / d >= 0
  {
    if x / d < 0 {
      MulMonotone(d, x / d, -1);
      assert false;
    }
  }

  /** x shifted right by n bits: the floor of x / 2^n. */
  function Shr(x: nat, n: nat): nat
  {
    DivNonNegative(x, Pow2(n));
    x / Pow2(n)
  }

  /** Dividing by 2^(i+1) is halving, then dividing by 2^i; likewise for the remainder. */
  lemma Halve(x: int, i: nat)
    ensures x / Pow2(i + 1) == (x / 2) / Pow2(i)
    ensures x % Pow2(i + 1) == 2 * ((x / 2) % Pow2(i)) + x % 2
  {
    var p := Pow2(i);
    var q2, r2 := (x / 2) / p, (x / 2) % p;
    assert x == 2 * (x / 2) + x % 2;
    assert x / 2 == p * q2 + r2;
    assert x == (2 * p) * q2 + (2 * r2 + x % 2);
    DivModUnique(x, 2 * p, q2, 2 * r2 + x % 2);
  }

  /** Bit i of x, counting from the least significant bit. */
  predicate Bit(x: nat, i: nat)
  {
    (x / Pow2(i)) % 2 == 1
  }

  lemma BitZero(x: nat)
    ensures Bit(x, 0) == (x % 2 == 1)
  {
  }

  lemma BitShift(x: nat, i: nat)
    ensures Bit(x, i + 1) == Bit(x / 2, i)
  {
    Halve(x, i);
  }

  /** A value below 2^n has no bit set at position n or above. */
  lemma {:induction false} BitAbove(x: nat, n: nat, i: nat)
    requires x < Pow2(n) && n <= i
    ensures !Bit(x, i)
  {
    Pow2Add(n, i - n);
    MulMonotone(Pow2(n), 1, Pow2(i - n));
    DivModUnique(x, Pow2(i), 0, x);
  }

  /** Two n-bit values with the same bits are equal. */
  lemma {:induction false} BitsDetermine(x: nat, y: nat, n: nat)
    requires x < Pow2(n) && y < Pow2(n)
    requires forall i :: 0 <= i < n ==> Bit(x, i) == Bit(y, i)
    ensures x == y
    decreases n
  {
    if n > 0 {
      assert Bit(x, 0) == Bit(y, 0);
      BitZero(x);
      BitZero(y);
      forall i | 0 <= i < n - 1
        ensures Bit(x / 2, i) == Bit(y / 2, i)
      {
        BitShift(x, i);
        BitShift(y, i);
        assert Bit(x, i + 1) == Bit(y, i + 1);
      }
      BitsDetermine(x / 2, y / 2, n - 1);
    }
  }

  /** The three bitwise operations of the ALU. */
  datatype BitOp = AndOp | OrOp | XorOp

  /** The operation on a single pair of bits. */
  function Apply(op: BitOp, x: bool, y: bool): bool
  {
    match op
    case AndOp => x && y
    case OrOp => x || y
    case XorOp => x != y
  }

  /** The low n bits of `op` applied bit by bit to a and b. */
  function Bitwise(op: BitOp, a: nat, b: nat, n: nat): (r: nat)
    ensures r < Pow2(n)
  {
    if n == 0 then 0
    else
      (if Apply(op, a % 2 == 1, b % 2 == 1) then 1 else 0) + 2 * Bitwise(op, a / 2, b / 2, n - 1)
  }

  /** Every bit of a bitwise result is the operation applied to the operands' bits. */
  lemma {:induction false} BitwiseBit(op: BitOp, a: nat, b: nat, n: nat, i: nat)
    requires i < n
    ensures Bit(Bitwise(op, a, b, n), i) == Apply(op, Bit(a, i), Bit(b, i))
    decreases n
  {
    var r := Bitwise(op, a, b, n);
    assert r / 2 == Bitwise(op, a / 2, b / 2, n - 1);
    if i == 0 {
      BitZero(r);
      BitZero(a);
      BitZero(b);
    } else {
      BitShift(r, i - 1);
      BitShift(a, i - 1);
      BitShift(b, i - 1);
      BitwiseBit(op, a / 2, b / 2, n - 1, i - 1);
    }
  }

  /** All bits at once: below n they follow `Apply`, from n upwards they are clear. */
  lemma BitwiseBits(op: BitOp, a: nat, b: nat, n: nat)
    ensures forall i :: 0 <= i < n ==> Bit(Bitwise(op, a, b, n), i) == Apply(op, Bit(a, i), Bit(b, i))
    ensures forall i :: n <= i ==> !Bit(Bitwise(op, a, b, n), i)
  {
    forall i | 0 <= i < n
      ensures Bit(Bitwise(op, a, b, n), i) == Apply(op, Bit(a, i), Bit(b, i))
    {
      BitwiseBit(op, a, b, n, i);
    }
    forall i | n <= i
      ensures !Bit(Bitwise(op, a, b, n), i)
    {
      BitAbove(Bitwise(op, a, b, n), n, i);
    }
  }

  /** An n-bit result splits into its low m bits and the n bits above them. */
  lemma {:induction false} BitwiseSplit(op: BitOp, a: nat, b: nat, m: nat, n: nat)
    ensures Bitwise(op, a, b, m + n)
         == Bitwise(op, a, b, m) + Pow2(m) * Bitwise(op, Shr(a, m), Shr(b, m), n)
    decreases m
  {
    if m == 0 {
      assert Pow2(0) == 1;
    } else {
      BitwiseSplit(op, a / 2, b / 2, m - 1, n);
      BitwiseSplitStep(op, a, b, m, n);
    }
  }

  /** The inductive step of `BitwiseSplit`: peel off the lowest bit. */
  lemma BitwiseSplitStep(op: BitOp, a: nat, b: nat, m: nat, n: nat)
    requires m > 0
    requires Bitwise(op, a / 2, b / 2, m - 1 + n)
          == Bitwise(op, a / 2, b / 2, m - 1) + Pow2(m - 1) * Bitwise(op, Shr(a / 2, m - 1), Shr(b / 2, m - 1), n)
    ensures Bitwise(op, a, b, m + n)
         == Bitwise(op, a, b, m) + Pow2(m) * Bitwise(op, Shr(a, m), Shr(b, m), n)
  {
    ShrHalf(a, m);
    ShrHalf(b, m);
    BitwiseStep(op, a, b, m + n);
    BitwiseStep(op, a, b, m);
    assert m + n - 1 == m - 1 + n;
    hide Bitwise, Pow2, Shr;
    SplitAlgebra(Bitwise(op, a, b, m + n), if Apply(op, a % 2 == 1, b % 2 == 1) then 1 else 0,
                 Bitwise(op, a / 2, b / 2, m - 1 + n), Bitwise(op, a / 2, b / 2, m - 1), Pow2(m - 1),
                 Bitwise(op, Shr(a, m), Shr(b, m), n), Bitwise(op, a, b, m), Pow2(m));
  }

  /** Shifting right by m is halving, then shifting right by m - 1. */
  lemma ShrHalf(x: nat, m: nat)
    requires m > 0
    ensures Shr(x, m) == Shr(x / 2, m - 1)
  {
    Halve(x, m - 1);
    assert m - 1 + 1 == m;
  }

  /** The arithmetic of one step of `BitwiseSplit`. */
  lemma SplitAlgebra(whole: int, bit: int, rest: int, lo: int, p: int, hi: int, low: int, pm: int)
    requires whole == bit + 2 * rest && rest == lo + p * hi
    requires low == bit + 2 * lo && pm == 2 * p
    ensures whole == low + pm * hi
  {
    DoubleProduct(p, hi);
  }

  lemma DoubleProduct(p: int, h: int)
    ensures 2 * (p * h) == (2 * p) * h
  {
  }

  /** Only the low n bits of the operands matter. */
  lemma {:induction false} BitwiseLowBits(op: BitOp, a: nat, b: nat, n: nat)
    ensures Bitwise(op, a, b, n) == Bitwise(op, a % Pow2(n), b % Pow2(n), n)
    decreases n
  {
    if n > 0 {
      Halve(a, n - 1);
      Halve(b, n - 1);
      BitwiseLowBits(op, a / 2, b / 2, n - 1);
    }
  }

  /** AND with the mask 2^n - 1 keeps exactly the remainder modulo 2^n. */
  lemma {:induction false} MaskIsRemainder(x: nat, n: nat)
    ensures Bitwise(AndOp, x, Pow2(n) - 1, n) == x % Pow2(n)
    decreases n
  {
    if n == 0 {
      assert Bitwise(AndOp, x, Pow2(n) - 1, n) == 0;
      DivModUnique(x, 1, x, 0);
    } else {
      MaskIsRemainder(x / 2, n - 1);
      MaskIsRemainderStep(x, n);
    }
  }

  /** The inductive step of `MaskIsRemainder`: peel off the lowest bit. */
  lemma MaskIsRemainderStep(x: nat, n: nat)
    requires n > 0
    requires Bitwise(AndOp, x / 2, Pow2(n - 1) - 1, n - 1) == (x / 2) % Pow2(n - 1)
    ensures Bitwise(AndOp, x, Pow2(n) - 1, n) == x % Pow2(n)
  {
    hide Bitwise, Pow2;
    MaskStep(x, n);
    LowBitsStep(x, n);
    Chain(Bitwise(AndOp, x, Pow2(n) - 1, n), Bitwise(AndOp, x / 2, Pow2(n - 1) - 1, n - 1),
          (x / 2) % Pow2(n - 1), x % Pow2(n), x % 2);
  }

  /** The low n bits of x are its lowest bit below the low n - 1 bits of x / 2. */
  lemma LowBitsStep(x: int, n: nat)
    requires n > 0
    ensures x % Pow2(n) == 2 * ((x / 2) % Pow2(n - 1)) + x % 2
  {
    Halve(x, n - 1);
    assert n - 1 + 1 == n;
  }

  /** Two numbers built from the same low bit and the same upper part are equal. */
  lemma Chain(whole: int, upper: int, upper2: int, whole2: int, bit: int)
    requires whole == bit + 2 * upper && upper == upper2 && whole2 == 2 * upper2 + bit
    ensures whole == whole2
  {
  }

  /** The lowest bit of x AND an all-ones mask is the lowest bit of x. */
  lemma MaskStep(x: nat, n: nat)
    requires n > 0
    ensures Bitwise(AndOp, x, Pow2(n) - 1, n) == x % 2 + 2 * Bitwise(AndOp, x / 2, Pow2(n - 1) - 1, n - 1)
  {
    hide Bitwise;
    MaskHalves(n);
    BitwiseStep(AndOp, x, Pow2(n) - 1, n);
  }

  /** One step of `Bitwise`: the lowest bit, then the rest shifted down. */
  lemma BitwiseStep(op: BitOp, a: nat, b: nat, n: nat)
    requires n > 0
    ensures Bitwise(op, a, b, n) == (if Apply(op, a % 2 == 1, b % 2 == 1) then 1 else 0) + 2 * Bitwise(op, a / 2, b / 2, n - 1)
  {
  }

  /** The mask 2^n - 1 is odd, and halving it gives the mask 2^(n-1) - 1. */
  lemma MaskHalves(n: nat)
    requires n > 0
    ensures (Pow2(n) - 1) % 2 == 1 && (Pow2(n) - 1) / 2 == Pow2(n - 1) - 1
  {
    var half := Pow2(n - 1);
    assert Pow2(n) - 1 == 2 * (half - 1) + 1;
    DivModUnique(Pow2(n) - 1, 2, half - 1, 1);
  }

}
