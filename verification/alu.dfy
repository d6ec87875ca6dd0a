/**
 * The arithmetic/logic unit (risc-v/__main__.py, `add` … `less_than_signed`).
 *
 * Operands are plain integers: register values are normally words, but the
 * simulator never masks an `auipc` result, so the ALU is defined (as the
 * source is) on every integer and its promises are stated for the inputs
 * they concern.
 */
module Alu {
  import opened Words
  import opened Bits
  import opened Sign

  /** `add`: addition wrapped to 32 bits. */
  function Add(a: int, b: int): (r: Word)
    ensures (a + b - r) % TWO_32 == 0
  {
    (a + b) % TWO_32
  }

  /** `sub`: subtraction wrapped to 32 bits. */
  function Sub(a: int, b: int): (r: Word)
    ensures (a - b - r) % TWO_32 == 0
  {
    ToUnsigned32((a - b) % TWO_32)
  }

  /** On words, `add` either is exact or drops exactly one carry out of bit 31. */
  lemma AddCarry(a: Word, b: Word)
    ensures Add(a, b) == if a + b < TWO_32 then a + b else a + b - TWO_32
  {
  }

  /** On words, `sub` either is exact or borrows exactly 2^32. */
  lemma SubBorrow(a: Word, b: Word)
    ensures Sub(a, b) == if a >= b then a - b else a - b + TWO_32
  {
  }

  /** `sub` undoes `add` and `add` undoes `sub`. */
  lemma AddSubInverse(a: Word, b: int)
    ensures Sub(Add(a, b), b) == a
    ensures Add(Sub(a, b), b) == a
  {
    var k := (a + b) / TWO_32;
    assert Add(a, b) - b == TWO_32 * (-k) + a;
    DivModUnique(Add(a, b) - b, TWO_32, -k, a);
    var j := (a - b) / TWO_32;
    assert Sub(a, b) + b == TWO_32 * (-j) + a;
    DivModUnique(Sub(a, b) + b, TWO_32, -j, a);
  }

  /** `add` only sees its operand modulo 2^32. */
  lemma AddCongruent(a: int, b: int, c: int)
    requires (b - c) % TWO_32 == 0
    ensures Add(a, b) == Add(a, c)
  {
    var k := (b - c) / TWO_32;
    var q := (a + c) / TWO_32;
    assert a + b == TWO_32 * (q + k) + Add(a, c);
    DivModUnique(a + b, TWO_32, q + k, Add(a, c));
  }

  // ---------------------------------------------------------------------
  // Bitwise operations

  /** The reference meaning of `b_and`/`b_or`/`b_xor`: the operation on the low 32 bits. */
  function Logic(op: BitOp, a: int, b: int): (r: Word)
    ensures forall i :: 0 <= i < 32 ==> Bit(r, i) == Apply(op, Bit(a % TWO_32, i), Bit(b % TWO_32, i))
  {
    Pow2Values();
    BitwiseBits(op, a % TWO_32, b % TWO_32, 32);
    Bitwise(op, a % TWO_32, b % TWO_32, 32)
  }

  /** A word is its own low 32 bits. */
  lemma WordMod(w: Word)
    ensures w % TWO_32 == w
  {
    DivModUnique(w, TWO_32, 0, w);
  }

  /** No bit of zero is set. */
  lemma ZeroBits()
    ensures forall i: nat :: !Bit(0, i)
  {
    forall i: nat
      ensures !Bit(0, i)
    {
      BitAbove(0, 0, i);
    }
  }

  /**
   * OR with zero keeps the low 32 bits and AND with zero clears them, so a
   * CSR set with x0 keeps its value (reduced to 32 bits) and a CSR "cleared"
   * with x0 through AND becomes 0.
   */
  lemma LogicZero(a: int)
    ensures Logic(OrOp, a, 0) == a % TWO_32
    ensures Logic(AndOp, a, 0) == 0
    ensures Logic(XorOp, a, 0) == a % TWO_32
  {
    Pow2Values();
    ZeroBits();
    WordMod(0);
    BitsDetermine(Logic(OrOp, a, 0), a % TWO_32, 32);
    BitsDetermine(Logic(AndOp, a, 0), 0, 32);
    BitsDetermine(Logic(XorOp, a, 0), a % TWO_32, 32);
  }

  /** Setting or clearing the same bits twice is the same as once. */
  lemma LogicIdempotent(op: BitOp, a: int, b: int)
    requires op != XorOp
    ensures Logic(op, Logic(op, a, b), b) == Logic(op, a, b)
  {
    var once := Logic(op, a, b);
    WordMod(once);
    Pow2Values();
    BitsDetermine(Logic(op, once, b), once, 32);
  }

  /** XOR with the same operand twice gives back the low 32 bits of the original. */
  lemma XorInvolution(a: int, b: int)
    ensures Logic(XorOp, Logic(XorOp, a, b), b) == a % TWO_32
  {
    var once := Logic(XorOp, a, b);
    WordMod(once);
    Pow2Values();
    BitsDetermine(Logic(XorOp, once, b), a % TWO_32, 32);
  }

  /**
   * One entry of the 256×256 lookup tables: the table is filled row by row
   * (row x, column y at index x*256 + y) with `x op y` on bytes.
   */
  function TableEntry(op: BitOp, index: int): nat
    requires 0 <= index < 0x1_0000
  {
    Bitwise(op, index / 0x100, index % 0x100, 8)
  }

  /** One byte lane: the table is indexed with a's byte plus 256 times b's byte. */
  function Lane(op: BitOp, a: int, b: int, scale: int): nat
    requires scale > 0
  {
    TableEntry(op, (a / scale) % 0x100 + ((b / scale) % 0x100) * 0x100)
  }

  /**
   * `b_and`, `b_or`, `b_xor` as the source computes them: four table lookups,
   * one per byte lane, recombined with the lanes' weights. The contract is the
   * equivalence with the plain 32-bit bitwise operation.
   */
  function ByteLanes(op: BitOp, a: int, b: int): (r: int)
    ensures r == Logic(op, a, b)
  {
    ByteLanesAreBitwise(op, a, b);
    Lane(op, a, b, 0x1) + Lane(op, a, b, 0x100) * 0x100
    + Lane(op, a, b, 0x1_0000) * 0x1_0000 + Lane(op, a, b, 0x100_0000) * 0x100_0000
  }

  lemma {:induction false} BitwiseCommutes(op: BitOp, a: nat, b: nat, n: nat)
    ensures Bitwise(op, a, b, n) == Bitwise(op, b, a, n)
    decreases n
  {
    if n > 0 {
      BitwiseCommutes(op, a / 2, b / 2, n - 1);
    }
  }

  /** A lane equals the 8-bit operation on the operands' bytes at that weight. */
  lemma LaneIsByteOp(op: BitOp, a: int, b: int, scale: int)
    requires scale > 0
    ensures Lane(op, a, b, scale) == Bitwise(op, (a / scale) % 0x100, (b / scale) % 0x100, 8)
  {
    var x, y := (a / scale) % 0x100, (b / scale) % 0x100;
    var index := x + y * 0x100;
    DivModUnique(index, 0x100, y, x);
    assert Lane(op, a, b, scale) == Bitwise(op, y, x, 8);
    hide Bitwise;
    BitwiseCommutes(op, y, x, 8);
  }

  lemma ByteLanesAreBitwise(op: BitOp, a: int, b: int)
    ensures Lane(op, a, b, 0x1) + Lane(op, a, b, 0x100) * 0x100
          + Lane(op, a, b, 0x1_0000) * 0x1_0000 + Lane(op, a, b, 0x100_0000) * 0x100_0000
         == Bitwise(op, a % TWO_32, b % TWO_32, 32)
  {
    Pow2Values();
    var A, B := a % TWO_32, b % TWO_32;
    var A1, B1 := Shr(A, 8), Shr(B, 8);
    var A2, B2 := Shr(A1, 8), Shr(B1, 8);
    var A3, B3 := Shr(A2, 8), Shr(B2, 8);
    assert A1 == A / 0x100 && A2 == A / 0x1_0000 && A3 == A / 0x100_0000;
    assert B1 == B / 0x100 && B2 == B / 0x1_0000 && B3 == B / 0x100_0000;
    BitwiseSplit(op, A, B, 8, 24);
    BitwiseSplit(op, A1, B1, 8, 16);
    BitwiseSplit(op, A2, B2, 8, 8);
    BitwiseLowBits(op, A, B, 8);
    BitwiseLowBits(op, A1, B1, 8);
    BitwiseLowBits(op, A2, B2, 8);
    BitwiseLowBits(op, A3, B3, 8);
    LaneIsByteOp(op, a, b, 0x1);
    LaneIsByteOp(op, a, b, 0x100);
    LaneIsByteOp(op, a, b, 0x1_0000);
    LaneIsByteOp(op, a, b, 0x100_0000);
    ByteOfWord(a);
    ByteOfWord(b);
  }

  /** The bytes of a value and of its low 32 bits agree in all four lanes. */
  lemma ByteOfWord(a: int)
    ensures (a % TWO_32) % 0x100 == a % 0x100
    ensures ((a % TWO_32) / 0x100) % 0x100 == (a / 0x100) % 0x100
    ensures ((a % TWO_32) / 0x1_0000) % 0x100 == (a / 0x1_0000) % 0x100
    ensures ((a % TWO_32) / 0x100_0000) % 0x100 == (a / 0x100_0000) % 0x100
  {
    var q, w := a / TWO_32, a % TWO_32;
    assert a == TWO_32 * q + w;
    ScaledLane(q, w, 0x1, 0x100_0000);
    ScaledLane(q, w, 0x100, 0x1_0000);
    ScaledLane(q, w, 0x1_0000, 0x100);
    ScaledLane(q, w, 0x100_0000, 0x1);
  }

  /** Adding a multiple of 2^32 does not change the byte at weight `scale` < 2^32. */
  lemma ScaledLane(q: int, w: int, scale: int, rest: int)
    requires scale > 0 && rest > 0 && scale * 0x100 * rest == TWO_32
    requires 0 <= w
    ensures ((TWO_32 * q + w) / scale) % 0x100 == (w / scale) % 0x100
  {
    var x := TWO_32 * q + w;
    assert x == scale * (0x100 * rest * q + w / scale) + w % scale by {
      assert TWO_32 * q == scale * (0x100 * rest * q);
    }
    DivModUnique(x, scale, 0x100 * rest * q + w / scale, w % scale);
    var y := w / scale;
    assert 0x100 * rest * q + y == 0x100 * (rest * q + y / 0x100) + y % 0x100;
    DivModUnique(0x100 * rest * q + y, 0x100, rest * q + y / 0x100, y % 0x100);
  }

  // ---------------------------------------------------------------------
  // Shifts. The count is used as given: the source does not reduce it to 5 bits.

  /** `b_shift_left`: multiply by 2^b and keep 32 bits. */
  function ShiftLeft(a: int, b: nat): (r: Word)
    ensures (a * Pow2(b) - r) % TWO_32 == 0
    ensures b >= 32 ==> r == 0
  {
    var x := a * Pow2(b);
    ShiftedOut(a, b);
    Wrapped(x);
    x % TWO_32
  }

  /** A number and its low 32 bits are congruent modulo 2^32. */
  lemma Wrapped(x: int)
    ensures (x - x % TWO_32) % TWO_32 == 0
  {
    DivModUnique(x - x % TWO_32, TWO_32, x / TWO_32, 0);
  }

  lemma MulSwap(a: int, k: int, p: int)
    ensures a * (k * p) == k * (a * p)
  {
  }

  lemma ShiftedOut(a: int, b: nat)
    ensures b >= 32 ==> (a * Pow2(b)) % TWO_32 == 0
  {
    if b >= 32 {
      Pow2Values();
      Pow2Add(32, b - 32);
      var p := Pow2(b - 32);
      var k := a * p;
      assert Pow2(b) == TWO_32 * p;
      MulSwap(a, TWO_32, p);
      DivModUnique(a * Pow2(b), TWO_32, k, 0);
    }
  }

  /** `b_shift_right`: floor division by 2^b, zero-filling from the left. */
  function ShiftRight(a: int, b: nat): (r: int)
    ensures 0 <= a ==> r * Pow2(b) <= a < r * Pow2(b) + Pow2(b)
    ensures 0 <= a < TWO_32 ==> 0 <= r < TWO_32
    ensures 0 <= a < TWO_32 && b >= 32 ==> r == 0
  {
    FloorDivBounds(a, Pow2(b));
    WideShift(b);
    a / Pow2(b)
  }

  /** A count of 32 or more shifts by at least 2^32. */
  lemma WideShift(b: nat)
    ensures b >= 32 ==> Pow2(b) >= TWO_32
  {
    if b >= 32 {
      Pow2Values();
      Pow2Add(32, b - 32);
      MulMonotone(TWO_32, 1, Pow2(b - 32));
    }
  }

  /** Floor division by a positive number, in the form the shift contracts need. */
  lemma FloorDivBounds(x: int, d: int)
    requires d >= 1
    ensures (x / d) * d <= x < (x / d) * d + d
    ensures 0 <= x ==> 0 <= x / d <= x
    ensures x < 0 ==> x <= x / d < 0
    ensures -d <= x < d ==> x / d == (if x < 0 then -1 else 0)
  {
    var q := x / d;
    assert x == d * q + x % d;
    if 0 <= x {
      NonNegativeQuotient(x, d);
    } else {
      NegativeQuotient(x, d);
    }
    if -d <= x < d {
      if x < 0 {
        DivModUnique(x, d, -1, x + d);
      } else {
        DivModUnique(x, d, 0, x);
      }
    }
  }

  lemma NonNegativeQuotient(x: int, d: int)
    requires d >= 1 && 0 <= x
    ensures 0 <= x / d <= x
  {
    DivNonNegative(x, d);
    MulMonotone(x / d, 1, d);
  }

  lemma NegativeQuotient(x: int, d: int)
    requires d >= 1 && x < 0
    ensures x <= x / d < 0
  {
    var q := x / d;
    assert x == d * q + x % d;
    if q >= 0 {
      MulMonotone(d, 0, q);
      assert false;
    }
    assert x - q == (d - 1) * q + x % d;
    MulMonotone(d - 1, q, -1);
  }

  /** `b_shift_right_arith`: shift the signed reading, then represent the result as a word. */
  function ShiftRightArith(a: int, b: nat): (r: int)
    ensures 0 <= a < TWO_32 ==> 0 <= r < TWO_32 && (r >= TWO_31 <==> a >= TWO_31)
    ensures 0 <= a < TWO_32 && b >= 32 ==> r == (if a >= TWO_31 then 0xFFFF_FFFF else 0)
  {
    var s := ToSigned32(a);
    FloorDivBounds(s, Pow2(b));
    WideShift(b);
    ToUnsigned32(s / Pow2(b))
  }

  /**
   * Shifting a word left by b and back right by b keeps exactly its low
   * 32 - b bits: the top b bits are shifted out.
   */
  lemma ShiftLeftThenRight(a: Word, b: nat)
    requires b <= 32
    ensures ShiftRight(ShiftLeft(a, b), b) == a % Pow2(32 - b)
  {
    Pow2Add(b, 32 - b);
    Pow2Values();
    assert Pow2(b) * Pow2(32 - b) == TWO_32;
    ScaleAndDrop(a, Pow2(b), Pow2(32 - b), TWO_32);
  }

  /** (a * p mod p * m) / p is a mod m: scaling up by p and back keeps the low part modulo m. */
  lemma ScaleAndDrop(a: int, p: int, m: int, t: int)
    requires p > 0 && m > 0 && p * m == t
    ensures ((a * p) % t) / p == a % m
  {
    var q, lo := a / m, a % m;
    assert a * p == (m * q) * p + lo * p by {
      assert a == m * q + lo;
    }
    assert (m * q) * p == t * q by {
      MulSwap(q, m, p);
    }
    MulMonotone(p, lo + 1, m);
    DivModUnique(a * p, t, q, lo * p);
    DivModUnique(lo * p, p, lo, 0);
  }

  /** The signed reading of an arithmetic shift is the floor quotient of the signed reading. */
  lemma ShiftRightArithIsFloorDivision(a: Word, b: nat)
    ensures ToSigned32(ShiftRightArith(a, b)) == ToSigned32(a) / Pow2(b)
  {
    FloorDivBounds(ToSigned32(a), Pow2(b));
  }

  /** `sra` replicates the sign bit and `srl` does not; `sll` drops the bits it shifts out. */
  lemma ShiftExamples()
    ensures ShiftLeft(1, 4) == 16
    ensures ShiftLeft(0x8000_0001, 1) == 2
    ensures ShiftRightArith(0x8000_0000, 4) == 0xF800_0000
    ensures ShiftRight(0x8000_0000, 4) == 0x0800_0000
  {
    Pow2Values();
  }

  // ---------------------------------------------------------------------
  // Comparisons

  /** `less_than_unsigned`: 1 when a < b as numbers, else 0. */
  function LessThanUnsigned(a: int, b: int): (r: int)
    ensures r == 0 || r == 1
  {
    if a < b then 1 else 0
  }

  /** `less_than_signed`: 1 when the signed readings are ordered, else 0. */
  function LessThanSigned(a: int, b: int): (r: int)
    ensures r == 0 || r == 1
  {
    if ToSigned32(a) < ToSigned32(b) then 1 else 0
  }

  /**
   * The signed comparison of two words, phrased by sign bits as hardware does it:
   * a negative word is below every non-negative one, otherwise compare as unsigned.
   */
  lemma SignedCompareBySignBit(a: Word, b: Word)
    ensures LessThanSigned(a, b) == 1
        <==> (a >= TWO_31 && b < TWO_31) || ((a >= TWO_31) == (b >= TWO_31) && a < b)
  {
  }

  /**
   * `sltiu` passes the sign-extended immediate as a possibly negative number,
   * so a negative immediate makes the comparison false for every register
   * value, whereas comparing against its 32-bit representation (what RV32I
   * specifies) is true for every smaller word.
   */
  lemma SltiuNegativeImmediate(a: Word, imm: int)
    requires -2048 <= imm < 0
    ensures LessThanUnsigned(a, imm) == 0
    ensures a < ToUnsigned32(imm) ==> LessThanUnsigned(a, ToUnsigned32(imm)) == 1
  {
  }
}
