/** Machine words: the bits of a 32-bit word, and C's 32-bit integer conversions. */
module Words {

  // ---------------------------------------------------------------------------------------
  // Bit-vectors

  predicate LowBit(w: bv32) {
    w & 1 == 1
  }

  function Half(w: bv32): bv32 {
    w >> 1
  }

  function Xor(a: bv32, b: bv32): bv32 {
    a ^ b
  }

  function And(a: bv32, b: bv32): bv32 {
    a & b
  }

  function Or(a: bv32, b: bv32): bv32 {
    a | b
  }

  /** The word in which only bit i is set. */
  function Mask(i: nat): bv32
    requires i < 32
  {
    (1 as bv32) << i
  }

  predicate Bit(w: bv32, i: nat)
    decreases i
  {
    if i == 0 then LowBit(w) else Bit(Half(w), i - 1)
  }

  lemma XorZero(a: bv32)
    ensures Xor(a, 0) == a
  {
  }

  lemma XorSwap(a: bv32, b: bv32, c: bv32)
    ensures Xor(Xor(a, b), c) == Xor(Xor(a, c), b)
  {
    hide Xor;
    XorTwice(a, b, c);
    XorTwice(a, c, b);
    SameXor(a, b, c, Xor(Xor(a, b), c), Xor(Xor(a, c), b));
  }

  lemma XorAssociative(a: bv32, b: bv32, c: bv32)
    ensures Xor(a, Xor(b, c)) == Xor(Xor(a, b), c)
  {
    hide Xor;
    XorOfXor(a, b, c);
    XorTwice(a, b, c);
    SameGroups(a, b, c, Xor(a, Xor(b, c)), Xor(Xor(a, b), c));
  }

  lemma XorOfXor(a: bv32, b: bv32, c: bv32)
    ensures Xor(a, Xor(b, c)) == a ^ (b ^ c)
  {
    hide Xor;
    XorIs(b, c);
    XorIs(a, Xor(b, c));
  }

  lemma SameGroups(a: bv32, b: bv32, c: bv32, p: bv32, q: bv32)
    requires p == a ^ (b ^ c) && q == (a ^ b) ^ c
    ensures p == q
  {
  }

  lemma XorIs(a: bv32, b: bv32)
    ensures Xor(a, b) == a ^ b
  {
  }

  lemma XorTwice(a: bv32, b: bv32, c: bv32)
    ensures Xor(Xor(a, b), c) == (a ^ b) ^ c
  {
    hide Xor;
    XorIs(a, b);
    XorIs(Xor(a, b), c);
  }

  lemma SameXor(a: bv32, b: bv32, c: bv32, p: bv32, q: bv32)
    requires p == (a ^ b) ^ c && q == (a ^ c) ^ b
    ensures p == q
  {
  }

  lemma XorLowBit(a: bv32, b: bv32)
    ensures LowBit(Xor(a, b)) == (LowBit(a) != LowBit(b))
  {
  }

  lemma XorHalf(a: bv32, b: bv32)
    ensures Half(Xor(a, b)) == Xor(Half(a), Half(b))
  {
  }

  lemma AndLowBit(a: bv32, b: bv32)
    ensures LowBit(And(a, b)) == (LowBit(a) && LowBit(b))
  {
  }

  lemma AndHalf(a: bv32, b: bv32)
    ensures Half(And(a, b)) == And(Half(a), Half(b))
  {
  }

  lemma OrLowBit(a: bv32, b: bv32)
    ensures LowBit(Or(a, b)) == (LowBit(a) || LowBit(b))
  {
  }

  lemma OrHalf(a: bv32, b: bv32)
    ensures Half(Or(a, b)) == Or(Half(a), Half(b))
  {
  }

  lemma {:induction false} XorBit(a: bv32, b: bv32, i: nat)
    ensures Bit(Xor(a, b), i) == (Bit(a, i) != Bit(b, i))
    decreases i
  {
    hide LowBit, Half, Xor;
    if i == 0 {
      XorLowBit(a, b);
    } else {
      XorHalf(a, b);
      XorBit(Half(a), Half(b), i - 1);
    }
  }

  lemma {:induction false} AndBit(a: bv32, b: bv32, i: nat)
    ensures Bit(And(a, b), i) == (Bit(a, i) && Bit(b, i))
    decreases i
  {
    hide LowBit, Half, And;
    if i == 0 {
      AndLowBit(a, b);
    } else {
      AndHalf(a, b);
      AndBit(Half(a), Half(b), i - 1);
    }
  }

  lemma {:induction false} OrBit(a: bv32, b: bv32, i: nat)
    ensures Bit(Or(a, b), i) == (Bit(a, i) || Bit(b, i))
    decreases i
  {
    hide LowBit, Half, Or;
    if i == 0 {
      OrLowBit(a, b);
    } else {
      OrHalf(a, b);
      OrBit(Half(a), Half(b), i - 1);
    }
  }

  lemma {:induction false} ZeroBit(i: nat)
    ensures !Bit(0, i)
    decreases i
  {
    assert !LowBit(0) && Half(0) == 0;
    if i != 0 {
      ZeroBit(i - 1);
    }
  }

  lemma MaskHalf(i: nat)
    requires 0 < i < 32
    ensures Half(Mask(i)) == Mask(i - 1)
  {
  }

  lemma MaskLowBit(i: nat)
    requires i < 32
    ensures LowBit(Mask(i)) == (i == 0)
  {
  }

  lemma MaskZeroHalf()
    ensures Half(Mask(0)) == 0
  {
  }

  lemma {:induction false} MaskBit(i: nat, j: nat)
    requires i < 32
    ensures Bit(Mask(i), j) == (i == j)
    decreases j
  {
    hide LowBit, Half, Mask;
    if j == 0 {
      MaskLowBit(i);
    } else if i == 0 {
      MaskZeroHalf();
      ZeroBit(j - 1);
    } else {
      MaskHalf(i);
      MaskBit(i - 1, j - 1);
    }
  }

  // ---------------------------------------------------------------------------------------
  // Integers

  const TWO_32 := 0x1_0000_0000

  function Pow2(n: nat): (r: nat)
    ensures r > 0
  {
    if n == 0 then 1 else 2 * Pow2(n - 1)
  }

  /** Conversion to uint32_t. */
  function U32(x: int): (r: nat)
    ensures r < TWO_32
  {
    x % TWO_32
  }

  /** Conversion to int32_t, as two's-complement compilers do it. */
  function S32(x: int): (r: int)
    ensures -0x8000_0000 <= r < 0x8000_0000
    ensures U32(r) == U32(x)
  {
    if U32(x) < 0x8000_0000 then U32(x) else U32(x) - TWO_32
  }

  function Abs(x: int): (r: int)
    ensures r >= 0
  {
    if x < 0 then -x else x
  }

  /** C division: truncates toward zero. */
  function TruncDiv(a: int, b: int): int
    requires b != 0
  {
    if (a >= 0) == (b > 0) then Abs(a) / Abs(b) else -(Abs(a) / Abs(b))
  }

  /** Bitwise or on numbers of any size. */
  function BitOr(a: nat, b: nat): nat
    decreases a + b
  {
    if a == 0 && b == 0 then 0
    else (if a % 2 == 1 || b % 2 == 1 then 1 else 0) + 2 * BitOr(a / 2, b / 2)
  }

  lemma BitOrOne(a: nat, b: nat, y: nat)
    requires y < 2
    ensures BitOr(2 * a, 2 * b + y) == 2 * BitOr(a, b) + y
  {
  }

  lemma BitOrTwo(a: nat, b: nat, y: nat)
    requires y < 4
    ensures BitOr(4 * a, 4 * b + y) == 4 * BitOr(a, b) + y
  {
    hide BitOr;
    BitOrOne(a, b, y / 2);
    BitOrOne(2 * a, 2 * b + y / 2, y % 2);
  }

  lemma BitOrFour(a: nat, b: nat, y: nat)
    requires y < 16
    ensures BitOr(16 * a, 16 * b + y) == 16 * BitOr(a, b) + y
  {
    hide BitOr;
    BitOrTwo(a, b, y / 4);
    BitOrTwo(4 * a, 4 * b + y / 4, y % 4);
  }

  /** Where the low byte of one number is free, it becomes that of the other. */
  lemma BitOrByte(a: nat, b: nat, y: nat)
    requires y < 256
    ensures BitOr(256 * a, 256 * b + y) == 256 * BitOr(a, b) + y
  {
    hide BitOr;
    BitOrFour(a, b, y / 16);
    BitOrFour(16 * a, 16 * b + y / 16, y % 16);
  }

  lemma {:induction false} BitOrZero(a: nat)
    ensures BitOr(a, 0) == a
  {
    if a > 0 {
      BitOrZero(a / 2);
    }
  }

  lemma ProductGrows(m: nat, p: int, q: int)
    ensures p < q ==> m * p + m <= m * q
  {
    if p < q {
      assert m * q == m * p + m * (q - p);
      assert m * (q - p) == m * (q - p - 1) + m;
    }
  }

  lemma ProductGap(m: nat, p: int, q: int, gap: nat)
    ensures p + gap <= q ==> m * p + m * gap <= m * q
  {
    if p + gap <= q {
      assert m * q == m * p + m * gap + m * (q - p - gap);
    }
  }
}
