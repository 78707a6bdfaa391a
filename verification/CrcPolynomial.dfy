/** What the CRC means: the register holds, bit-reversed, the remainder of a polynomial division
    over GF(2). The DMA sniffer is set up for the most-significant-bit-first form over reversed
    bytes (dma/sniff_crc/sniff_crc.c:71-75), which is proved equal to the software loop. */
module CrcPolynomial {
  import opened Words
  import opened Crc32

  const POLY: bv32 := 0x04C1_1DB7

  // ---------------------------------------------------------------------------------------
  // The most-significant-bit-first register

  predicate TopBit(w: bv32) {
    w & 0x8000_0000 != 0
  }

  function Double(w: bv32): bv32 {
    w << 1
  }

  function MsbStep(reg: bv32, bit: bool): bv32 {
    MsbFeedback(reg, TopBit(reg) != bit)
  }

  function MsbFeedback(reg: bv32, tap: bool): bv32 {
    Double(reg) ^ (if tap then POLY else 0)
  }

  function MsbRegister(start: bv32, bits: seq<bool>): bv32
    decreases |bits|
  {
    if bits == [] then start else MsbStep(MsbRegister(start, bits[..|bits| - 1]), bits[|bits| - 1])
  }

  /** Reverses the bits within each group of 2, 4, 8 and 16 bits, and then the two halves. */
  function ReverseWord(w: bv32): bv32 {
    SwapHalves(SwapBytes(SwapNibbles(SwapPairs(SwapBits(w)))))
  }

  function SwapBits(w: bv32): bv32 {
    ((w >> 1) & 0x5555_5555) | ((w & 0x5555_5555) << 1)
  }

  function SwapPairs(w: bv32): bv32 {
    ((w >> 2) & 0x3333_3333) | ((w & 0x3333_3333) << 2)
  }

  function SwapNibbles(w: bv32): bv32 {
    ((w >> 4) & 0x0F0F_0F0F) | ((w & 0x0F0F_0F0F) << 4)
  }

  function SwapBytes(w: bv32): bv32 {
    ((w >> 8) & 0x00FF_00FF) | ((w & 0x00FF_00FF) << 8)
  }

  function SwapHalves(w: bv32): bv32 {
    (w >> 16) | (w << 16)
  }

  function ReverseByte(b: bv8): bv8 {
    var x := ((b >> 1) & 0x55) | ((b & 0x55) << 1);
    var y := ((x >> 2) & 0x33) | ((x & 0x33) << 2);
    (y >> 4) | (y << 4)
  }

  /** The bits of a byte, most significant first. */
  function MsbBits(b: bv8): seq<bool> {
    [b & 0x80 != 0, b & 0x40 != 0, b & 0x20 != 0, b & 0x10 != 0, b & 8 != 0, b & 4 != 0, b & 2 != 0, b & 1 != 0]
  }

  /** The sniffer with bit-reversed data: every byte is reversed and then consumed from its top bit. */
  function SnifferBits(data: seq<bv8>): seq<bool> {
    if data == [] then [] else MsbBits(ReverseByte(data[0])) + SnifferBits(data[1..])
  }

  /** The accumulator as it is read, with output reversal enabled. */
  function SniffedCrc(accumulator: bv32, data: seq<bv8>): bv32 {
    ReverseWord(MsbRegister(accumulator, SnifferBits(data)))
  }

  lemma MirrorTap(reg: bv32)
    ensures LowBit(ReverseWord(reg)) == TopBit(reg)
  {
  }

  lemma MirrorFeedback(reg: bv32, tap: bool)
    ensures ReverseWord(MsbFeedback(reg, tap)) == Feedback(ReverseWord(reg), tap)
  {
    hide ReverseWord, Half, Double, Xor;
    FeedbackAsXor(reg, tap);
    FeedbackForm(ReverseWord(reg), tap);
    MirrorDouble(reg);
    MirrorPoly(Double(reg));
  }

  lemma MirrorDouble(w: bv32)
    ensures ReverseWord(Double(w)) == Half(ReverseWord(w))
  {
    hide ReverseWord, Half, Double;
    ReverseWordTwice(w);
    DoubleBetweenReversals(ReverseWord(w));
  }

  lemma DoubleBetweenReversals(u: bv32)
    ensures ReverseWord(Double(ReverseWord(u))) == Half(u)
  {
  }

  lemma MirrorPoly(w: bv32)
    ensures ReverseWord(Xor(w, POLY)) == Xor(ReverseWord(w), REVERSED_POLY)
  {
    hide ReverseWord, Xor;
    ReversedPoly();
    MirrorXor(w, POLY);
  }

  lemma ReversedPoly()
    ensures ReverseWord(POLY) == REVERSED_POLY
  {
  }

  lemma MirrorXor(v: bv32, w: bv32)
    ensures ReverseWord(Xor(v, w)) == Xor(ReverseWord(v), ReverseWord(w))
  {
  }

  lemma FeedbackAsXor(w: bv32, tap: bool)
    ensures MsbFeedback(w, tap) == if tap then Xor(Double(w), POLY) else Double(w)
  {
    hide Double;
    if !tap {
      XorZero(Double(w));
    }
  }

  lemma ReverseWordTwice(w: bv32)
    ensures ReverseWord(ReverseWord(w)) == w
  {
  }

  lemma {:induction false} MirrorBits(start: bv32, bits: seq<bool>)
    ensures ReverseWord(MsbRegister(start, bits)) == CrcBits(ReverseWord(start), bits)
    decreases |bits|
  {
    hide ReverseWord, Feedback, MsbFeedback, LowBit, TopBit;
    if bits != [] {
      var before, last := bits[..|bits| - 1], bits[|bits| - 1];
      MirrorBits(start, before);
      assert bits == before + [last];
      CrcBitsAppend(ReverseWord(start), before, [last]);
      var reg := MsbRegister(start, before);
      MirrorTap(reg);
      MirrorFeedback(reg, TopBit(reg) != last);
      assert CrcBits(ReverseWord(reg), [last]) == BitStep(ReverseWord(reg), last);
    }
  }

  lemma ReversedByteBits(b: bv8)
    ensures MsbBits(ReverseByte(b)) == ByteBits(b)
  {
    hide ReverseByte, MsbBits, LowBit, Half, LowBits;
    ReversedByteTable(b);
    EightBits(b as bv32);
  }

  lemma EightBits(w: bv32)
    ensures var w4 := Half(Half(Half(Half(w))));
            LowBits(w, 8) == [LowBit(w), LowBit(Half(w)), LowBit(Half(Half(w))), LowBit(Half(Half(Half(w))))]
              + [LowBit(w4), LowBit(Half(w4)), LowBit(Half(Half(w4))), LowBit(Half(Half(Half(w4))))]
  {
    hide LowBit, Half;
    FourBits(w, 4);
    FourBits(Half(Half(Half(Half(w)))), 0);
  }

  lemma FourBits(w: bv32, n: nat)
    ensures LowBits(w, n + 4) == [LowBit(w), LowBit(Half(w)), LowBit(Half(Half(w))), LowBit(Half(Half(Half(w))))]
              + LowBits(Half(Half(Half(Half(w)))), n)
  {
    hide LowBit, Half;
    assert LowBits(w, n + 4) == [LowBit(w)] + LowBits(Half(w), n + 3);
    assert LowBits(Half(w), n + 3) == [LowBit(Half(w))] + LowBits(Half(Half(w)), n + 2);
    assert LowBits(Half(Half(w)), n + 2) == [LowBit(Half(Half(w)))] + LowBits(Half(Half(Half(w))), n + 1);
  }

  lemma ReversedByteTable(b: bv8)
    ensures var w := b as bv32;
            var w4 := Half(Half(Half(Half(w))));
            MsbBits(ReverseByte(b)) == [LowBit(w), LowBit(Half(w)), LowBit(Half(Half(w))), LowBit(Half(Half(Half(w))))]
              + [LowBit(w4), LowBit(Half(w4)), LowBit(Half(Half(w4))), LowBit(Half(Half(Half(w4))))]
  {
  }

  lemma {:induction false} SnifferBitsAreBits(data: seq<bv8>)
    ensures SnifferBits(data) == Bits(data)
  {
    hide ReverseByte, MsbBits, ByteBits;
    if data != [] {
      ReversedByteBits(data[0]);
      SnifferBitsAreBits(data[1..]);
    }
  }

  /** The sniffer computes, for every start value and buffer, what the software loop computes. */
  lemma SnifferEqualsSoftware(start: bv32, data: seq<bv8>)
    ensures SniffedCrc(start, data) == Crc(ReverseWord(start), data)
  {
    hide ReverseWord;
    SnifferBitsAreBits(data);
    MirrorBits(start, Bits(data));
  }

  /** So the check in `main` passes for a buffer that carries its own CRC, and for no other last word. */
  lemma SnifferCheck(data: seq<bv8>, x: bv32)
    ensures SniffedCrc(CRC32_INIT, data + LittleEndian(x)) == 0 <==> x == Crc(CRC32_INIT, data)
  {
    hide ReverseWord, SniffedCrc, Crc, Bytes;
    assert ReverseWord(CRC32_INIT) == CRC32_INIT by {
      ReverseOfInit();
    }
    SnifferEqualsSoftware(CRC32_INIT, data + LittleEndian(x));
    CheckIsZeroExactlyForOwnCrc(CRC32_INIT, data, x);
  }

  lemma ReverseOfInit()
    ensures ReverseWord(CRC32_INIT) == CRC32_INIT
  {
  }

  // ---------------------------------------------------------------------------------------
  // Polynomials over GF(2): p[i] is the coefficient of x^i

  type Poly = seq<bool>

  function Zeros(n: nat): (p: Poly)
    ensures |p| == n
  {
    seq(n, _ => false)
  }

  function Add(p: Poly, q: Poly): (sum: Poly)
    requires |p| == |q|
    ensures |sum| == |p|
  {
    seq(|p|, i requires 0 <= i < |p| => p[i] != q[i])
  }

  function Reverse(p: Poly): (r: Poly)
    ensures |r| == |p|
  {
    seq(|p|, i requires 0 <= i < |p| => p[|p| - 1 - i])
  }

  /** x^32 + x^26 + x^23 + x^22 + x^16 + x^12 + x^11 + x^10 + x^8 + x^7 + x^5 + x^4 + x^2 + x + 1 */
  function Generator(): (g: Poly)
    ensures |g| == 33
  {
    LowBits(POLY, 32) + [true]
  }

  /** q * Generator, by Horner's rule. */
  function Times(q: Poly): (product: Poly)
    ensures |product| == |q| + 32
    decreases |q|
  {
    if q == [] then Zeros(32)
    else Add([false] + Times(q[1..]), (if q[0] then Generator() else Zeros(33)) + Zeros(|q| - 1))
  }

  /** message * x^32 + start * x^|message|; the first message bit is the highest coefficient. */
  function Dividend(start: bv32, message: seq<bool>): (d: Poly)
    ensures |d| == |message| + 32
  {
    Add(Zeros(32) + Reverse(message), Zeros(|message|) + LowBits(start, 32))
  }

  /** quotient * Generator + remainder, the remainder having degree below 32. */
  function Recombine(quotient: Poly, remainder: bv32): (d: Poly)
    ensures |d| == |quotient| + 32
  {
    Add(Times(quotient), LowBits(remainder, 32) + Zeros(|quotient|))
  }

  function Quotient(start: bv32, message: seq<bool>): (q: Poly)
    ensures |q| == |message|
    decreases |message|
  {
    if message == [] then [] else
      var before := message[..|message| - 1];
      [TopBit(MsbRegister(start, before)) != message[|message| - 1]] + Quotient(start, before)
  }

  // ---------------------------------------------------------------------------------------
  // One step of the register is one step of the division

  lemma DoubleLow(w: bv32)
    ensures !LowBit(Double(w)) && Agree(Half(Double(w)), w, 0x7FFF_FFFF)
  {
  }

  lemma {:induction false} LowBitsPrefix(w: bv32, n: nat)
    ensures LowBits(w, n + 1) == LowBits(w, n) + [Bit(w, n)]
    decreases n
  {
    hide LowBit, Half;
    if n != 0 {
      LowBitsPrefix(Half(w), n - 1);
    }
  }

  lemma TopBitAsShift(w: bv32)
    ensures Bit(w, 31) == TopBit(w)
  {
    hide LowBit, Half, TopBit;
    BitSplit(w, 16, 15);
    BitSplit(ShiftRight(w, 16), 8, 7);
    ShiftSplit(w, 8, 8);
    ShiftRightByte(w);
    ShiftRightByte(NextByte(w));
    ShiftRightByte(NextByte(NextByte(w)));
    var v := NextByte(NextByte(NextByte(w)));
    SeventhHalf(v);
    TopBitOfWord(w);
  }

  lemma SeventhHalf(v: bv32)
    ensures Bit(v, 7) == LowBit(Half(Half(Half(Half(Half(Half(Half(v))))))))
  {
    hide LowBit, Half;
    assert Bit(Half(v), 6) == Bit(Half(Half(v)), 5);
    assert Bit(Half(Half(Half(v))), 4) == Bit(Half(Half(Half(Half(v)))), 3);
    assert Bit(Half(Half(Half(Half(Half(v))))), 2) == Bit(Half(Half(Half(Half(Half(Half(v)))))), 1);
  }

  lemma TopBitOfWord(w: bv32)
    ensures LowBit(Half(Half(Half(Half(Half(Half(Half(NextByte(NextByte(NextByte(w))))))))))) == TopBit(w)
  {
  }

  lemma {:induction false} BitSplit(w: bv32, m: nat, n: nat)
    ensures Bit(w, m + n) == Bit(ShiftRight(w, m), n)
    decreases m
  {
    hide LowBit, Half;
    if m != 0 {
      BitSplit(Half(w), m - 1, n);
    }
  }

  lemma {:induction false} ShiftSplit(w: bv32, m: nat, n: nat)
    ensures ShiftRight(w, m + n) == ShiftRight(ShiftRight(w, m), n)
    decreases m
  {
    hide Half;
    if m != 0 {
      ShiftSplit(Half(w), m - 1, n);
    }
  }

  /** x * w, as a polynomial of 33 coefficients. */
  lemma DoubleBits(w: bv32)
    ensures LowBits(Double(w), 32) + [TopBit(w)] == [false] + LowBits(w, 32)
  {
    hide LowBit, Half, TopBit, Double, Agree, OnesNext;
    OnesValues();
    DoubleLow(w);
    LowBitsAgree(Half(Double(w)), w, 31);
    LowBitsPrefix(w, 31);
    TopBitAsShift(w);
    assert LowBits(Double(w), 32) == [LowBit(Double(w))] + LowBits(Half(Double(w)), 31);
  }

  lemma {:induction false} XorBits(a: bv32, b: bv32, n: nat)
    ensures LowBits(Xor(a, b), n) == Add(LowBits(a, n), LowBits(b, n))
    decreases n
  {
    hide LowBit, Half, Xor;
    if n != 0 {
      XorLowBit(a, b);
      XorHalf(a, b);
      XorBits(Half(a), Half(b), n - 1);
    }
  }

  /** x * w + bit * x^32 == tap * Generator + the next register value. */
  lemma DivisionStep(w: bv32, bit: bool)
    ensures var tap := TopBit(w) != bit;
            Add([false] + LowBits(w, 32), Zeros(32) + [bit])
            == Add(if tap then Generator() else Zeros(33), LowBits(MsbStep(w, bit), 32) + [false])
  {
    hide LowBits, TopBit, Double, MsbFeedback, Xor;
    var tap := TopBit(w) != bit;
    DoubleBits(w);
    FeedbackAsXor(w, tap);
    XorBits(Double(w), POLY, 32);
    var left := Add([false] + LowBits(w, 32), Zeros(32) + [bit]);
    var right := Add(if tap then Generator() else Zeros(33), LowBits(MsbStep(w, bit), 32) + [false]);
    forall i | 0 <= i < 33
      ensures left[i] == right[i]
    {
      assert ([false] + LowBits(w, 32))[i] == (LowBits(Double(w), 32) + [TopBit(w)])[i];
    }
  }

  lemma DividendStep(start: bv32, before: seq<bool>, last: bool)
    ensures Dividend(start, before + [last])
         == Add([false] + Dividend(start, before), Zeros(32) + [last] + Zeros(|before|))
  {
    hide LowBits;
    var left := Dividend(start, before + [last]);
    var right := Add([false] + Dividend(start, before), Zeros(32) + [last] + Zeros(|before|));
    forall i | 0 <= i < |left|
      ensures left[i] == right[i]
    {
      if i > 32 {
        assert Reverse(before + [last])[i - 32] == Reverse(before)[i - 33];
      }
    }
  }

  lemma RecombineStep(q: Poly, w: bv32, bit: bool)
    ensures var tap := TopBit(w) != bit;
            Add([false] + Recombine(q, w), Zeros(32) + [bit] + Zeros(|q|)) == Recombine([tap] + q, MsbStep(w, bit))
  {
    hide LowBits, TopBit, MsbStep, Generator;
    var tap := TopBit(w) != bit;
    DivisionStep(w, bit);
    var next := MsbStep(w, bit);
    var s1, s2 := Add([false] + LowBits(w, 32), Zeros(32) + [bit]),
      Add(if tap then Generator() else Zeros(33), LowBits(next, 32) + [false]);
    var left := Add([false] + Recombine(q, w), Zeros(32) + [bit] + Zeros(|q|));
    var right := Recombine([tap] + q, next);
    assert ([tap] + q)[1..] == q;
    forall i | 0 <= i < |q| + 33
      ensures left[i] == right[i]
    {
      if i < 33 {
        assert s1[i] == s2[i];
      }
    }
  }

  lemma {:induction false} RegisterDivides(start: bv32, message: seq<bool>)
    ensures Dividend(start, message) == Recombine(Quotient(start, message), MsbRegister(start, message))
    decreases |message|
  {
    hide LowBits, TopBit, MsbStep, Recombine, Dividend;
    if message == [] {
      EmptyDivision(start);
    } else {
      var before, last := message[..|message| - 1], message[|message| - 1];
      assert message == before + [last];
      RegisterDivides(start, before);
      DividendStep(start, before, last);
      RecombineStep(Quotient(start, before), MsbRegister(start, before), last);
    }
  }

  lemma EmptyDivision(start: bv32)
    ensures Dividend(start, []) == Recombine([], start)
  {
    hide LowBits;
  }

  // ---------------------------------------------------------------------------------------
  // Uniqueness

  /** A product is determined by, and determines, its coefficients from x^32 upwards. */
  lemma {:induction false} QuotientUnique(p: Poly, q: Poly)
    requires |p| == |q| && Times(p)[32..] == Times(q)[32..]
    ensures p == q
    decreases |p|
  {
    hide LowBits;
    if p != [] {
      var n := |p|;
      forall i | 32 <= i < n + 31
        ensures Times(p[1..])[i] == Times(q[1..])[i]
      {
        assert Times(p)[32..][i + 1 - 32] == Times(q)[32..][i + 1 - 32];
      }
      assert Times(p[1..])[32..] == Times(q[1..])[32..];
      QuotientUnique(p[1..], q[1..]);
      assert Times(p)[32..][0] == Times(q)[32..][0];
      assert p == [p[0]] + p[1..] && q == [q[0]] + q[1..];
    }
  }

  lemma DivisionUnique(p: Poly, q: Poly, v: bv32, w: bv32)
    requires |p| == |q| && Recombine(p, v) == Recombine(q, w)
    ensures p == q && v == w
  {
    hide LowBits, Times;
    forall i | 32 <= i < |p| + 32
      ensures Times(p)[i] == Times(q)[i]
    {
      assert Recombine(p, v)[i] == Recombine(q, w)[i];
    }
    assert Times(p)[32..] == Times(q)[32..];
    QuotientUnique(p, q);
    forall i | 0 <= i < 32
      ensures LowBits(v, 32)[i] == LowBits(w, 32)[i]
    {
      assert Recombine(p, v)[i] == Recombine(q, w)[i];
    }
    assert LowBits(v, 32) == LowBits(w, 32);
    WholeWord(v);
    WholeWord(w);
  }

  /** For every start value and buffer, the software CRC is the bit-reversal of the remainder of
      message * x^32 + start * x^n modulo the generator, and of nothing else. */
  lemma CrcIsRemainder(start: bv32, data: seq<bv8>, r: bv32)
    ensures (exists q: Poly :: |q| == |Bits(data)| && Dividend(start, Bits(data)) == Recombine(q, r))
       <==> ReverseWord(r) == Crc(ReverseWord(start), data)
  {
    hide ReverseWord, Dividend, Recombine, MsbStep;
    var bits := Bits(data);
    var reg := MsbRegister(start, bits);
    RegisterDivides(start, bits);
    MirrorBits(start, bits);
    if exists q: Poly :: |q| == |bits| && Dividend(start, bits) == Recombine(q, r) {
      var q: Poly :| |q| == |bits| && Dividend(start, bits) == Recombine(q, r);
      DivisionUnique(q, Quotient(start, bits), r, reg);
    }
    if ReverseWord(r) == Crc(ReverseWord(start), data) {
      ReverseWordTwice(r);
      ReverseWordTwice(reg);
    }
  }
}
