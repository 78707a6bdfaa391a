/** The CRC-32 of dma/sniff_crc: the bit-serial block function, the scheme that appends the CRC
    so that the check over the whole buffer is zero, and the errors that check detects. */
module Crc32 {
  import opened Words

  const CRC32_INIT: bv32 := 0xFFFF_FFFF
  const REVERSED_POLY: bv32 := 0xEDB8_8320

  /** The n lowest bits of w, least significant first. */
  function LowBits(w: bv32, n: nat): (bits: seq<bool>)
    ensures |bits| == n
    decreases n
  {
    if n == 0 then [] else [LowBit(w)] + LowBits(Half(w), n - 1)
  }

  function ByteBits(byte: bv8): (bits: seq<bool>)
    ensures |bits| == 8
  {
    LowBits(byte as bv32, 8)
  }

  /** The bits of a buffer in the order in which the register consumes them. */
  function Bits(data: seq<bv8>): (bits: seq<bool>)
    ensures |bits| == 8 * |data|
  {
    if data == [] then [] else ByteBits(data[0]) + Bits(data[1..])
  }

  function BitStep(crc: bv32, bit: bool): bv32 {
    Feedback(crc, LowBit(crc) != bit)
  }

  function Feedback(crc: bv32, tap: bool): bv32 {
    (crc >> 1) ^ (if tap then REVERSED_POLY else 0)
  }

  function CrcBits(crc: bv32, bits: seq<bool>): bv32
    decreases |bits|
  {
    if bits == [] then crc else CrcBits(BitStep(crc, bits[0]), bits[1..])
  }

  function Crc(crc: bv32, data: seq<bv8>): bv32 {
    CrcBits(crc, Bits(data))
  }

  function LowByte(w: bv32): bv8 {
    (w & 0xFF) as bv8
  }

  function NextByte(w: bv32): bv32 {
    w >> 8
  }

  /** The bytes that a store of the n lowest bytes of x writes on the little-endian target. */
  function Bytes(x: bv32, n: nat): (bytes: seq<bv8>)
    ensures |bytes| == n
    decreases n
  {
    if n == 0 then [] else [LowByte(x)] + Bytes(NextByte(x), n - 1)
  }

  function LittleEndian(x: bv32): (bytes: seq<bv8>)
    ensures |bytes| == 4
  {
    Bytes(x, 4)
  }

  // ---------------------------------------------------------------------------------------
  // The code

  method SoftCrc32Block(start: bv32, bytes: array<bv8>, length: nat) returns (crc: bv32)
    requires length <= bytes.Length
    ensures crc == Crc(start, bytes[..length])
  {
    crc := start;
    var p, remaining := 0, length;
    assert bytes[0..length] == bytes[..length];
    while remaining != 0
      invariant p + remaining == length
      invariant Crc(crc, bytes[p..length]) == Crc(start, bytes[..length])
    {
      remaining := remaining - 1;
      var byte32 := bytes[p] as bv32;
      ghost var rest := Bits(bytes[p + 1..length]);
      assert bytes[p..length][1..] == bytes[p + 1..length];
      p := p + 1;
      var bit := 8;
      while bit != 0
        invariant 0 <= bit <= 8
        invariant CrcBits(crc, LowBits(byte32, bit) + rest) == Crc(start, bytes[..length])
        decreases bit
      {
        LowBitXor(crc, byte32);
        var next := (crc >> 1) ^ (if (crc ^ byte32) & 1 != 0 then 0xEDB8_8320 else 0);
        ConsumeBit(crc, byte32, next, bit, rest);
        crc, bit, byte32 := next, bit - 1, byte32 >> 1;
      }
      assert LowBits(byte32, 0) + rest == rest;
    }
    assert bytes[p..length] == [];
  }

  /** `main`: compute the CRC of the payload and store it, as one word, right behind the payload. */
  method AppendCrc(src: array<bv8>, n: nat) returns (crc: bv32)
    requires src.Length == n + 4
    modifies src
    ensures src[..n] == old(src[..n]) && crc == Crc(CRC32_INIT, old(src[..n]))
    ensures src[n..] == LittleEndian(crc)
    ensures forall x: bv32 :: Crc(CRC32_INIT, src[..n] + LittleEndian(x)) == 0 <==> src[n..] == LittleEndian(x)
    ensures Crc(CRC32_INIT, src[..]) == 0
  {
    crc := SoftCrc32Block(CRC32_INIT, src, n);
    var word := LittleEndian(crc);
    src[n], src[n + 1], src[n + 2], src[n + 3] := word[0], word[1], word[2], word[3];
    assert src[..n] == old(src[..n]);
    assert src[n..] == word;
    assert src[..] == src[..n] + word;
    forall x: bv32
      ensures Crc(CRC32_INIT, src[..n] + LittleEndian(x)) == 0 <==> src[n..] == LittleEndian(x)
    {
      CheckIsZeroExactlyForOwnCrc(CRC32_INIT, src[..n], x);
      LittleEndianInjective(x, crc);
    }
  }

  // ---------------------------------------------------------------------------------------
  // Composition

  lemma {:induction false} BitsAppend(a: seq<bv8>, b: seq<bv8>)
    ensures Bits(a + b) == Bits(a) + Bits(b)
  {
    hide ByteBits;
    if a == [] {
      assert a + b == b;
    } else {
      BitsAppend(a[1..], b);
      assert (a + b)[1..] == a[1..] + b;
    }
  }

  lemma {:induction false} CrcBitsAppend(crc: bv32, a: seq<bool>, b: seq<bool>)
    ensures CrcBits(crc, a + b) == CrcBits(CrcBits(crc, a), b)
    decreases |a|
  {
    hide BitStep;
    if a == [] {
      assert a + b == b;
    } else {
      CrcBitsAppend(BitStep(crc, a[0]), a[1..], b);
      assert (a + b)[1..] == a[1..] + b;
    }
  }

  /** The block function may be fed a buffer in pieces. */
  lemma CrcComposes(crc: bv32, a: seq<bv8>, b: seq<bv8>)
    ensures Crc(crc, a + b) == Crc(Crc(crc, a), b)
  {
    BitsAppend(a, b);
    CrcBitsAppend(crc, Bits(a), Bits(b));
  }

  // ---------------------------------------------------------------------------------------
  // The register is a bijection, and absorbs up to 32 bits by xor

  lemma LowBitXor(a: bv32, b: bv32)
    ensures ((a ^ b) & 1 != 0) == (LowBit(a) != LowBit(b))
  {
  }

  lemma ConsumeBit(crc: bv32, byte32: bv32, next: bv32, bit: nat, rest: seq<bool>)
    requires bit != 0 && next == Feedback(crc, LowBit(crc) != LowBit(byte32))
    ensures CrcBits(crc, LowBits(byte32, bit) + rest) == CrcBits(next, LowBits(Half(byte32), bit - 1) + rest)
  {
    hide Feedback, LowBit, Half;
    assert (LowBits(byte32, bit) + rest)[1..] == LowBits(Half(byte32), bit - 1) + rest;
  }

  lemma BitStepInjective(a: bv32, b: bv32, bit: bool)
    requires BitStep(a, bit) == BitStep(b, bit)
    ensures a == b
  {
  }

  lemma {:induction false} CrcBitsInjective(a: bv32, b: bv32, bits: seq<bool>)
    requires CrcBits(a, bits) == CrcBits(b, bits)
    ensures a == b
    decreases |bits|
  {
    hide BitStep;
    if bits != [] {
      CrcBitsInjective(BitStep(a, bits[0]), BitStep(b, bits[0]), bits[1..]);
      BitStepInjective(a, b, bits[0]);
    }
  }

  /** The word with the n lowest bits set. */
  function Ones(n: nat): bv32 {
    if n == 0 then 0 else OnesNext(Ones(n - 1))
  }

  function OnesNext(m: bv32): bv32 {
    (m << 1) | 1
  }

  predicate Within(w: bv32, mask: bv32) {
    w & !mask == 0
  }

  lemma WithinTrans(a: bv32, b: bv32, c: bv32)
    requires Within(a, b) && Within(b, c)
    ensures Within(a, c)
  {
  }

  lemma WithinNext(a: bv32, b: bv32)
    requires Within(a, b)
    ensures Within(OnesNext(a), OnesNext(b))
  {
  }

  lemma WithinZero(b: bv32)
    ensures Within(0, b) && Within(b, b)
  {
  }

  lemma {:induction false} OnesMonotone(m: nat, n: nat)
    requires m <= n
    ensures Within(Ones(m), Ones(n))
    decreases m
  {
    hide Within, OnesNext;
    if m == 0 {
      WithinZero(Ones(n));
    } else {
      OnesMonotone(m - 1, n - 1);
      WithinNext(Ones(m - 1), Ones(n - 1));
    }
  }

  lemma OnesValues()
    ensures Ones(8) == 0xFF && Ones(31) == 0x7FFF_FFFF && Ones(32) == 0xFFFF_FFFF
  {
    assert Ones(4) == 0xF;
    assert Ones(8) == 0xFF;
    assert Ones(12) == 0xFFF;
    assert Ones(16) == 0xFFFF;
    assert Ones(20) == 0xF_FFFF;
    assert Ones(24) == 0xFF_FFFF;
    assert Ones(28) == 0xFFF_FFFF;
    assert Ones(30) == 0x3FFF_FFFF;
  }

  /** The word whose lowest |d| bits are d: the inverse of LowBits. */
  function Pack(d: seq<bool>): bv32
    decreases |d|
  {
    if d == [] then 0 else PackNext(Pack(d[1..]), d[0])
  }

  function PackNext(w: bv32, bit: bool): bv32 {
    (w << 1) | (if bit then 1 else 0)
  }

  lemma PackNextWithin(w: bv32, mask: bv32, bit: bool)
    requires Within(w, mask)
    ensures Within(PackNext(w, bit), OnesNext(mask))
  {
    hide Within, PackNext, OnesNext;
    WithinNext(w, mask);
    PackWithinNext(w, bit);
    WithinTrans(PackNext(w, bit), OnesNext(w), OnesNext(mask));
  }

  lemma PackWithinNext(w: bv32, bit: bool)
    ensures Within(PackNext(w, bit), OnesNext(w))
  {
    hide Within, OnesNext, PackNext;
    if bit {
      PackOne(w);
      WithinZero(OnesNext(w));
    } else {
      PackZero(w);
    }
  }

  lemma PackOne(w: bv32)
    ensures PackNext(w, true) == OnesNext(w)
  {
  }

  lemma PackZero(w: bv32)
    ensures Within(PackNext(w, false), OnesNext(w))
  {
    hide PackNext, OnesNext, Within;
    PackZeroIs(w);
    OnesNextIs(w);
    WithinIs(w << 1, (w << 1) | 1);
    NoOther(w);
  }

  lemma PackZeroIs(w: bv32)
    ensures PackNext(w, false) == w << 1
  {
  }

  lemma OnesNextIs(w: bv32)
    ensures OnesNext(w) == (w << 1) | 1
  {
  }

  lemma WithinIs(w: bv32, mask: bv32)
    ensures w & !mask == 0 ==> Within(w, mask)
  {
  }

  lemma NoOther(w: bv32)
    ensures (w << 1) & !((w << 1) | 1) == 0
  {
  }

  lemma {:induction false} PackWithin(d: seq<bool>)
    ensures Within(Pack(d), Ones(|d|))
    decreases |d|
  {
    hide Within, OnesNext, PackNext;
    if d == [] {
      WithinZero(0);
    } else {
      PackWithin(d[1..]);
      PackNextWithin(Pack(d[1..]), Ones(|d| - 1), d[0]);
    }
  }

  predicate TopClear(w: bv32) {
    w & 0x8000_0000 == 0
  }

  lemma TopClearFrom(w: bv32)
    requires Within(w, 0x7FFF_FFFF)
    ensures TopClear(w)
  {
  }

  lemma PackTopClear(d: seq<bool>)
    requires |d| <= 31
    ensures TopClear(Pack(d))
  {
    hide Within, OnesNext, PackNext, TopClear;
    PackWithin(d);
    OnesMonotone(|d|, 31);
    OnesValues();
    WithinTrans(Pack(d), Ones(|d|), Ones(31));
    TopClearFrom(Pack(d));
  }

  lemma PackNextInjective(v: bv32, w: bv32, a: bool, b: bool)
    requires TopClear(v) && TopClear(w) && PackNext(v, a) == PackNext(w, b)
    ensures v == w && a == b
  {
  }

  lemma {:induction false} PackInjective(d: seq<bool>, e: seq<bool>)
    requires |d| == |e| <= 32 && Pack(d) == Pack(e)
    ensures d == e
    decreases |d|
  {
    hide PackNext, TopClear;
    if d != [] {
      PackTopClear(d[1..]);
      PackTopClear(e[1..]);
      PackNextInjective(Pack(d[1..]), Pack(e[1..]), d[0], e[0]);
      PackInjective(d[1..], e[1..]);
      assert d == [d[0]] + d[1..] && e == [e[0]] + e[1..];
    }
  }

  function Masked(w: bv32, mask: bv32): bv32 {
    w & mask
  }

  lemma PackLowBit(w: bv32, mask: bv32)
    ensures PackNext(Masked(Half(w), mask), LowBit(w)) == Masked(w, OnesNext(mask))
  {
    hide PackNext, Masked, Half, LowBit, OnesNext;
    if LowBit(w) {
      PackSetBit(w, mask);
    } else {
      PackClearBit(w, mask);
    }
  }

  lemma PackSetBit(w: bv32, mask: bv32)
    requires LowBit(w)
    ensures PackNext(Masked(Half(w), mask), true) == Masked(w, OnesNext(mask))
  {
  }

  lemma PackClearBit(w: bv32, mask: bv32)
    requires !LowBit(w)
    ensures PackNext(Masked(Half(w), mask), false) == Masked(w, OnesNext(mask))
  {
  }

  lemma MaskedByNothing(w: bv32)
    ensures Masked(w, 0) == 0
  {
  }

  lemma MaskedByAll(w: bv32)
    ensures Masked(w, 0xFFFF_FFFF) == w
  {
  }

  lemma {:induction false} PackOfLowBits(w: bv32, n: nat)
    ensures Pack(LowBits(w, n)) == Masked(w, Ones(n))
    decreases n
  {
    hide PackNext, LowBit, OnesNext, Half, Masked;
    if n == 0 {
      MaskedByNothing(w);
    } else {
      PackOfLowBits(Half(w), n - 1);
      PackLowBit(w, Ones(n - 1));
      assert LowBits(w, n)[1..] == LowBits(Half(w), n - 1);
    }
  }

  lemma WholeWord(w: bv32)
    ensures Pack(LowBits(w, 32)) == w
  {
    hide Masked, OnesNext;
    PackOfLowBits(w, 32);
    OnesValues();
    MaskedByAll(w);
  }

  lemma AbsorbStep(crc: bv32, w: bv32, bit: bool)
    requires TopClear(w)
    ensures Xor(BitStep(crc, bit), w) == BitStep(Xor(crc, PackNext(w, bit)), false)
  {
    hide Xor, Feedback, PackNext, LowBit;
    var x := PackNext(w, bit);
    PackedHalf(w, bit);
    XorLowBit(crc, x);
    AbsorbFeedback(crc, x, LowBit(crc) != bit);
  }

  lemma PackedHalf(w: bv32, bit: bool)
    requires TopClear(w)
    ensures LowBit(PackNext(w, bit)) == bit && Half(PackNext(w, bit)) == w
  {
  }

  lemma AbsorbFeedback(crc: bv32, x: bv32, tap: bool)
    ensures Xor(Feedback(crc, tap), Half(x)) == Feedback(Xor(crc, x), tap)
  {
    hide Xor, Half, Feedback;
    FeedbackForm(crc, tap);
    FeedbackForm(Xor(crc, x), tap);
    XorHalf(crc, x);
    if tap {
      XorSwap(Half(crc), REVERSED_POLY, Half(x));
    }
  }

  lemma FeedbackForm(w: bv32, tap: bool)
    ensures Feedback(w, tap) == if tap then Xor(Half(w), REVERSED_POLY) else Half(w)
  {
    if !tap {
      XorZero(Half(w));
    }
  }

  lemma XorCancel(a: bv32, b: bv32, c: bv32)
    requires Xor(a, b) == Xor(a, c)
    ensures b == c
  {
  }

  lemma XorSelf(a: bv32)
    ensures Xor(a, a) == 0
  {
  }

  /** Up to 32 message bits act on the register like one xor before as many zero bits. */
  lemma {:induction false} Absorb(crc: bv32, d: seq<bool>)
    requires |d| <= 32
    ensures CrcBits(crc, d) == CrcBits(Xor(crc, Pack(d)), seq(|d|, _ => false))
    decreases |d|
  {
    hide BitStep, PackNext, Xor, TopClear;
    if d == [] {
      XorZero(crc);
    } else {
      PackTopClear(d[1..]);
      AbsorbStep(crc, Pack(d[1..]), d[0]);
      Absorb(BitStep(crc, d[0]), d[1..]);
      assert seq(|d|, _ => false)[1..] == seq(|d[1..]|, _ => false);
    }
  }

  lemma {:induction false} ZeroStaysZero(n: nat)
    ensures CrcBits(0, seq(n, _ => false)) == 0
  {
    if n != 0 {
      ZeroStaysZero(n - 1);
      assert BitStep(0, false) == 0;
      assert seq(n, _ => false)[1..] == seq(n - 1, _ => false);
    }
  }

  // ---------------------------------------------------------------------------------------
  // What the check detects

  /** Two different bit strings of at most 32 bits never leave the same register behind. */
  lemma WindowInjective(crc: bv32, d: seq<bool>, e: seq<bool>)
    requires |d| == |e| <= 32
    requires CrcBits(crc, d) == CrcBits(crc, e)
    ensures d == e
  {
    hide BitStep, PackNext, Xor;
    Absorb(crc, d);
    Absorb(crc, e);
    CrcBitsInjective(Xor(crc, Pack(d)), Xor(crc, Pack(e)), seq(|d|, _ => false));
    XorCancel(crc, Pack(d), Pack(e));
    PackInjective(d, e);
  }

  lemma {:induction false} BitsInjective(a: seq<bv8>, b: seq<bv8>)
    requires |a| == |b| && Bits(a) == Bits(b)
    ensures a == b
    decreases |a|
  {
    hide ByteBits;
    if a != [] {
      assert ByteBits(a[0]) == Bits(a)[..8] && ByteBits(b[0]) == Bits(b)[..8];
      assert Bits(a[1..]) == Bits(a)[8..] && Bits(b[1..]) == Bits(b)[8..];
      ByteBitsInjective(a[0], b[0]);
      BitsInjective(a[1..], b[1..]);
    }
  }

  lemma ByteBitsInjective(a: bv8, b: bv8)
    requires ByteBits(a) == ByteBits(b)
    ensures a == b
  {
    hide LowBits, Masked, OnesNext;
    PackOfLowBits(a as bv32, 8);
    PackOfLowBits(b as bv32, 8);
    OnesValues();
    MaskedByte(a);
    MaskedByte(b);
    WidenInjective(a, b);
  }

  lemma MaskedByte(a: bv8)
    ensures Masked(a as bv32, 0xFF) == a as bv32
  {
  }

  lemma WidenInjective(a: bv8, b: bv8)
    ensures (a as bv32) == (b as bv32) ==> a == b
  {
  }

  /** Buffers whose bits agree outside of 32 consecutive bits, and that are not equal, have
      different CRCs; so an error burst of up to 32 bits in a buffer that checks to zero makes
      the check nonzero. */
  lemma BurstDetected(crc: bv32, a: seq<bv8>, b: seq<bv8>, k: nat)
    requires |a| == |b| && a != b
    requires forall i :: 0 <= i < 8 * |a| && !(k <= i < k + 32) ==> Bits(a)[i] == Bits(b)[i]
    ensures Crc(crc, a) != Crc(crc, b)
  {
    hide BitStep, ByteBits, CrcBits, Bits;
    if Crc(crc, a) == Crc(crc, b) {
      var u, v := Bits(a), Bits(b);
      var lo := if k < |u| then k else |u|;
      var hi := if k + 32 < |u| then k + 32 else |u|;
      assert |u| == |v| && u[..lo] == v[..lo] && u[hi..] == v[hi..];
      SplitAt(u, lo, hi);
      SplitAt(v, lo, hi);
      WindowsEqual(crc, u[..lo], u[lo..hi], v[lo..hi], u[hi..]);
      BitsInjective(a, b);
    }
  }

  lemma SplitAt(u: seq<bool>, lo: nat, hi: nat)
    requires lo <= hi <= |u|
    ensures u == u[..lo] + (u[lo..hi] + u[hi..])
  {
  }

  lemma WindowsEqual(crc: bv32, before: seq<bool>, d: seq<bool>, e: seq<bool>, after: seq<bool>)
    requires |d| == |e| <= 32
    requires CrcBits(crc, before + (d + after)) == CrcBits(crc, before + (e + after))
    ensures d == e
  {
    hide BitStep, CrcBits;
    var c := CrcBits(crc, before);
    CrcBitsAppend(crc, before, d + after);
    CrcBitsAppend(crc, before, e + after);
    CrcBitsAppend(c, d, after);
    CrcBitsAppend(c, e, after);
    CrcBitsInjective(CrcBits(c, d), CrcBits(c, e), after);
    WindowInjective(c, d, e);
  }

  /** Modifying any one byte, in any way, breaks the check. */
  lemma ByteChangeDetected(data: seq<bv8>, i: nat, byte: bv8)
    requires Crc(CRC32_INIT, data) == 0
    requires i < |data| && byte != data[i]
    ensures Crc(CRC32_INIT, data[i := byte]) != 0
  {
    hide ByteBits, CrcBits;
    var changed := data[i := byte];
    var x, y := data[..i], data[i + 1..];
    assert data == x + ([data[i]] + y) && changed == x + ([byte] + y);
    BitsAppend(x, [data[i]] + y);
    BitsAppend(x, [byte] + y);
    BitsAppend([data[i]], y);
    BitsAppend([byte], y);
    BurstDetected(CRC32_INIT, data, changed, 8 * i);
  }

  // ---------------------------------------------------------------------------------------
  // Appending the CRC

  /** a and b have the same bits under the mask. */
  predicate Agree(a: bv32, b: bv32, mask: bv32) {
    a & mask == b & mask
  }

  lemma LowBitShift(a: bv32, b: bv32, mask: bv32)
    requires Agree(a, b, OnesNext(mask))
    ensures LowBit(a) == LowBit(b) && Agree(Half(a), Half(b), mask)
  {
  }

  lemma {:induction false} LowBitsAgree(a: bv32, b: bv32, n: nat)
    requires Agree(a, b, Ones(n))
    ensures LowBits(a, n) == LowBits(b, n)
    decreases n
  {
    hide LowBit, Half, Agree, OnesNext;
    if n != 0 {
      LowBitShift(a, b, Ones(n - 1));
      LowBitsAgree(Half(a), Half(b), n - 1);
    }
  }

  lemma {:induction false} LowBitsSplit(w: bv32, m: nat, n: nat)
    ensures LowBits(w, m + n) == LowBits(w, m) + LowBits(ShiftRight(w, m), n)
    decreases m
  {
    hide LowBit, Half;
    if m != 0 {
      LowBitsSplit(Half(w), m - 1, n);
    }
  }

  function ShiftRight(w: bv32, n: nat): bv32
    decreases n
  {
    if n == 0 then w else ShiftRight(Half(w), n - 1)
  }

  lemma ShiftRightByte(w: bv32)
    ensures ShiftRight(w, 8) == NextByte(w)
  {
    assert ShiftRight(w, 8) == ShiftRight(Half(Half(Half(Half(w)))), 4);
  }

  lemma LowByteBits(w: bv32)
    ensures ByteBits(LowByte(w)) == LowBits(w, 8)
  {
    hide LowBits, LowByte, Agree, OnesNext;
    OnesValues();
    LowByteAgrees(w);
    LowBitsAgree(LowByte(w) as bv32, w, 8);
  }

  lemma LowByteAgrees(w: bv32)
    ensures Agree(LowByte(w) as bv32, w, 0xFF)
  {
  }

  lemma {:induction false} BytesBits(x: bv32, n: nat)
    ensures Bits(Bytes(x, n)) == LowBits(x, 8 * n)
    decreases n
  {
    hide LowBits, LowByte, NextByte, ByteBits, ShiftRight;
    if n == 0 {
      assert |LowBits(x, 0)| == 0;
    } else {
      BytesBits(NextByte(x), n - 1);
      LowByteBits(x);
      ShiftRightByte(x);
      LowBitsSplit(x, 8, 8 * n - 8);
    }
  }

  lemma LittleEndianInjective(x: bv32, y: bv32)
    ensures LittleEndian(x) == LittleEndian(y) <==> x == y
  {
    if LittleEndian(x) == LittleEndian(y) {
      BytesBits(x, 4);
      BytesBits(y, 4);
      WholeWord(x);
      WholeWord(y);
    }
  }

  /** The check over payload and appended word is zero exactly when the word is the payload's CRC. */
  lemma CheckIsZeroExactlyForOwnCrc(start: bv32, data: seq<bv8>, x: bv32)
    ensures Crc(start, data + LittleEndian(x)) == 0 <==> x == Crc(start, data)
  {
    hide BitStep, PackNext, Xor, LowBits;
    var c := Crc(start, data);
    CrcComposes(start, data, LittleEndian(x));
    BytesBits(x, 4);
    WholeWord(x);
    Absorb(c, LowBits(x, 32));
    XorSelf(c);
    ZeroStaysZero(32);
    if CrcBits(Xor(c, x), seq(32, _ => false)) == 0 {
      CrcBitsInjective(Xor(c, x), Xor(c, c), seq(32, _ => false));
      XorCancel(c, x, c);
    }
  }

  // ---------------------------------------------------------------------------------------
  // The start value

  /** Because the register does not start at zero, a zero byte in front of a buffer shows. */
  lemma LeadingZeroShows(data: seq<bv8>)
    ensures Crc(CRC32_INIT, [0] + data) != Crc(CRC32_INIT, data)
  {
    hide BitStep, ByteBits, CrcBits, Bits;
    CrcComposes(CRC32_INIT, [0], data);
    if Crc(CRC32_INIT, [0] + data) == Crc(CRC32_INIT, data) {
      CrcBitsInjective(Crc(CRC32_INIT, [0]), CRC32_INIT, Bits(data));
      ByteStep(CRC32_INIT, 0);
      ZeroByteChanges();
    }
  }

  lemma ZeroByteChanges()
    ensures EightSteps(CRC32_INIT, 0) == 0x2DFD_1072
  {
  }

  /** The register after the byte has been xored in and eight zero bits consumed. */
  function EightSteps(crc: bv32, byte: bv8): bv32 {
    FourZeros(FourZeros(crc ^ (byte as bv32)))
  }

  function FourZeros(crc: bv32): bv32 {
    BitStep(BitStep(BitStep(BitStep(crc, false), false), false), false)
  }

  lemma ByteAsWord(byte: bv8)
    ensures Pack(ByteBits(byte)) == byte as bv32
  {
    hide LowBits, Masked, OnesNext;
    PackOfLowBits(byte as bv32, 8);
    OnesValues();
    MaskedByte(byte);
  }

  lemma ByteStep(crc: bv32, byte: bv8)
    ensures Crc(crc, [byte]) == EightSteps(crc, byte)
  {
    hide BitStep, Pack, ByteBits;
    ByteAsWord(byte);
    assert [byte][1..] == [] && ByteBits(byte) + [] == ByteBits(byte);
    Absorb(crc, ByteBits(byte));
    XorWithByte(crc, byte);
    ZeroSteps(crc ^ (byte as bv32), 4);
    ZeroSteps(FourZeros(crc ^ (byte as bv32)), 0);
  }

  lemma XorWithByte(crc: bv32, byte: bv8)
    ensures Xor(crc, byte as bv32) == crc ^ (byte as bv32)
  {
  }

  lemma ZeroSteps(crc: bv32, n: nat)
    ensures CrcBits(crc, seq(n + 4, _ => false)) == CrcBits(FourZeros(crc), seq(n, _ => false))
  {
    hide BitStep;
    var zeros := seq(n + 4, _ => false);
    assert zeros[1..][1..][1..][1..] == seq(n, _ => false);
    var a := BitStep(crc, false);
    var b := BitStep(a, false);
    var c := BitStep(b, false);
    assert CrcBits(crc, zeros) == CrcBits(a, zeros[1..]) == CrcBits(b, zeros[1..][1..]);
    assert CrcBits(b, zeros[1..][1..]) == CrcBits(c, zeros[1..][1..][1..]);
    assert CrcBits(c, zeros[1..][1..][1..]) == CrcBits(BitStep(c, false), zeros[1..][1..][1..][1..]);
  }

  /** The shipped payload is the text "123456789". Its check value is the published one, 0xCBF43926, before the
      final complement that this code leaves out. */
  lemma ShippedCheckValue()
    ensures Crc(CRC32_INIT, [0x31, 0x32, 0x33, 0x34, 0x35, 0x36, 0x37, 0x38, 0x39]) == 0xCBF4_3926 ^ 0xFFFF_FFFF
  {
    hide Crc, EightSteps;
    FirstRegisters();
    LastRegisters();
    var text: seq<bv8> := [0x31, 0x32, 0x33, 0x34, 0x35, 0x36, 0x37, 0x38, 0x39];
    NextByteCrc(text, 0, 0xFFFF_FFFF, 0x7C23_1048);
    NextByteCrc(text, 1, 0x7C23_1048, 0xB0AC_BB32);
    NextByteCrc(text, 2, 0xB0AC_BB32, 0x77B7_9C2D);
    NextByteCrc(text, 3, 0x77B7_9C2D, 0x641C_1F5C);
    NextByteCrc(text, 4, 0x641C_1F5C, 0x340A_C5E3);
    NextByteCrc(text, 5, 0x340A_C5E3, 0xF68D_2C9E);
    NextByteCrc(text, 6, 0xF68D_2C9E, 0xAFFC_9660);
    NextByteCrc(text, 7, 0xAFFC_9660, 0x651F_2550);
    NextByteCrc(text, 8, 0x651F_2550, 0x340B_C6D9);
    assert text[0..] == text && text[9..] == [];
    NoBytes(0x340B_C6D9);
  }

  lemma FirstRegisters()
    ensures EightSteps(0xFFFF_FFFF, 0x31) == 0x7C23_1048 && EightSteps(0x7C23_1048, 0x32) == 0xB0AC_BB32
    ensures EightSteps(0xB0AC_BB32, 0x33) == 0x77B7_9C2D && EightSteps(0x77B7_9C2D, 0x34) == 0x641C_1F5C
  {
  }

  lemma LastRegisters()
    ensures EightSteps(0x641C_1F5C, 0x35) == 0x340A_C5E3 && EightSteps(0x340A_C5E3, 0x36) == 0xF68D_2C9E
    ensures EightSteps(0xF68D_2C9E, 0x37) == 0xAFFC_9660 && EightSteps(0xAFFC_9660, 0x38) == 0x651F_2550
    ensures EightSteps(0x651F_2550, 0x39) == 0x340B_C6D9
  {
  }

  lemma NoBytes(crc: bv32)
    ensures Crc(crc, []) == crc
  {
  }

  lemma NextByteCrc(data: seq<bv8>, k: nat, crc: bv32, next: bv32)
    requires k < |data| && EightSteps(crc, data[k]) == next
    ensures Crc(crc, data[k..]) == Crc(next, data[k + 1..])
  {
    hide Crc, EightSteps;
    assert data[k..] == [data[k]] + data[k + 1..];
    ByteStep(crc, data[k]);
    CrcComposes(crc, [data[k]], data[k + 1..]);
  }
}
