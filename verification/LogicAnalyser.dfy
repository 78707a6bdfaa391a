/** Packing and decoding of pio/logic_analyser/logic_analyser.c: a state machine shifts the levels of
    a group of pins into words, which are pushed before they would have to be split, and the
    printer finds every sample of every pin again. A word is the list of its 32 bits, lowest first. */
module LogicAnalyser {
  import opened Words

  type Word = w: seq<bool> | |w| == 32 witness seq(32, _ => false)

  /** The level of each pin, counted from the base pin, at each sample. */
  type Levels = (nat, nat) -> bool

  const SHIFT_REG_WIDTH := 32

  /** The largest multiple of the pin count that fits the shift register. */
  function BitsPackedPerWord(pinCount: nat): (bits: nat)
    requires 1 <= pinCount <= 32
    ensures pinCount <= bits <= 32 && bits % pinCount == 0 && bits + pinCount > 32
  {
    LargestMultiple(pinCount);
    SHIFT_REG_WIDTH - SHIFT_REG_WIDTH % pinCount
  }

  lemma LargestMultiple(p: nat)
    requires 1 <= p <= 32
    ensures var bits := 32 - 32 % p; p <= bits <= 32 && bits % p == 0 && bits + p > 32
  {
    var k := 32 / p;
    assert 32 == p * k + 32 % p;
    ProductGrows(p, k, 1);
    ProductGap(p, 1, k, 0);
    assert k * p + 0 == p * k;
    DivModOf(k, p, 0);
  }

  lemma DivModOf(q: nat, d: nat, rest: nat)
    requires rest < d
    ensures (q * d + rest) / d == q && (q * d + rest) % d == rest
  {
    var n := q * d + rest;
    assert n == d * (n / d) + n % d;
    ProductGrows(d, q, n / d);
    ProductGrows(d, n / d, q);
    assert d * q == q * d;
  }

  function SamplesPerWord(pinCount: nat): (k: nat)
    requires 1 <= pinCount <= 32
    ensures k >= 1 && Offset(k, pinCount) == BitsPackedPerWord(pinCount)
  {
    var bits := BitsPackedPerWord(pinCount);
    assert bits == pinCount * (bits / pinCount) + bits % pinCount;
    bits / pinCount
  }

  function Quotient(n: nat, d: nat): nat
    requires d > 0
  {
    n / d
  }

  /** How `main` sizes the buffer. */
  function BufSizeWords(samples: nat, pinCount: nat): nat
    requires 1 <= pinCount <= 32
  {
    var bits := BitsPackedPerWord(pinCount);
    Quotient(U32(U32(samples * pinCount) + bits - 1), bits)
  }

  // ---------------------------------------------------------------------------------------
  // Capture

  function Sample(levels: Levels, k: nat, pinCount: nat): (s: seq<bool>)
    ensures |s| == pinCount
  {
    seq(pinCount, pin requires 0 <= pin < pinCount => levels(k, pin))
  }

  /** `in pins, n` with right shift: the register moves down and the levels enter at the top. */
  function ShiftIn(isr: Word, s: seq<bool>): Word
    requires |s| <= 32
  {
    isr[|s|..] + s
  }

  /** Where the k-th group of `size` bits, or the k-th word's first sample, starts. */
  function Offset(k: nat, size: nat): nat {
    k * size
  }

  lemma OffsetStep(k: nat, size: nat)
    ensures Offset(0, size) == 0 && Offset(k + 1, size) == Offset(k, size) + size
  {
  }

  lemma OffsetOrder(j: nat, k: nat, size: nat)
    ensures j < k ==> Offset(j, size) + size <= Offset(k, size)
  {
    ProductGrows(size, j, k);
    assert size * j == j * size && size * k == k * size;
  }

  /** Among `count` groups at the top of a word, group j holds the level of the pin at sample first + j. */
  predicate HoldsLevel(w: Word, levels: Levels, first: nat, count: nat, pinCount: nat, j: nat, pin: nat)
    requires Offset(count, pinCount) <= 32
  {
    && Offset(j, pinCount) + pin < Offset(count, pinCount)
    && w[32 - Offset(count, pinCount) + Offset(j, pinCount) + pin] == levels(first + j, pin)
  }

  ghost predicate Holds(w: Word, levels: Levels, first: nat, count: nat, pinCount: nat)
    requires Offset(count, pinCount) <= 32
  {
    forall j: nat, pin: nat :: j < count && pin < pinCount ==> HoldsLevel(w, levels, first, count, pinCount, j, pin)
  }

  lemma ShiftInHolds(isr: Word, levels: Levels, first: nat, count: nat, pinCount: nat)
    requires Offset(count, pinCount) + pinCount <= 32 && Holds(isr, levels, first, count, pinCount)
    ensures Offset(count + 1, pinCount) == Offset(count, pinCount) + pinCount
    ensures Holds(ShiftIn(isr, Sample(levels, first + count, pinCount)), levels, first, count + 1, pinCount)
  {
    hide Offset;
    var next, more := ShiftIn(isr, Sample(levels, first + count, pinCount)), count + 1;
    OffsetStep(count, pinCount);
    forall j: nat, pin: nat | j < more && pin < pinCount
      ensures HoldsLevel(next, levels, first, more, pinCount, j, pin)
    {
      OffsetOrder(j, more, pinCount);
      if j < count {
        assert HoldsLevel(isr, levels, first, count, pinCount, j, pin);
      }
    }
  }

  /** The capture: autopush at the packing threshold, and DMA that stores every pushed word until the
      buffer is full. The shift register may start with leftovers; only its counter is cleared. */
  method Capture(levels: Levels, pinCount: nat, isr0: Word, sizeWords: nat) returns (buf: array<Word>)
    requires 1 <= pinCount <= 32
    ensures fresh(buf) && buf.Length == sizeWords
    ensures forall w :: 0 <= w < sizeWords ==>
      Holds(buf[w], levels, Offset(w, SamplesPerWord(pinCount)), SamplesPerWord(pinCount), pinCount)
  {
    hide Holds, ShiftIn, Sample, Offset;
    var zero: Word := seq(32, _ => false);
    buf := new Word[sizeWords](_ => zero);
    var threshold := BitsPackedPerWord(pinCount);
    var isr: Word, shifted, written, sample := isr0, 0, 0, 0;
    ghost var perWord, count := SamplesPerWord(pinCount), 0;
    OffsetStep(0, pinCount);
    OffsetStep(0, perWord);
    NothingHeld(isr, levels, sample, pinCount);
    while written < sizeWords
      invariant 0 <= written <= sizeWords && 0 <= count < perWord
      invariant shifted == Offset(count, pinCount) && sample == Offset(written, perWord) + count
      invariant shifted <= 32 && Holds(isr, levels, Offset(written, perWord), count, pinCount)
      invariant forall w :: 0 <= w < written ==> Holds(buf[w], levels, Offset(w, perWord), perWord, pinCount)
      decreases sizeWords - written, perWord - count
    {
      OffsetOrder(count, perWord, pinCount);
      ShiftInHolds(isr, levels, Offset(written, perWord), count, pinCount);
      isr := ShiftIn(isr, Sample(levels, sample, pinCount));
      shifted, sample, count := shifted + pinCount, sample + 1, count + 1;
      OffsetOrder(count, perWord, pinCount);
      if shifted >= threshold {
        buf[written] := isr;
        OffsetStep(written, perWord);
        written := written + 1;
        isr, shifted, count := zero, 0, 0;
        OffsetStep(0, pinCount);
        NothingHeld(isr, levels, sample, pinCount);
      }
    }
  }

  lemma NothingHeld(w: Word, levels: Levels, first: nat, pinCount: nat)
    ensures Offset(0, pinCount) == 0 && Holds(w, levels, first, 0, pinCount)
  {
  }

  // ---------------------------------------------------------------------------------------
  // Decoding

  function BitIndex(pin: nat, sample: nat, pinCount: nat): nat {
    U32(pin + sample * pinCount)
  }

  function WordIndex(pin: nat, sample: nat, pinCount: nat): nat
    requires 1 <= pinCount <= 32
  {
    Quotient(BitIndex(pin, sample, pinCount), BitsPackedPerWord(pinCount))
  }

  /** The bit of the word that word_mask selects. */
  function MaskBit(pin: nat, sample: nat, pinCount: nat): (bit: nat)
    requires 1 <= pinCount <= 32
    ensures bit < 32
  {
    BitIndex(pin, sample, pinCount) % BitsPackedPerWord(pinCount) + 32 - BitsPackedPerWord(pinCount)
  }

  /** Sample k of a pin is in group k % SamplesPerWord of word k / SamplesPerWord. */
  lemma IndexOfSample(pin: nat, sample: nat, pinCount: nat)
    requires 1 <= pinCount <= 32 && pin < pinCount && sample * pinCount + pinCount <= TWO_32
    ensures var perWord := SamplesPerWord(pinCount);
            && WordIndex(pin, sample, pinCount) == sample / perWord
            && MaskBit(pin, sample, pinCount)
                 == 32 - BitsPackedPerWord(pinCount) + Offset(sample % perWord, pinCount) + pin
            && sample == Offset(sample / perWord, perWord) + sample % perWord
  {
    hide BitsPackedPerWord, SamplesPerWord, U32;
    var perWord, bits := SamplesPerWord(pinCount), BitsPackedPerWord(pinCount);
    var w, j := sample / perWord, sample % perWord;
    Recompose(sample, perWord, pinCount);
    NoOverflow(pin + sample * pinCount);
    OffsetOrder(j, perWord, pinCount);
    DivModOf(w, bits, Offset(j, pinCount) + pin);
  }

  lemma Recompose(sample: nat, perWord: nat, pinCount: nat)
    requires perWord > 0
    ensures sample * pinCount == sample / perWord * Offset(perWord, pinCount) + Offset(sample % perWord, pinCount)
    ensures sample == Offset(sample / perWord, perWord) + sample % perWord
  {
    var w, j := sample / perWord, sample % perWord;
    assert sample == w * perWord + j;
    assert (w * perWord + j) * pinCount == w * perWord * pinCount + j * pinCount;
    assert w * perWord * pinCount == w * (perWord * pinCount);
  }

  lemma NoOverflow(n: nat)
    requires n < TWO_32
    ensures U32(n) == n
  {
  }

  /** Sizes and indices do not overflow: what `main` computes in 32 bits is the rounded-up quotient. */
  predicate FitsIn32Bits(samples: nat, pinCount: nat)
    requires 1 <= pinCount <= 32
  {
    samples * pinCount + BitsPackedPerWord(pinCount) - 1 < TWO_32
  }

  /** Every word that the printer looks at is inside the buffer. */
  lemma IndexInsideBuffer(pin: nat, sample: nat, samples: nat, pinCount: nat)
    requires 1 <= pinCount <= 32 && pin < pinCount && sample < samples && FitsIn32Bits(samples, pinCount)
    ensures sample * pinCount + pinCount <= TWO_32
    ensures WordIndex(pin, sample, pinCount) < BufSizeWords(samples, pinCount)
  {
    hide BitsPackedPerWord, U32;
    var bits := BitsPackedPerWord(pinCount);
    ProductGrows(pinCount, sample, samples);
    assert pinCount * sample == sample * pinCount && pinCount * samples == samples * pinCount;
    var n, total := pin + sample * pinCount, samples * pinCount;
    NoOverflow(n);
    NoOverflow(total);
    NoOverflow(total + bits - 1);
    QuotientBelow(n, total, bits);
  }

  lemma QuotientBelow(n: nat, total: nat, d: nat)
    requires d > 0 && n < total
    ensures n / d < (total + d - 1) / d
  {
    var q, m := n / d, total + d - 1;
    assert n == d * q + n % d && m == d * (m / d) + m % d;
    ProductGrows(d, m / d, q + 1);
    assert d * (q + 1) == d * q + d;
  }

  /** And the buffer is no longer than that takes. */
  lemma BufferIsTight(samples: nat, pinCount: nat)
    requires 1 <= pinCount <= 32 && FitsIn32Bits(samples, pinCount)
    ensures var bits, words := BitsPackedPerWord(pinCount), BufSizeWords(samples, pinCount);
            words * bits - bits < samples * pinCount <= words * bits
  {
    hide U32;
    var bits, total := BitsPackedPerWord(pinCount), samples * pinCount;
    NoOverflow(total);
    NoOverflow(total + bits - 1);
    var n := total + bits - 1;
    assert n == bits * (n / bits) + n % bits && n / bits * bits == bits * (n / bits);
  }

  /** print_capture_buf: one row of text for each pin. */
  method PrintCaptureBuf(buf: array<Word>, pinCount: nat, samples: nat) returns (rows: seq<string>)
    requires 1 <= pinCount <= 32 && FitsIn32Bits(samples, pinCount) && buf.Length == BufSizeWords(samples, pinCount)
    ensures |rows| == pinCount
    ensures forall pin :: 0 <= pin < pinCount ==> |rows[pin]| == samples
    ensures forall pin, sample :: 0 <= pin < pinCount && 0 <= sample < samples ==>
      WordIndex(pin, sample, pinCount) < buf.Length
      && rows[pin][sample] == if buf[WordIndex(pin, sample, pinCount)][MaskBit(pin, sample, pinCount)] then '-' else '_'
  {
    hide WordIndex, MaskBit, BufSizeWords;
    rows := [];
    var pin := 0;
    while pin < pinCount
      invariant 0 <= pin <= pinCount && |rows| == pin
      invariant forall p :: 0 <= p < pin ==> |rows[p]| == samples
      invariant forall p, s :: 0 <= p < pin && 0 <= s < samples ==>
        WordIndex(p, s, pinCount) < buf.Length
        && rows[p][s] == if buf[WordIndex(p, s, pinCount)][MaskBit(p, s, pinCount)] then '-' else '_'
    {
      var row := "";
      var sample := 0;
      while sample < samples
        invariant 0 <= sample <= samples && |row| == sample
        invariant forall s :: 0 <= s < sample ==>
          WordIndex(pin, s, pinCount) < buf.Length
          && row[s] == if buf[WordIndex(pin, s, pinCount)][MaskBit(pin, s, pinCount)] then '-' else '_'
      {
        IndexInsideBuffer(pin, sample, samples, pinCount);
        var wordIndex, bit := WordIndex(pin, sample, pinCount), MaskBit(pin, sample, pinCount);
        row := row + [if buf[wordIndex][bit] then '-' else '_'];
        sample := sample + 1;
      }
      rows := rows + [row];
      pin := pin + 1;
    }
  }

  /** In a captured buffer, the decoded bit is the level that was captured. */
  lemma DecodedBitIsLevel(buf: seq<Word>, levels: Levels, pinCount: nat, samples: nat, pin: nat, sample: nat)
    requires 1 <= pinCount <= 32 && FitsIn32Bits(samples, pinCount) && |buf| == BufSizeWords(samples, pinCount)
    requires forall w :: 0 <= w < |buf| ==>
      Holds(buf[w], levels, Offset(w, SamplesPerWord(pinCount)), SamplesPerWord(pinCount), pinCount)
    requires pin < pinCount && sample < samples
    ensures WordIndex(pin, sample, pinCount) < |buf|
    ensures buf[WordIndex(pin, sample, pinCount)][MaskBit(pin, sample, pinCount)] == levels(sample, pin)
  {
    hide WordIndex, MaskBit, BufSizeWords, SamplesPerWord, Offset;
    IndexInsideBuffer(pin, sample, samples, pinCount);
    IndexOfSample(pin, sample, pinCount);
    var perWord := SamplesPerWord(pinCount);
    var w, j := sample / perWord, sample % perWord;
    assert Holds(buf[w], levels, Offset(w, perWord), perWord, pinCount);
    OffsetOrder(j, perWord, pinCount);
    assert HoldsLevel(buf[w], levels, Offset(w, perWord), perWord, pinCount, j, pin);
  }

  /** The whole path of `main`: size the buffer, capture, print. */
  method CaptureAndPrint(levels: Levels, pinCount: nat, isr0: Word, samples: nat) returns (rows: seq<string>)
    requires 1 <= pinCount <= 32 && FitsIn32Bits(samples, pinCount)
    ensures |rows| == pinCount
    ensures forall pin :: 0 <= pin < pinCount ==> |rows[pin]| == samples
    ensures forall pin, sample :: 0 <= pin < pinCount && 0 <= sample < samples ==>
      rows[pin][sample] == if levels(sample, pin) then '-' else '_'
  {
    hide WordIndex, MaskBit, BufSizeWords, Holds, Offset;
    var buf := Capture(levels, pinCount, isr0, BufSizeWords(samples, pinCount));
    rows := PrintCaptureBuf(buf, pinCount, samples);
    forall pin, sample | 0 <= pin < pinCount && 0 <= sample < samples
      ensures rows[pin][sample] == if levels(sample, pin) then '-' else '_'
    {
      DecodedBitIsLevel(buf[..], levels, pinCount, samples, pin, sample);
    }
  }
}
