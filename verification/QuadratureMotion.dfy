/** What the estimates of pio/quadrature_encoder_substep/quadrature_encoder_substep.c are for: an encoder that
    moves at constant speed is reported at that speed, and where it is. */
module QuadratureMotion {
  import opened Words
  import opened QuadratureSubstep

  /** Positions in substeps, times in microseconds: at time t the encoder is at (start + num * t) / den. It is
      faster than 0, and at most 1536 substeps per microsecond. */
  datatype Motion = Motion(start: int, num: int, den: int) {
    predicate Valid() {
      den > 0 && num != 0 && -1536 * den <= num <= 1536 * den
    }

    /** den times the position. */
    function At(t: int): int {
      start + num * t
    }
  }

  /** The start of a step, as a number of any size. */
  function StepAt(c: Boundaries, step: int): int {
    step / 4 * 256 + c[step % 4]
  }

  /** The end of the step through which the encoder comes in. */
  function Entry(m: Motion, c: Boundaries, step: int): int {
    if m.num > 0 then StepAt(c, step) else StepAt(c, step + 1)
  }

  /** A sample taken `now`, in a step that the encoder has entered at `since`. */
  datatype Sample = Sample(step: int, since: int, now: int)

  ghost predicate Sampled(m: Motion, c: Boundaries, s: Sample) {
    && s.since <= s.now
    && m.At(s.since) == Entry(m, c, s.step) * m.den
    && StepAt(c, s.step) * m.den <= m.At(s.now) <= StepAt(c, s.step + 1) * m.den
  }

  /** The next sample: in the same step, or in another one that has been entered in between. It comes before the
      time and the distance since the last transition become too large for an int. */
  predicate Follows(s: Sample, next: Sample) {
    && s.now < next.now < s.since + 0x8000_0000
    && -0x100_0000 < next.step - s.step < 0x100_0000
    && (next.step == s.step ==> next.since == s.since)
    && (next.step != s.step ==> s.now <= next.since && s.since < next.since)
  }

  /** What the state machine delivers for a sample. */
  predicate Observes(r: Reading, m: Motion, s: Sample, clocksPerUs: nat)
    requires clocksPerUs > 0
  {
    && r.Valid() && r.step == U32(s.step) && r.stepUs == U32(s.now)
    && TransitionUs(r, clocksPerUs) == U32(s.since) && Forward(r) == (m.num > 0)
  }

  /** The speed in substeps per 2^20 microseconds, truncated to an integer. */
  function Speed(m: Motion): int
    requires m.Valid()
  {
    TruncDiv(m.num * 0x10_0000, m.den)
  }

  /** Extrapolated with the truncated speed from the last transition. */
  function Estimate(m: Motion, c: Boundaries, s: Sample): int
    requires m.Valid()
  {
    Entry(m, c, s.step) + Speed(m) * (s.now - s.since) / 0x10_0000
  }

  /** Where the encoder is, rounded down to a substep. */
  function TruePosition(m: Motion, s: Sample): int
    requires m.Valid()
  {
    m.At(s.now) / m.den
  }

  // ---------------------------------------------------------------------------------------
  // Arithmetic

  lemma U32Next(k: int)
    ensures U32(U32(k) + 1) == U32(k + 1)
  {
  }

  lemma DifferenceFits(a: int, b: int)
    requires -0x8000_0000 <= a - b < 0x8000_0000
    ensures S32(U32(a) - U32(b)) == a - b
  {
  }

  lemma U32Difference(a: int, b: int)
    requires 0 <= a - b < TWO_32
    ensures U32(U32(a) - U32(b)) == a - b
  {
  }

  lemma SameStep(k: int, n: int)
    requires -0x100_0000 < n - k < 0x100_0000
    ensures U32(k) == U32(n) <==> k == n
  {
  }

  lemma Regrouped(x: int, y: int, z: int)
    ensures x * y * z == x * z * y
  {
  }

  lemma Scaled(x: int, y: int, e: int)
    requires e > 0
    ensures x <= y ==> x * e <= y * e
    ensures x < y ==> x * e < y * e
  {
  }

  lemma Negative(x: int, d: int)
    requires d > 0
    ensures x * d >= 0 <==> x >= 0
  {
  }

  /** Rounding down is monotone on fractions, and so is rounding up. */
  lemma FloorMonotone(a: int, d: int, b: int, e: int, p: int, q: int)
    requires d > 0 && e > 0 && a * e <= b * d && d * p <= a && b < e * (q + 1)
    ensures p <= q
  {
    Scaled(d * p, a, e);
    Scaled(b, e * (q + 1), d);
    Regrouped(d, p, e);
    Regrouped(e, q + 1, d);
    assert d * e == e * d;
    Negative(d, e);
    LessFromProduct(d * e, p, q + 1);
  }

  lemma CeilingMonotone(a: int, d: int, b: int, e: int, p: int, q: int)
    requires d > 0 && e > 0 && a * e <= b * d && d * (p - 1) < a && b <= e * q
    ensures p <= q
  {
    Scaled(d * (p - 1), a, e);
    Scaled(b, e * q, d);
    Regrouped(d, p - 1, e);
    Regrouped(e, q, d);
    assert d * e == e * d;
    Negative(d, e);
    LessFromProduct(d * e, p - 1, q);
  }

  /** Truncation too. */
  lemma TruncMonotone(a: int, d: int, b: int, e: int)
    requires d > 0 && e > 0 && a * e <= b * d
    ensures TruncDiv(a, d) <= TruncDiv(b, e)
  {
    hide TruncDiv;
    TruncBounds(a, d);
    TruncBounds(b, e);
    Negative(a, e);
    Negative(b, d);
    var p, q := TruncDiv(a, d), TruncDiv(b, e);
    if a >= 0 {
      assert e * q + e == e * (q + 1);
      FloorMonotone(a, d, b, e, p, q);
    } else if b < 0 {
      assert d * p - d == d * (p - 1);
      CeilingMonotone(a, d, b, e, p, q);
    }
  }

  lemma SameQuotient(a: int, d: int, b: int, e: int)
    requires d > 0 && e > 0 && a * e == b * d
    ensures TruncDiv(a, d) == TruncDiv(b, e)
  {
    hide TruncDiv;
    TruncMonotone(a, d, b, e);
    TruncMonotone(b, e, a, d);
  }

  // ---------------------------------------------------------------------------------------
  // Boundaries

  lemma StepAtWraps(c: Boundaries, k: int)
    requires CalibrationOk(c)
    ensures StepStart(c, U32(k)) == U32(StepAt(c, k)) && StepStart(c, U32(U32(k) + 1)) == U32(StepAt(c, k + 1))
  {
    hide StepStart;
    U32Next(k);
    StepStartForm(c, U32(k));
    StepStartForm(c, U32(k + 1));
    StepCycle(k);
    StepCycle(k + 1);
    CycleStart(k / 4, c[k % 4]);
    CycleStart((k + 1) / 4, c[(k + 1) % 4]);
  }

  lemma StepCycle(k: int)
    ensures U32(k) % 4 == k % 4 && U32(U32(k) / 4 * 256) == U32(k / 4 * 256)
  {
    var j := k / TWO_32;
    assert k == U32(k) + TWO_32 * j;
    assert k / 4 == U32(k) / 4 + 0x4000_0000 * j;
    assert k / 4 * 256 == U32(k) / 4 * 256 + TWO_32 * (64 * j);
    AddWraps(U32(k) / 4 * 256, 64 * j);
  }

  lemma CycleStart(h: int, low: nat)
    requires low < 256
    ensures U32(h * 256) + low == U32(h * 256 + low)
  {
    hide U32;
    var g, j := h % 0x100_0000, h / 0x100_0000;
    assert h * 256 == g * 256 + TWO_32 * j && h * 256 + low == g * 256 + low + TWO_32 * j;
    AddWraps(g * 256, j);
    AddWraps(g * 256 + low, j);
    Unwrapped(g * 256);
    Unwrapped(g * 256 + low);
  }

  lemma StepWidthAt(c: Boundaries, k: int)
    requires CalibrationOk(c)
    ensures 0 <= StepAt(c, k + 1) - StepAt(c, k) <= 256
  {
    if k % 4 == 3 {
      assert (k + 1) / 4 == k / 4 + 1 && (k + 1) % 4 == 0;
    } else {
      assert (k + 1) / 4 == k / 4 && (k + 1) % 4 == k % 4 + 1;
    }
  }

  lemma StepsApart(c: Boundaries, k: int, n: int)
    requires CalibrationOk(c) && -0x100_0001 <= n - k <= 0x100_0001
    ensures -0x4000_1000 < StepAt(c, n) - StepAt(c, k) < 0x4000_1000
  {
    assert k == 4 * (k / 4) + k % 4 && n == 4 * (n / 4) + n % 4;
  }


  // ---------------------------------------------------------------------------------------
  // The clamp does not touch the true speed

  /** Distances and a time between which the motion lies are slopes between which its speed lies. */
  lemma SpeedWithin(m: Motion, low: int, high: int, us: int)
    requires m.Valid() && us > 0 && high - low <= 256
    requires low * m.den <= m.num * us <= high * m.den
    ensures Clamp(Speed(m), CalcSpeed(low, us), CalcSpeed(high, us)) == Speed(m)
  {
    hide TruncDiv, Wraps;
    TruncMonotone(low * 0x10_0000, us, m.num * 0x10_0000, m.den) by {
      Regrouped(low, 0x10_0000, m.den);
      Regrouped(m.num, 0x10_0000, us);
    }
    TruncMonotone(m.num * 0x10_0000, m.den, high * 0x10_0000, us) by {
      Regrouped(high, 0x10_0000, m.den);
      Regrouped(m.num, 0x10_0000, us);
    }
    SlopesSlow(m, low, high, us);
    SlowEnough(low, us);
    SlowEnough(high, us);
    S32Wraps(Quotient(low, us));
    S32Wraps(Quotient(high, us));
  }

  lemma SlopesSlow(m: Motion, low: int, high: int, us: int)
    requires m.Valid() && us > 0 && high - low <= 256
    requires low * m.den <= m.num * us <= high * m.den
    ensures Slow(low, us) && Slow(high, us)
  {
    var d := m.den;
    Scaled(m.num, 1536 * d, us);
    Scaled(-1536 * d, m.num, us);
    assert 1536 * d * us == d * (1536 * us) && -1536 * d * us == d * (-1536 * us);
    assert low * d == d * low && high * d == d * high;
    AtMost(d, low, 1536 * us);
    AtMost(d, -1536 * us, high);
  }

  lemma AtMost(c: int, d: int, t: int)
    requires c > 0 && c * d <= c * t
    ensures d <= t
  {
    ProductGrows(c, t, d);
  }

  /** The encoder as it is once a transition of the motion has been recorded. */
  ghost predicate Recorded(e: Encoder, m: Motion, c: Boundaries, s: Sample) {
    && e.calibration == c && CalibrationOk(c)
    && e.prevTransPos == U32(Entry(m, c, s.step)) && e.prevTransUs == U32(s.since)
  }

  /** The bounds saved with the sample before. */
  ghost predicate Saved(e: Encoder, c: Boundaries, s: Sample) {
    && e.prevLow == U32(StepAt(c, s.step)) && e.prevHigh == U32(StepAt(c, s.step + 1)) && e.prevStepUs == U32(s.now)
  }

  lemma SlopesOfMotion(moved: Encoder, m: Motion, c: Boundaries, s: Sample, next: Sample, r: Reading)
    requires m.Valid() && Sampled(m, c, s) && Sampled(m, c, next) && Follows(s, next)
    requires Recorded(moved, m, c, next) && Saved(moved, c, s)
    requires r.step == U32(next.step) && r.stepUs == U32(next.now) && SpeedSlopes(moved, r).deltaUs > 0
    ensures var x := SpeedSlopes(moved, r);
            x.deltaHigh - x.deltaLow <= 256 && x.deltaLow * m.den <= m.num * x.deltaUs <= x.deltaHigh * m.den
  {
    hide StepStart, S32, U32, StepAt;
    if FromSampleBefore(moved, r) {
      SlopesFromBefore(moved, m, c, s, next, r);
    } else {
      SlopesToNow(moved, m, c, s, next, r);
    }
  }

  lemma SlopesFromBefore(moved: Encoder, m: Motion, c: Boundaries, s: Sample, next: Sample, r: Reading)
    requires m.Valid() && Sampled(m, c, s) && Sampled(m, c, next) && Follows(s, next)
    requires Recorded(moved, m, c, next) && Saved(moved, c, s) && FromSampleBefore(moved, r)
    ensures var x := SpeedSlopes(moved, r);
            x.deltaHigh - x.deltaLow <= 256 && x.deltaLow * m.den <= m.num * x.deltaUs <= x.deltaHigh * m.den
  {
    hide StepStart, S32, U32, StepAt, FromSampleBefore;
    var entry, low, high := Entry(m, c, next.step), StepAt(c, s.step), StepAt(c, s.step + 1);
    StepWidthAt(c, s.step);
    DifferenceFits(next.since, s.now);
    StepsApart(c, s.step, next.step);
    StepsApart(c, s.step + 1, next.step);
    StepsApart(c, s.step, next.step + 1);
    StepsApart(c, s.step + 1, next.step + 1);
    DifferenceFits(entry, low);
    DifferenceFits(entry, high);
    Distances(m, entry, next.since, low, high, s.now);
  }

  lemma SlopesToNow(moved: Encoder, m: Motion, c: Boundaries, s: Sample, next: Sample, r: Reading)
    requires m.Valid() && Sampled(m, c, next) && Follows(s, next)
    requires Recorded(moved, m, c, next) && !FromSampleBefore(moved, r)
    requires r.step == U32(next.step) && r.stepUs == U32(next.now)
    ensures var x := SpeedSlopes(moved, r);
            x.deltaHigh - x.deltaLow <= 256 && x.deltaLow * m.den <= m.num * x.deltaUs <= x.deltaHigh * m.den
  {
    hide StepStart, S32, U32, StepAt, FromSampleBefore;
    var entry, low, high := Entry(m, c, next.step), StepAt(c, next.step), StepAt(c, next.step + 1);
    StepWidthAt(c, next.step);
    DifferenceFits(next.now, next.since);
    StepAtWraps(c, next.step);
    DifferenceFits(low, entry);
    DifferenceFits(high, entry);
    Distances(m, entry, next.since, low, high, next.now);
  }

  /** A motion at `entry` at time `since`, and between low and high at time t. */
  lemma Distances(m: Motion, entry: int, since: int, low: int, high: int, t: int)
    requires m.At(since) == entry * m.den && low * m.den <= m.At(t) <= high * m.den
    ensures (low - entry) * m.den <= m.num * (t - since) <= (high - entry) * m.den
    ensures (entry - high) * m.den <= m.num * (since - t) <= (entry - low) * m.den
  {
    assert m.num * (t - since) == m.At(t) - m.At(since) && m.num * (since - t) == m.At(since) - m.At(t);
    var d := m.den;
    assert (low - entry) * d == low * d - entry * d && (high - entry) * d == high * d - entry * d;
    assert (entry - high) * d == entry * d - high * d && (entry - low) * d == entry * d - low * d;
  }

  // ---------------------------------------------------------------------------------------
  // The speed from two transitions

  lemma SpeedOfTransitions(m: Motion, c: Boundaries, s: Sample, next: Sample)
    requires m.Valid() && CalibrationOk(c) && Sampled(m, c, s) && Sampled(m, c, next) && Follows(s, next)
    requires next.since > s.since
    ensures var from, to := Entry(m, c, s.step), Entry(m, c, next.step);
            && S32(U32(next.since) - U32(s.since)) == next.since - s.since
            && CalcSpeed(S32(U32(to) - U32(from)), next.since - s.since) == Speed(m)
  {
    hide TruncDiv, S32, U32, StepAt;
    var from, to, us := Entry(m, c, s.step), Entry(m, c, next.step), next.since - s.since;
    DifferenceFits(next.since, s.since);
    StepsApart(c, s.step, next.step);
    StepsApart(c, s.step + 1, next.step + 1);
    DifferenceFits(to, from);
    assert m.num * us == m.At(next.since) - m.At(s.since) && (to - from) * m.den == to * m.den - from * m.den;
    Regrouped(to - from, 0x10_0000, m.den);
    Regrouped(m.num, 0x10_0000, us);
    SameQuotient((to - from) * 0x10_0000, us, m.num * 0x10_0000, m.den);
    SpeedFits(m);
  }

  lemma SpeedFits(m: Motion)
    requires m.Valid()
    ensures S32(Speed(m)) == Speed(m)
  {
    hide TruncDiv, Wraps;
    assert Slow(m.num, m.den);
    SlowEnough(m.num, m.den);
    S32Wraps(Quotient(m.num, m.den));
  }


  // ---------------------------------------------------------------------------------------
  // The position

  /** The position q is the encoder's, rounded down, or behind it by a substep for each 2^20 microseconds begun
      since the last transition; and not at all if the speed is an integer. */
  ghost predicate Near(m: Motion, s: Sample, q: int)
    requires m.Valid()
  {
    var truth, late := TruePosition(m, s), (s.now - s.since + 0xF_FFFF) / 0x10_0000;
    && (if m.num > 0 then truth - late <= q <= truth else truth <= q <= truth + late)
    && (m.num * 0x10_0000 % m.den == 0 ==> q == truth)
  }

  lemma EstimateIsNear(m: Motion, c: Boundaries, s: Sample)
    requires m.Valid() && Sampled(m, c, s)
    ensures Near(m, s, Estimate(m, c, s))
    ensures StepAt(c, s.step) <= Estimate(m, c, s) <= StepAt(c, s.step + 1)
  {
    hide TruncDiv, StepAt;
    var entry, dt, v := Entry(m, c, s.step), s.now - s.since, Speed(m);
    TruthFromEntry(m, entry, s);
    TruncBounds(m.num * 0x10_0000, m.den);
    SpeedError(m.num, m.den, v, dt);
    FloorBetween(m.At(s.now), m.den, StepAt(c, s.step), StepAt(c, s.step + 1));
    Negative(m.num * 0x10_0000, 1);
    SignOfProduct(v, dt);
    if m.num * 0x10_0000 % m.den == 0 {
      ExactSpeed(m.num * 0x10_0000, m.den);
      ExactDistance(m.num, m.den, v, dt);
    }
  }

  lemma TruthFromEntry(m: Motion, entry: int, s: Sample)
    requires m.Valid() && m.At(s.since) == entry * m.den
    ensures TruePosition(m, s) == entry + m.num * (s.now - s.since) / m.den
  {
    var x := m.num * (s.now - s.since);
    assert m.At(s.now) == entry * m.den + x;
    FloorShift(x, entry, m.den);
  }

  lemma FloorShift(x: int, k: int, d: int)
    requires d > 0
    ensures (k * d + x) / d == k + x / d
  {
    var n := k * d + x;
    assert n == d * (n / d) + n % d && x == d * (x / d) + x % d;
    assert d * (k + x / d) == k * d + d * (x / d);
    ProductGrows(d, n / d, k + x / d);
    ProductGrows(d, k + x / d, n / d);
  }

  lemma FloorBetween(x: int, d: int, low: int, high: int)
    requires d > 0 && low * d <= x <= high * d
    ensures low <= x / d <= high
  {
    assert x == d * (x / d) + x % d && low * d == d * low && high * d == d * high;
    ProductGrows(d, x / d, low);
    ProductGrows(d, high, x / d);
  }

  lemma SignOfProduct(v: int, dt: int)
    requires dt >= 0
    ensures v >= 0 ==> v * dt / 0x10_0000 >= 0
    ensures v <= 0 ==> v * dt / 0x10_0000 <= 0
  {
    if v >= 0 {
      assert v * dt >= 0;
    } else {
      assert -v * dt >= 0;
    }
  }

  /** The truncated speed lags behind by less than a substep in 2^20 microseconds. */
  lemma SpeedError(num: int, den: int, v: int, dt: int)
    requires den > 0 && dt >= 0
    requires if num * 0x10_0000 >= 0 then den * v <= num * 0x10_0000 < den * v + den
             else den * v - den < num * 0x10_0000 <= den * v
    ensures var truth, q, late := num * dt / den, v * dt / 0x10_0000, (dt + 0xF_FFFF) / 0x10_0000;
            if num >= 0 then truth - late <= q <= truth else truth <= q <= truth + late
  {
    if num >= 0 {
      FloorLess(num, den, v, dt);
      FloorMore(num, den, v + 1, dt);
      assert (v + 1) * dt == v * dt + dt;
      FloorSum(v * dt, dt);
    } else {
      FloorMore(num, den, v, dt);
      FloorLess(num, den, v - 1, dt);
      assert v * dt == (v - 1) * dt + dt;
      FloorSum((v - 1) * dt, dt);
    }
  }

  lemma FloorLess(num: int, den: int, v: int, dt: int)
    requires den > 0 && dt >= 0 && den * v <= num * 0x10_0000
    ensures v * dt / 0x10_0000 <= num * dt / den
  {
    OverTime(den * v, num * 0x10_0000, dt);
    Regrouped(den, v, dt);
    Regrouped(num, 0x10_0000, dt);
    assert v * dt * den == den * dt * v == den * v * dt by {
      Regrouped(den, dt, v);
      assert v * dt * den == den * (v * dt) == den * v * dt;
    }
    Quotients(v * dt, 0x10_0000, num * dt, den);
  }

  lemma FloorMore(num: int, den: int, v: int, dt: int)
    requires den > 0 && dt >= 0 && num * 0x10_0000 <= den * v
    ensures num * dt / den <= v * dt / 0x10_0000
  {
    OverTime(num * 0x10_0000, den * v, dt);
    Regrouped(num, 0x10_0000, dt);
    assert v * dt * den == den * v * dt by {
      assert v * dt * den == den * (v * dt) == den * v * dt;
    }
    Quotients(num * dt, den, v * dt, 0x10_0000);
  }

  lemma OverTime(x: int, y: int, dt: int)
    requires x <= y && dt >= 0
    ensures x * dt <= y * dt
  {
  }

  lemma Quotients(a: int, d: int, b: int, e: int)
    requires d > 0 && e > 0 && a * e <= b * d
    ensures a / d <= b / e
  {
    assert a == d * (a / d) + a % d && b == e * (b / e) + b % e;
    assert e * (b / e + 1) == e * (b / e) + e;
    FloorMonotone(a, d, b, e, a / d, b / e);
  }

  lemma FloorSum(x: int, y: int)
    ensures (x + y) / 0x10_0000 <= x / 0x10_0000 + (y + 0xF_FFFF) / 0x10_0000
  {
  }

  lemma ExactSpeed(a: int, d: int)
    requires d > 0 && a % d == 0
    ensures d * TruncDiv(a, d) == a
  {
    hide TruncDiv;
    TruncBounds(a, d);
    var k, q := a / d, TruncDiv(a, d);
    assert a == d * k;
    ProductGrows(d, k, q);
    ProductGrows(d, q, k);
    if a >= 0 {
      ProductGrows(d, q + 1, k);
      assert d * (q + 1) == d * q + d;
    } else {
      ProductGrows(d, k, q - 1);
      assert d * (q - 1) == d * q - d;
    }
  }

  lemma ExactDistance(num: int, den: int, v: int, dt: int)
    requires den > 0 && dt >= 0 && den * v == num * 0x10_0000
    ensures v * dt / 0x10_0000 == num * dt / den
  {
    FloorLess(num, den, v, dt);
    FloorMore(num, den, v, dt);
  }

  lemma PositionOfMotion(m: Motion, c: Boundaries, s: Sample)
    requires m.Valid() && CalibrationOk(c) && Sampled(m, c, s) && s.now - s.since < TWO_32
    ensures U32(U32(Entry(m, c, s.step)) + Speed(m) * U32(U32(s.now) - U32(s.since)) / 0x10_0000)
         == U32(Estimate(m, c, s))
    ensures var p := U32(Estimate(m, c, s));
            ClampPosition(p, StepStart(c, U32(s.step)), StepStart(c, U32(U32(s.step) + 1))) == p
  {
    hide StepStart, Speed, StepAt, U32, S32, ClampPosition, Estimate, Near;
    U32Difference(s.now, s.since);
    EstimateForm(m, c, s);
    EstimateIsNear(m, c, s);
    StepWidthAt(c, s.step);
    StepAtWraps(c, s.step);
    InsideUnclamped(Estimate(m, c, s), StepAt(c, s.step), StepAt(c, s.step + 1));
  }

  lemma EstimateForm(m: Motion, c: Boundaries, s: Sample)
    requires m.Valid()
    ensures U32(U32(Entry(m, c, s.step)) + Speed(m) * (s.now - s.since) / 0x10_0000) == U32(Estimate(m, c, s))
  {
    hide U32, Speed;
    U32Sum(Entry(m, c, s.step), Speed(m) * (s.now - s.since) / 0x10_0000);
  }

  lemma InsideUnclamped(q: int, low: int, high: int)
    requires low <= q <= high <= low + 256
    ensures ClampPosition(U32(q), U32(low), U32(high)) == U32(q)
  {
    hide U32, S32;
    DifferenceFits(q, low);
    DifferenceFits(q, high);
  }

  lemma U32Sum(a: int, b: int)
    ensures U32(U32(a) + b) == U32(a + b)
  {
  }


  // ---------------------------------------------------------------------------------------
  // One update

  /** How many transitions the encoder has recorded since it was stopped last. */
  function SeenNext(e: Encoder, r: Reading, seen: nat): nat
    requires e.clocksPerUs > 0 && Timed(e, r)
  {
    if Updated(e, r).stopped then 0
    else if r.step == e.rawStep then seen
    else if AfterIdle(e, r).stopped then 1
    else seen + 1
  }

  ghost predicate Starts(e: Encoder, c: Boundaries, s: Sample) {
    e.calibration == c && CalibrationOk(c) && e.clocksPerUs > 0 && e.stopped && e.rawStep == U32(s.step)
  }

  /** The encoder has followed the motion up to a sample. */
  ghost predicate Tracks(e: Encoder, m: Motion, c: Boundaries, s: Sample, seen: nat)
    requires m.Valid()
  {
    && e.calibration == c && CalibrationOk(c) && e.clocksPerUs > 0 && e.rawStep == U32(s.step) && Saved(e, c, s)
    && (seen == 0 <==> e.stopped)
    && (seen > 0 ==> Recorded(e, m, c, s))
    && (seen > 1 ==>
          && e.speed220 == Speed(m) && e.speed == Speed(m) * 1_000_000 / 0x10_0000
          && e.position == U32(Estimate(m, c, s)))
  }

  ghost predicate Ready(e: Encoder, m: Motion, c: Boundaries, s: Sample, seen: nat)
    requires m.Valid()
  {
    if seen == 0 then Starts(e, c, s) else Tracks(e, m, c, s, seen)
  }

  lemma TransitionOfMotion(e: Encoder, m: Motion, c: Boundaries, s: Sample, next: Sample, r: Reading, seen: nat)
    requires m.Valid() && Ready(e, m, c, s, seen) && Sampled(m, c, s) && Sampled(m, c, next) && Follows(s, next)
    requires Observes(r, m, next, e.clocksPerUs) && Timed(e, r)
    ensures var idle, moved := AfterIdle(e, r), AfterTransition(AfterIdle(e, r), r);
            && moved.calibration == c && moved.clocksPerUs == e.clocksPerUs
            && moved.prevLow == e.prevLow && moved.prevHigh == e.prevHigh && moved.prevStepUs == e.prevStepUs
            && (r.step == e.rawStep <==> s.step == next.step)
            && (seen == 0 ==> idle.stopped)
            && (!moved.stopped ==> Recorded(moved, m, c, next) && (r.step == e.rawStep ==> seen > 0))
            && (!moved.stopped && r.step == e.rawStep && seen > 1 ==> moved.speed220 == Speed(m))
            && (r.step != e.rawStep && !idle.stopped ==> moved.speed220 == Speed(m))
  {
    hide StepStart, TransitionUs, TruncDiv, CalcSpeed, SpeedSlopes, StepAt, S32, U32, Speed, Estimate, Saved;
    SameStep(s.step, next.step);
    StepAtWraps(c, next.step);
    if r.step != e.rawStep && !AfterIdle(e, r).stopped {
      SpeedOfTransitions(m, c, s, next);
    }
  }

  lemma UpdateOfMotion(e: Encoder, m: Motion, c: Boundaries, s: Sample, next: Sample, r: Reading, seen: nat)
    requires m.Valid() && Ready(e, m, c, s, seen) && Sampled(m, c, s) && Sampled(m, c, next) && Follows(s, next)
    requires Observes(r, m, next, e.clocksPerUs) && Timed(e, r)
    ensures Tracks(Updated(e, r), m, c, next, SeenNext(e, r, seen))
  {
    hide StepStart, TransitionUs, TruncDiv, CalcSpeed, SpeedSlopes, StepAt, S32, U32, Speed, Estimate, AfterEstimate,
      AfterTransition, Entry;
    TransitionOfMotion(e, m, c, s, next, r, seen);
    StepAtWraps(c, next.step);
    var moved := AfterTransition(AfterIdle(e, r), r);
    EstimateKeeps(moved, r);
    if !moved.stopped && SeenNext(e, r, seen) > 1 {
      EstimateOfMotion(moved, m, c, s, next, r);
    }
  }

  lemma EstimateKeeps(moved: Encoder, r: Reading)
    requires moved.clocksPerUs > 0 && (!moved.stopped ==> SpeedSlopes(moved, r).deltaUs != 0)
    ensures var n := AfterEstimate(moved, r);
            && n.calibration == moved.calibration && n.clocksPerUs == moved.clocksPerUs && n.stopped == moved.stopped
            && n.prevTransPos == moved.prevTransPos && n.prevTransUs == moved.prevTransUs
  {
    hide StepStart, TransitionUs, CalcSpeed, SpeedSlopes, Clamp, ClampPosition, U32;
  }

  lemma EstimateOfMotion(moved: Encoder, m: Motion, c: Boundaries, s: Sample, next: Sample, r: Reading)
    requires m.Valid() && Sampled(m, c, s) && Sampled(m, c, next) && Follows(s, next)
    requires Recorded(moved, m, c, next) && Saved(moved, c, s) && moved.speed220 == Speed(m) && !moved.stopped
    requires moved.clocksPerUs > 0 && Observes(r, m, next, moved.clocksPerUs) && SpeedSlopes(moved, r).deltaUs > 0
    ensures var n := AfterEstimate(moved, r);
            && n.speed220 == Speed(m) && n.speed == Speed(m) * 1_000_000 / 0x10_0000
            && n.position == U32(Estimate(m, c, next))
  {
    hide StepStart, TransitionUs, CalcSpeed, SpeedSlopes, StepAt, S32, U32, Speed, Estimate, Clamp, ClampPosition,
      Entry, AfterEstimate, Sampled;
    var x := SpeedSlopes(moved, r);
    SlopesOfMotion(moved, m, c, s, next, r);
    SpeedWithin(m, x.deltaLow, x.deltaHigh, x.deltaUs);
    PositionOfMotion(m, c, next);
    PerSecond(Speed(m));
    EstimateIs(moved, r, Speed(m), U32(Estimate(m, c, next)));
  }

  lemma EstimateIs(moved: Encoder, r: Reading, v: int, p: nat)
    requires moved.clocksPerUs > 0 && !moved.stopped && SpeedSlopes(moved, r).deltaUs != 0
    requires var s := SpeedSlopes(moved, r);
             Clamp(moved.speed220, CalcSpeed(s.deltaLow, s.deltaUs), CalcSpeed(s.deltaHigh, s.deltaUs)) == v
    requires U32(moved.prevTransPos + v * U32(r.stepUs - TransitionUs(r, moved.clocksPerUs)) / 0x10_0000) == p
    requires p == ClampPosition(p, StepStart(moved.calibration, r.step), StepStart(moved.calibration, U32(r.step + 1)))
    ensures AfterEstimate(moved, r) == moved.(speed220 := v, speed := v * 62500 / 65536, position := p)
  {
    hide StepStart, TransitionUs, CalcSpeed, SpeedSlopes, Clamp, ClampPosition, U32;
  }

  lemma PerSecond(v: int)
    ensures v * 62500 / 65536 == v * 1_000_000 / 0x10_0000
  {
  }

  // ---------------------------------------------------------------------------------------
  // Every run

  function SeenAfter(e: Encoder, readings: seq<Reading>, seen: nat): nat
    requires e.clocksPerUs > 0 && RunOk(e, readings)
    decreases |readings|
  {
    if readings == [] then seen
    else SeenAfter(Updated(e, readings[0]), readings[1..], SeenNext(e, readings[0], seen))
  }

  /** The readings are those of samples of the motion, the first sample being the one of the initialisation. */
  ghost predicate ObservesRun(readings: seq<Reading>, m: Motion, c: Boundaries, samples: seq<Sample>, clocksPerUs: nat)
    requires clocksPerUs > 0
  {
    && |samples| == |readings| + 1
    && (forall i :: 0 <= i < |samples| ==> Sampled(m, c, samples[i]))
    && (forall i :: 0 < i < |samples| ==> Follows(samples[i - 1], samples[i]))
    && (forall i :: 0 <= i < |readings| ==> Observes(readings[i], m, samples[i + 1], clocksPerUs))
  }

  lemma {:induction false} RunOfMotion(e: Encoder, m: Motion, c: Boundaries, readings: seq<Reading>,
                                       samples: seq<Sample>, seen: nat)
    requires m.Valid() && e.clocksPerUs > 0 && RunOk(e, readings) && ObservesRun(readings, m, c, samples, e.clocksPerUs)
    requires Ready(e, m, c, samples[0], seen)
    ensures var total := SeenAfter(e, readings, seen);
            total > 0 ==> Tracks(RunUpdates(e, readings), m, c, samples[|readings|], total)
    decreases |readings|
  {
    hide Updated, Timed, Sampled, Follows, Observes, Tracks, SeenNext;
    if readings != [] {
      assert Follows(samples[1 - 1], samples[1]);
      UpdateOfMotion(e, m, c, samples[0], samples[1], readings[0], seen);
      var n, k := Updated(e, readings[0]), SeenNext(e, readings[0], seen);
      StoppedReady(n, m, c, samples[1], k);
      ObservesRest(readings, m, c, samples, e.clocksPerUs);
      RunOfMotion(n, m, c, readings[1..], samples[1..], k);
    }
  }

  /** The time spans are positive in all of that if every sample is taken after the last transition, and not in
      the same microsecond. */
  lemma TimedOfMotion(e: Encoder, m: Motion, c: Boundaries, s: Sample, next: Sample, r: Reading, seen: nat)
    requires m.Valid() && Ready(e, m, c, s, seen) && Follows(s, next) && next.since < next.now
    requires Observes(r, m, next, e.clocksPerUs)
    ensures Timed(e, r)
  {
    hide StepStart, TransitionUs, CalcSpeed, StepAt, S32, U32, Speed, Estimate, Entry;
    SameStep(s.step, next.step);
    DifferenceFits(next.now, next.since);
    if next.step != s.step && seen > 0 {
      DifferenceFits(next.since, s.since);
    }
  }

  lemma {:induction false} RunOkOfMotion(e: Encoder, m: Motion, c: Boundaries, readings: seq<Reading>,
                                         samples: seq<Sample>, seen: nat)
    requires m.Valid() && e.clocksPerUs > 0 && ObservesRun(readings, m, c, samples, e.clocksPerUs)
    requires Ready(e, m, c, samples[0], seen)
    requires forall i :: 0 < i < |samples| ==> samples[i].since < samples[i].now
    ensures RunOk(e, readings)
    decreases |readings|
  {
    hide Updated, Timed, Sampled, Follows, Observes, Tracks, SeenNext, Ready;
    if readings != [] {
      assert Follows(samples[1 - 1], samples[1]);
      assert readings[0].Valid() by {
        ObservesValid(readings[0], m, samples[1], e.clocksPerUs);
      }
      TimedOfMotion(e, m, c, samples[0], samples[1], readings[0], seen);
      UpdateOfMotion(e, m, c, samples[0], samples[1], readings[0], seen);
      var n, k := Updated(e, readings[0]), SeenNext(e, readings[0], seen);
      StoppedReady(n, m, c, samples[1], k);
      ObservesRest(readings, m, c, samples, e.clocksPerUs);
      RunOkOfMotion(n, m, c, readings[1..], samples[1..], k);
    }
  }

  lemma ObservesValid(r: Reading, m: Motion, s: Sample, clocksPerUs: nat)
    requires clocksPerUs > 0 && Observes(r, m, s, clocksPerUs)
    ensures r.Valid()
  {
  }

  lemma StoppedReady(e: Encoder, m: Motion, c: Boundaries, s: Sample, seen: nat)
    requires m.Valid() && Tracks(e, m, c, s, seen)
    ensures Ready(e, m, c, s, seen)
  {
    hide Saved, Recorded, Speed, Estimate;
  }

  lemma ObservesRest(readings: seq<Reading>, m: Motion, c: Boundaries, samples: seq<Sample>, clocksPerUs: nat)
    requires clocksPerUs > 0 && readings != [] && ObservesRun(readings, m, c, samples, clocksPerUs)
    ensures ObservesRun(readings[1..], m, c, samples[1..], clocksPerUs)
  {
    hide Sampled, Follows, Observes;
    var rest := samples[1..];
    forall i | 0 < i < |rest|
      ensures Follows(rest[i - 1], rest[i])
    {
      assert Follows(samples[i + 1 - 1], samples[i + 1]);
    }
  }

  /** An encoder that moves at constant speed, in either direction, across any wrap-around, and has made two
      transitions without being stopped in between, is reported at that speed, truncated; and at the place where
      it is, rounded down, to within one substep for each 2^20 microseconds begun since the last transition, and
      exactly if the speed is an integer. */
  lemma MotionIsReported(clocksPerUs: nat, first: Reading, c: Boundaries, readings: seq<Reading>, m: Motion,
                         samples: seq<Sample>)
    requires clocksPerUs > 0 && first.Valid() && CalibrationOk(c) && m.Valid()
    requires RunOk(Initial(clocksPerUs, first).(calibration := c), readings)
    requires ObservesRun(readings, m, c, samples, clocksPerUs) && first.step == U32(samples[0].step)
    requires SeenAfter(Initial(clocksPerUs, first).(calibration := c), readings, 0) >= 2
    ensures var e := Reached(clocksPerUs, first, c, readings);
            && !e.stopped && e.speed220 == Speed(m) && e.speed == Speed(m) * 1_000_000 / 0x10_0000
            && exists q :: Near(m, samples[|readings|], q) && e.position == U32(q)
  {
    hide RunOk, RunUpdates, SeenAfter, TransitionUs, StepStart, Near, Speed, Estimate, Recorded, Saved;
    RunOfMotion(Initial(clocksPerUs, first).(calibration := c), m, c, readings, samples, 0);
    EstimateIsNear(m, c, samples[|readings|]);
    assert Near(m, samples[|readings|], Estimate(m, c, samples[|readings|]));
  }
}
