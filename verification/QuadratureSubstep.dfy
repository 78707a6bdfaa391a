/** The sub-step estimator of pio/quadrature_encoder_substep/quadrature_encoder_substep.c: position
    and speed from step counts and transition times, in wrapping 32-bit arithmetic. */
module QuadratureSubstep {
  import opened Words

  /** calibration_data: where in a cycle of 256 substeps each of its four steps starts. */
  type Boundaries = c: seq<nat> | |c| == 4 witness [0, 64, 128, 192]

  const EQUAL_PHASES: Boundaries := [0, 64, 128, 192]

  /** substep_state_t without the PIO handle. */
  datatype Encoder = Encoder(
    calibration: Boundaries, clocksPerUs: nat, idleStopSamples: nat,
    prevTransPos: nat, prevTransUs: nat, prevStepUs: nat, prevLow: nat, prevHigh: nat,
    idleStopSampleCount: nat, speed220: int, stopped: bool,
    speed: int, position: nat, rawStep: nat)

  /** What quadrature_encoder_substep_get_counts delivers: two uint32_t and an int32_t. */
  datatype Reading = Reading(step: nat, cycles: int, stepUs: nat) {
    predicate Valid() {
      step < TWO_32 && stepUs < TWO_32 && -0x8000_0000 <= cycles < 0x8000_0000
    }
  }

  /** Boundaries that start at 0, do not decrease and stay below 256. */
  predicate CalibrationOk(c: Boundaries) {
    c[0] == 0 && c[0] <= c[1] <= c[2] <= c[3] < 256
  }

  /** get_step_start_transition_pos */
  function StepStart(calibration: Boundaries, step: nat): (pos: nat)
    ensures pos < TWO_32
  {
    U32(BitOr(U32(step * 64) / 256 * 256, calibration[step % 4]))
  }

  function CalcSpeed(deltaSubstep: int, deltaUs: int): int
    requires deltaUs != 0
  {
    S32(TruncDiv(deltaSubstep * 0x10_0000, deltaUs))
  }

  function Forward(r: Reading): bool {
    r.cycles < 0
  }

  /** read_pio_data: when the last transition took place. The product is one of ints, undefined in C where it
      overflows; here it wraps, as with the -fwrapv option. */
  function TransitionUs(r: Reading, clocksPerUs: nat): (us: nat)
    requires clocksPerUs > 0
    ensures us < TWO_32
  {
    var cycles := if r.cycles < 0 then S32(-r.cycles) else S32(0x8000_0000 - r.cycles);
    U32(r.stepUs - U32(cycles * 13) / clocksPerUs)
  }

  // ---------------------------------------------------------------------------------------
  // One update, stage by stage

  /** Counting samples without a transition, and stopping after enough of them. */
  function AfterIdle(e: Encoder, r: Reading): Encoder {
    var count := if r.step == e.rawStep then U32(e.idleStopSampleCount + 1) else 0;
    if !e.stopped && count >= e.idleStopSamples
    then e.(idleStopSampleCount := count, speed := 0, speed220 := 0, stopped := true)
    else e.(idleStopSampleCount := count)
  }

  function TransitionPos(e: Encoder, r: Reading): nat {
    if Forward(r) then StepStart(e.calibration, r.step) else StepStart(e.calibration, U32(r.step + 1))
  }

  /** Recording a transition, and the speed since the one before it. */
  function AfterTransition(e: Encoder, r: Reading): Encoder
    requires e.clocksPerUs > 0
    requires r.step != e.rawStep && !e.stopped ==> S32(TransitionUs(r, e.clocksPerUs) - e.prevTransUs) != 0
  {
    if r.step == e.rawStep then e else
      var us, pos := TransitionUs(r, e.clocksPerUs), TransitionPos(e, r);
      var speed := if e.stopped then e.speed220
                   else CalcSpeed(S32(pos - e.prevTransPos), S32(us - e.prevTransUs));
      e.(speed220 := speed, stopped := false, prevTransPos := pos, prevTransUs := us)
  }

  /** The substep distances, over one time span, that bound the speed from below and above. */
  datatype Slopes = Slopes(deltaLow: int, deltaHigh: int, deltaUs: int)

  /** The transition is closer to this sample than to the one before, which then gives the bounds. */
  predicate FromSampleBefore(e: Encoder, r: Reading) {
    e.prevTransUs > e.prevStepUs && S32(e.prevTransUs - e.prevStepUs) > S32(r.stepUs - e.prevTransUs)
  }

  function SpeedSlopes(e: Encoder, r: Reading): Slopes {
    if FromSampleBefore(e, r)
    then Slopes(S32(e.prevTransPos - e.prevHigh), S32(e.prevTransPos - e.prevLow), S32(e.prevTransUs - e.prevStepUs))
    else Slopes(S32(StepStart(e.calibration, r.step) - e.prevTransPos),
                S32(StepStart(e.calibration, U32(r.step + 1)) - e.prevTransPos),
                S32(r.stepUs - e.prevTransUs))
  }

  /** First capped by the upper value, then raised to the lower one. */
  function Clamp(v: int, low: int, high: int): int {
    var capped := if v > high then high else v;
    if capped < low then low else capped
  }

  /** The same for a position, by the sign of the 32-bit difference. */
  function ClampPosition(p: nat, low: nat, high: nat): nat {
    if S32(p - high) > 0 then high else if S32(p - low) < 0 then low else p
  }

  function AfterEstimate(e: Encoder, r: Reading): Encoder
    requires e.clocksPerUs > 0
    requires !e.stopped ==> SpeedSlopes(e, r).deltaUs != 0
  {
    if e.stopped then e else
      var s := SpeedSlopes(e, r);
      var speed220 := Clamp(e.speed220, CalcSpeed(s.deltaLow, s.deltaUs), CalcSpeed(s.deltaHigh, s.deltaUs));
      var estimate := U32(e.prevTransPos + speed220 * U32(r.stepUs - TransitionUs(r, e.clocksPerUs)) / 0x10_0000);
      e.(speed220 := speed220, speed := speed220 * 62500 / 65536,
         position := ClampPosition(estimate, StepStart(e.calibration, r.step),
                                   StepStart(e.calibration, U32(r.step + 1))))
  }

  /** Both time spans that the update divides by are positive. */
  predicate Timed(e: Encoder, r: Reading)
    requires e.clocksPerUs > 0
  {
    var idle := AfterIdle(e, r);
    && (r.step != e.rawStep && !idle.stopped ==> S32(TransitionUs(r, e.clocksPerUs) - e.prevTransUs) > 0)
    && (var moved := AfterTransition(idle, r); !moved.stopped ==> SpeedSlopes(moved, r).deltaUs > 0)
  }

  function Updated(e: Encoder, r: Reading): (n: Encoder)
    requires e.clocksPerUs > 0 && Timed(e, r)
    ensures n.calibration == e.calibration && n.clocksPerUs == e.clocksPerUs
  {
    AfterEstimate(AfterTransition(AfterIdle(e, r), r), r).(
      prevLow := StepStart(e.calibration, r.step), prevHigh := StepStart(e.calibration, U32(r.step + 1)),
      rawStep := r.step, prevStepUs := r.stepUs)
  }

  // ---------------------------------------------------------------------------------------
  // The code

  class Substep {
    var calibrationData: Boundaries
    var clocksPerUs: nat
    var idleStopSamples: nat
    var prevTransPos: nat
    var prevTransUs: nat
    var prevStepUs: nat
    var prevLow: nat
    var prevHigh: nat
    var idleStopSampleCount: nat
    var speed220: int
    var stopped: bool
    var speed: int
    var position: nat
    var rawStep: nat

    function View(): Encoder
      reads this
    {
      Encoder(calibrationData, clocksPerUs, idleStopSamples, prevTransPos, prevTransUs, prevStepUs, prevLow, prevHigh,
              idleStopSampleCount, speed220, stopped, speed, position, rawStep)
    }

    /** substep_init_state, given the first reading. */
    constructor (clocksPerUs: nat, r: Reading)
      requires clocksPerUs > 0 && r.Valid()
      ensures View() == Initial(clocksPerUs, r)
    {
      calibrationData := EQUAL_PHASES;
      this.clocksPerUs := clocksPerUs;
      idleStopSamples := 3;
      prevTransPos, prevLow, prevHigh, idleStopSampleCount, speed220, speed := 0, 0, 0, 0, 0, 0;
      stopped := true;
      rawStep, prevStepUs, prevTransUs := r.step, r.stepUs, TransitionUs(r, clocksPerUs);
      position := U32(StepStart(EQUAL_PHASES, r.step) + 32);
    }

    /** substep_set_calibration_data, from int to uint. */
    method SetCalibrationData(step0: int, step1: int, step2: int)
      modifies `calibrationData
      ensures View() == old(View()).(calibration := [0, U32(step0), U32(step1), U32(step2)])
    {
      calibrationData := [0, U32(step0), U32(step1), U32(step2)];
    }

    /** substep_update */
    method Update(r: Reading)
      requires clocksPerUs > 0 && r.Valid() && Timed(View(), r)
      modifies this
      ensures View() == Updated(old(View()), r)
    {
      hide StepStart, TransitionUs, AfterIdle, AfterTransition, AfterEstimate;
      var transitionUs := TransitionUs(r, clocksPerUs);
      var low := StepStart(calibrationData, r.step);
      var high := StepStart(calibrationData, U32(r.step + 1));
      StagesKeepSetup(View(), r);
      CountIdle(r);
      RecordTransition(r, transitionUs, low, high);
      Estimate(r, transitionUs, low, high);
      prevLow := low;
      prevHigh := high;
      rawStep := r.step;
      prevStepUs := r.stepUs;
    }

    method CountIdle(r: Reading)
      modifies `idleStopSampleCount, `speed, `speed220, `stopped
      ensures View() == AfterIdle(old(View()), r)
    {
      if r.step == rawStep {
        idleStopSampleCount := U32(idleStopSampleCount + 1);
      } else {
        idleStopSampleCount := 0;
      }
      if !stopped && idleStopSampleCount >= idleStopSamples {
        speed := 0;
        speed220 := 0;
        stopped := true;
      }
    }

    method RecordTransition(r: Reading, transitionUs: nat, low: nat, high: nat)
      requires clocksPerUs > 0
      requires r.step != rawStep && !stopped ==> S32(TransitionUs(r, clocksPerUs) - prevTransUs) != 0
      requires transitionUs == TransitionUs(r, clocksPerUs)
      requires low == StepStart(calibrationData, r.step) && high == StepStart(calibrationData, U32(r.step + 1))
      modifies `speed220, `stopped, `prevTransPos, `prevTransUs
      ensures View() == AfterTransition(old(View()), r)
    {
      hide StepStart, TransitionUs, CalcSpeed, S32, U32;
      if rawStep != r.step {
        var transitionPos := if Forward(r) then low else high;
        if !stopped {
          speed220 := CalcSpeed(S32(transitionPos - prevTransPos), S32(transitionUs - prevTransUs));
        }
        stopped := false;
        prevTransPos := transitionPos;
        prevTransUs := transitionUs;
      }
    }

    method Estimate(r: Reading, transitionUs: nat, low: nat, high: nat)
      requires clocksPerUs > 0
      requires !stopped ==> SpeedSlopes(View(), r).deltaUs != 0
      requires transitionUs == TransitionUs(r, clocksPerUs)
      requires low == StepStart(calibrationData, r.step) && high == StepStart(calibrationData, U32(r.step + 1))
      modifies `speed220, `speed, `position
      ensures View() == AfterEstimate(old(View()), r)
    {
      hide StepStart, TransitionUs, CalcSpeed, S32, U32;
      if !stopped {
        var speedHigh, speedLow;
        if prevTransUs > prevStepUs && S32(prevTransUs - prevStepUs) > S32(r.stepUs - prevTransUs) {
          speedHigh := CalcSpeed(S32(prevTransPos - prevLow), S32(prevTransUs - prevStepUs));
          speedLow := CalcSpeed(S32(prevTransPos - prevHigh), S32(prevTransUs - prevStepUs));
        } else {
          speedHigh := CalcSpeed(S32(high - prevTransPos), S32(r.stepUs - prevTransUs));
          speedLow := CalcSpeed(S32(low - prevTransPos), S32(r.stepUs - prevTransUs));
        }
        if speed220 > speedHigh {
          speed220 := speedHigh;
        }
        if speed220 < speedLow {
          speed220 := speedLow;
        }
        speed := speed220 * 62500 / 65536;
        position := U32(prevTransPos + speed220 * U32(r.stepUs - transitionUs) / 0x10_0000);
        if S32(position - high) > 0 {
          position := high;
        } else if S32(position - low) < 0 {
          position := low;
        }
      }
    }
  }

  lemma StagesKeepSetup(e: Encoder, r: Reading)
    requires e.clocksPerUs > 0 && Timed(e, r)
    ensures var idle := AfterIdle(e, r);
            && idle.calibration == e.calibration && idle.clocksPerUs == e.clocksPerUs && idle.rawStep == e.rawStep
            && idle.prevTransUs == e.prevTransUs
            && var moved := AfterTransition(idle, r);
            && moved.calibration == e.calibration && moved.clocksPerUs == e.clocksPerUs
            && (!moved.stopped ==> SpeedSlopes(moved, r).deltaUs != 0)
  {
    hide StepStart, TransitionUs, CalcSpeed, SpeedSlopes;
  }

  function Initial(clocksPerUs: nat, r: Reading): Encoder
    requires clocksPerUs > 0
  {
    Encoder(EQUAL_PHASES, clocksPerUs, 3, 0, TransitionUs(r, clocksPerUs), r.stepUs, 0, 0, 0, 0, true, 0,
            U32(StepStart(EQUAL_PHASES, r.step) + 32), r.step)
  }

  // ---------------------------------------------------------------------------------------
  // Position

  /** p lies between low and high, counting upwards from low modulo 2^32. */
  predicate Between(p: nat, low: nat, high: nat) {
    U32(p - low) <= U32(high - low)
  }

  /** The width of a step in substeps. */
  function StepWidth(c: Boundaries, step: nat): nat
    requires CalibrationOk(c)
  {
    if step % 4 == 3 then 256 - c[3] else c[step % 4 + 1] - c[step % 4]
  }

  /** Each step ends where the next one starts, also where the count or the position wraps around. */
  lemma StepBoundaries(c: Boundaries, step: nat)
    requires CalibrationOk(c) && step < TWO_32
    ensures U32(StepStart(c, U32(step + 1)) - StepStart(c, step)) == StepWidth(c, step) <= 256
  {
    hide StepStart, U32;
    NextStep(step);
    StepStartForm(c, step);
    StepStartForm(c, U32(step + 1));
    if step % 4 != 3 {
      Unwrapped(c[step % 4 + 1] - c[step % 4]);
    } else if step + 1 < TWO_32 {
      NextBase(step / 4, c[3]);
    } else {
      LastBase(c[3]);
    }
  }

  lemma NextStep(step: nat)
    requires step < TWO_32
    ensures var next := U32(step + 1);
            if step % 4 != 3 then next / 4 == step / 4 && next % 4 == step % 4 + 1
            else if step + 1 < TWO_32 then next / 4 == step / 4 + 1 && next % 4 == 0
            else next == 0 && step / 4 == 0x3FFF_FFFF
  {
  }

  lemma Unwrapped(x: nat)
    requires x < TWO_32
    ensures U32(x) == x
  {
  }

  lemma LastBase(last: nat)
    requires last <= 256
    ensures U32(U32(0 * 256) + 0 - (U32(0x3FFF_FFFF * 256) + last)) == 256 - last
  {
  }

  /** The masked shift leaves the low byte free for the calibration value. */
  lemma StepStartForm(c: Boundaries, step: nat)
    requires c[step % 4] < 256
    ensures StepStart(c, step) == U32(step / 4 * 256) + c[step % 4]
  {
    hide BitOr;
    StepBase(step);
    var h := step / 4 % 0x100_0000;
    assert U32(step / 4 * 256) == 256 * h;
    BitOrByte(h, 0, c[step % 4]);
    BitOrZero(h);
  }

  lemma StepBase(step: nat)
    ensures U32(step * 64) / 256 * 256 == U32(step / 4 * 256)
  {
    var q, k := step / 4, step % 4;
    assert step * 64 == q * 256 + k * 64;
    var high, low := q / 0x100_0000, q % 0x100_0000;
    assert q * 256 == high * TWO_32 + low * 256;
    assert U32(step * 64) == low * 256 + k * 64;
    assert U32(q * 256) == low * 256;
  }

  lemma NextBase(q: nat, last: nat)
    requires last <= 256
    ensures U32(U32((q + 1) * 256) - (U32(q * 256) + last)) == 256 - last
  {
  }

  lemma ClampedBetween(p: nat, low: nat, high: nat)
    requires p < TWO_32 && low < TWO_32 && high < TWO_32 && U32(high - low) <= 256
    ensures Between(ClampPosition(p, low, high), low, high)
  {
  }

  /** Whenever the encoder is not stopped, the estimated position is inside the step just read. */
  lemma PositionInsideStep(e: Encoder, r: Reading)
    requires CalibrationOk(e.calibration) && e.clocksPerUs > 0 && r.Valid() && Timed(e, r)
    ensures var n := Updated(e, r);
            if n.stopped then n.position == e.position
            else Between(n.position, StepStart(e.calibration, r.step), StepStart(e.calibration, U32(r.step + 1)))
  {
    hide StepStart, TransitionUs, CalcSpeed, SpeedSlopes, ClampPosition, Clamp, Between;
    StepBoundaries(e.calibration, r.step);
    var moved := AfterTransition(AfterIdle(e, r), r);
    if !moved.stopped {
      var s := SpeedSlopes(moved, r);
      var speed220 := Clamp(moved.speed220, CalcSpeed(s.deltaLow, s.deltaUs), CalcSpeed(s.deltaHigh, s.deltaUs));
      var estimate := U32(moved.prevTransPos + speed220 * U32(r.stepUs - TransitionUs(r, e.clocksPerUs)) / 0x10_0000);
      ClampedBetween(estimate, StepStart(e.calibration, r.step), StepStart(e.calibration, U32(r.step + 1)));
    }
  }

  // ---------------------------------------------------------------------------------------
  // Speed

  /** How often a quotient wraps around when it is converted to int. */
  function Wraps(q: int): int {
    (q + 0x8000_0000) / TWO_32
  }

  function Quotient(deltaSubstep: int, deltaUs: int): int
    requires deltaUs > 0
  {
    TruncDiv(deltaSubstep * 0x10_0000, deltaUs)
  }

  lemma S32Wraps(q: int)
    ensures S32(q) == q - TWO_32 * Wraps(q)
  {
  }

  lemma QuotientMonotone(a: int, b: int, d: int)
    requires d > 0 && a <= b <= a + 0x1000_0000
    ensures TruncDiv(a, d) <= TruncDiv(b, d) <= TruncDiv(a, d) + 0x1000_0001
  {
    hide TruncDiv;
    TruncBounds(a, d);
    TruncBounds(b, d);
    var p, q := TruncDiv(a, d), TruncDiv(b, d);
    ProductGrows(d, q, p);
    ProductGap(d, p, q, 0x1000_0002);
  }

  /** Truncation: the quotient keeps the sign, and the remainder has the dividend's sign. */
  lemma TruncBounds(a: int, d: int)
    requires d > 0
    ensures var q := TruncDiv(a, d);
            if a >= 0 then q >= 0 && d * q <= a < d * q + d else q <= 0 && d * q - d < a <= d * q
  {
    var n := Abs(a);
    assert n == d * (n / d) + n % d;
    assert d * -(n / d) == -(d * (n / d));
  }

  /** Whatever the distances, the clamp leaves the speed between its bounds exactly when the wraps make up for
      any amount by which the lower quotient exceeds the upper one. */
  lemma ClampBetweenExactly(v: int, s: Slopes)
    requires s.deltaUs > 0
    ensures var low, high := CalcSpeed(s.deltaLow, s.deltaUs), CalcSpeed(s.deltaHigh, s.deltaUs);
            var p, q := Quotient(s.deltaLow, s.deltaUs), Quotient(s.deltaHigh, s.deltaUs);
            low <= Clamp(v, low, high) <= high <==> p - q <= TWO_32 * (Wraps(p) - Wraps(q))
  {
    hide TruncDiv, S32, Wraps;
    S32Wraps(Quotient(s.deltaLow, s.deltaUs));
    S32Wraps(Quotient(s.deltaHigh, s.deltaUs));
  }

  /** For ordered distances that is when both quotients wrap equally often; in particular whenever both fit in
      an int. */
  lemma SpeedBetweenExactly(v: int, s: Slopes)
    requires s.deltaUs > 0 && s.deltaLow <= s.deltaHigh <= s.deltaLow + 256
    ensures var low, high := CalcSpeed(s.deltaLow, s.deltaUs), CalcSpeed(s.deltaHigh, s.deltaUs);
            low <= Clamp(v, low, high) <= high
            <==> Wraps(Quotient(s.deltaLow, s.deltaUs)) == Wraps(Quotient(s.deltaHigh, s.deltaUs))
  {
    hide TruncDiv, S32, Wraps;
    var p, q := Quotient(s.deltaLow, s.deltaUs), Quotient(s.deltaHigh, s.deltaUs);
    QuotientMonotone(s.deltaLow * 0x10_0000, s.deltaHigh * 0x10_0000, s.deltaUs);
    S32Wraps(p);
    S32Wraps(q);
    WrapsMonotone(p, q);
  }

  lemma WrapsMonotone(p: int, q: int)
    requires p <= q <= p + 0x1000_0001
    ensures Wraps(p) <= Wraps(q) <= Wraps(p) + 1
  {
  }

  /** The width of the step that the slopes span. */
  function SlopeWidth(e: Encoder, r: Reading): nat {
    if FromSampleBefore(e, r) then U32(e.prevHigh - e.prevLow)
    else U32(StepStart(e.calibration, U32(r.step + 1)) - StepStart(e.calibration, r.step))
  }

  lemma DifferenceShift(from: int, to: int, width: nat)
    requires U32(to - from) == width <= 256
    ensures S32(to) == if S32(from) + width < 0x8000_0000 then S32(from) + width else S32(from) + width - TWO_32
  {
  }

  /** The slopes of an update are ordered exactly when the upper distance does not overflow an int. */
  lemma SlopesOrderedExactly(e: Encoder, r: Reading)
    requires CalibrationOk(e.calibration) && r.Valid() && U32(e.prevHigh - e.prevLow) <= 256
    ensures var s, w := SpeedSlopes(e, r), SlopeWidth(e, r);
            && (s.deltaLow <= s.deltaHigh <==> s.deltaLow + w < 0x8000_0000)
            && s.deltaHigh == (if s.deltaLow <= s.deltaHigh then s.deltaLow + w else s.deltaLow + w - TWO_32)
            && w <= 256 && s.deltaHigh >= -0x8000_0000
  {
    hide StepStart, S32, U32, StepWidth;
    StepBoundaries(e.calibration, r.step);
    var low, high := StepStart(e.calibration, r.step), StepStart(e.calibration, U32(r.step + 1));
    DifferenceForms(e.prevTransPos, low, high);
    DifferenceForms(e.prevTransPos, e.prevLow, e.prevHigh);
    DifferenceShift(low - e.prevTransPos, high - e.prevTransPos, StepWidth(e.calibration, r.step));
    DifferenceShift(e.prevTransPos - e.prevHigh, e.prevTransPos - e.prevLow, U32(e.prevHigh - e.prevLow));
  }

  lemma DifferenceForms(p: int, low: int, high: int)
    ensures U32((high - p) - (low - p)) == U32((p - low) - (p - high)) == U32(high - low)
  {
    assert (high - p) - (low - p) == high - low == (p - low) - (p - high);
  }

  /** At least -2048 and below 2048 substeps per microsecond. */
  predicate Slow(delta: int, us: int) {
    -2048 * us <= delta < 2048 * us
  }

  /** At that speed nothing wraps. */
  lemma SlowEnough(delta: int, us: int)
    requires us > 0 && Slow(delta, us)
    ensures Wraps(Quotient(delta, us)) == 0
  {
    hide TruncDiv;
    TruncBounds(delta * 0x10_0000, us);
    var q := TruncDiv(delta * 0x10_0000, us);
    ProductGrows(us, -0x8000_0000, q);
    ProductGrows(us, q, -0x8000_0000);
    ProductGrows(us, q, 0x8000_0000);
    ProductGrows(us, 0x7FFF_FFFF, q);
    assert us * 0x8000_0000 == 2048 * us * 0x10_0000;
  }

  /** If the upper distance overflows, the quotients have opposite signs. */
  lemma OverflowReverses(low: int, high: int, us: int)
    requires 0 < us < 0x8000_0000 <= low + 256 && high < 0
    ensures Quotient(high, us) <= 0 < Quotient(low, us)
  {
    hide TruncDiv;
    TruncBounds(low * 0x10_0000, us);
    TruncBounds(high * 0x10_0000, us);
    ProductGrows(us, Quotient(low, us), 1);
  }

  /** The last transition took place at one end of the step. */
  predicate AtBoundary(e: Encoder, step: nat) {
    e.prevTransPos == StepStart(e.calibration, step) || e.prevTransPos == StepStart(e.calibration, U32(step + 1))
  }

  lemma SmallDifference(low: nat, high: nat)
    requires U32(high - low) <= 256
    ensures S32(low - low) == 0 && S32(high - low) == U32(high - low) && S32(low - high) == 0 - U32(high - low)
  {
  }

  /** From the last transition to now the encoder has moved at most one step, so nothing can wrap. */
  lemma SlopesFromTransition(e: Encoder, r: Reading)
    requires CalibrationOk(e.calibration) && r.Valid() && AtBoundary(e, r.step)
    requires !FromSampleBefore(e, r) && SpeedSlopes(e, r).deltaUs > 0
    ensures var s := SpeedSlopes(e, r);
            && -256 <= s.deltaLow <= 0 <= s.deltaHigh <= 256 && s.deltaHigh == s.deltaLow + SlopeWidth(e, r)
            && Wraps(Quotient(s.deltaLow, s.deltaUs)) == Wraps(Quotient(s.deltaHigh, s.deltaUs)) == 0
  {
    hide StepStart, S32, U32, StepWidth, Wraps, Quotient;
    StepBoundaries(e.calibration, r.step);
    SmallDifference(StepStart(e.calibration, r.step), StepStart(e.calibration, U32(r.step + 1)));
    var s := SpeedSlopes(e, r);
    SlowEnough(s.deltaLow, s.deltaUs);
    SlowEnough(s.deltaHigh, s.deltaUs);
  }

  /** speed is speed_2_20 converted from 2^20 microseconds to a second, rounded down, whatever its sign. */
  lemma SpeedPerSecond(e: Encoder, r: Reading)
    requires e.clocksPerUs > 0 && r.Valid() && Timed(e, r)
    ensures var n := Updated(e, r);
            !n.stopped ==> n.speed * 0x10_0000 <= n.speed220 * 1_000_000 < (n.speed + 1) * 0x10_0000
  {
    hide StepStart, TransitionUs, CalcSpeed, SpeedSlopes, ClampPosition, Clamp;
  }

  // ---------------------------------------------------------------------------------------
  // Transitions

  /** The PIO program's counter: set to 0 or 2^31 by a transition, and decremented once in every loop of 13
      clocks, the loop of the transition included (quadrature_encoder_substep.pio:48-74); so it is never read
      before it has been decremented. */
  function Counter(forward: bool, loops: nat): int {
    S32(if forward then 0 - loops else 0x8000_0000 - loops)
  }

  /** The direction is recovered for 2^31 loops, and the time as long as the product of loops and clocks wraps
      a multiple of clocksPerUs times. */
  lemma TransitionDecoded(r: Reading, clocksPerUs: nat, forward: bool, loops: nat)
    requires 0 < clocksPerUs < TWO_32 && 0 < loops <= TWO_32 && r.cycles == Counter(forward, loops)
    ensures Forward(r) == forward <==> loops <= 0x8000_0000
    ensures loops <= 0x8000_0000 ==>
      (TransitionUs(r, clocksPerUs) == U32(r.stepUs - 13 * loops / clocksPerUs)
       <==> 13 * loops / TWO_32 % clocksPerUs == 0)
  {
    hide S32, U32;
    CounterValue(forward, loops);
    if loops <= 0x8000_0000 {
      CyclesValue(loops);
      WrappedQuotient(13 * loops, clocksPerUs);
      DifferenceModulo(r.stepUs, U32(13 * loops) / clocksPerUs, 13 * loops / clocksPerUs);
    }
  }

  /** On a clock of at least 7 MHz that is exactly as long as the product does not wrap. */
  lemma TransitionTimeExactly(r: Reading, clocksPerUs: nat, forward: bool, loops: nat)
    requires 7 <= clocksPerUs < TWO_32 && 0 < loops <= 0x8000_0000 && r.cycles == Counter(forward, loops)
    ensures TransitionUs(r, clocksPerUs) == U32(r.stepUs - 13 * loops / clocksPerUs) <==> 13 * loops < TWO_32
  {
    hide TransitionUs, U32, S32;
    TransitionDecoded(r, clocksPerUs, forward, loops);
    var k := 13 * loops / TWO_32;
    assert k <= 6 && (k == 0 <==> 13 * loops < TWO_32);
    SmallRemainder(k, clocksPerUs);
  }

  lemma SmallRemainder(k: nat, c: nat)
    requires k < c
    ensures k % c == k
  {
  }

  /** After 34.36 seconds at 125 MHz the product has wrapped to 4, and the transition seems to be now. */
  lemma TransitionTimeLost()
    ensures TransitionUs(Reading(0, Counter(true, 330382100), 0), 125) == 0 != U32(0 - 13 * 330382100 / 125)
  {
  }

  lemma CounterValue(forward: bool, loops: nat)
    requires 0 < loops <= TWO_32
    ensures var cycles := Counter(forward, loops);
            && ((cycles < 0) == forward <==> loops <= 0x8000_0000)
            && (loops <= 0x8000_0000 ==> cycles == if forward then 0 - loops else 0x8000_0000 - loops)
  {
  }

  lemma CyclesValue(loops: nat)
    requires loops <= 0x8000_0000
    ensures U32(S32(loops) * 13) == U32(13 * loops)
  {
  }

  lemma DifferenceModulo(a: int, x: int, y: int)
    ensures U32(a - x) == U32(a - y) <==> (y - x) % TWO_32 == 0
  {
  }

  /** Dropping k times 2^32 from a dividend changes the quotient by a multiple of 2^32 exactly when c divides k. */
  lemma WrappedQuotient(n: nat, c: nat)
    requires 0 < c < TWO_32
    ensures (n / c - U32(n) / c) % TWO_32 == 0 <==> n / TWO_32 % c == 0
  {
    hide U32;
    var k, u := n / TWO_32, U32(n);
    var m, j := k / c, k % c;
    assert n == k * TWO_32 + u by {
      WholeAndRest(n);
    }
    assert k == c * m + j;
    var rest := j * TWO_32 + u;
    Regroup(c, m, j);
    QuotientShift(rest, m * TWO_32, c);
    RestQuotient(j, u, c);
    SameResidue(rest / c - u / c, m);
  }

  lemma Regroup(c: nat, m: nat, j: nat)
    ensures (c * m + j) * TWO_32 == c * (m * TWO_32) + j * TWO_32
  {
  }

  lemma WholeAndRest(n: nat)
    ensures n == n / TWO_32 * TWO_32 + U32(n) && U32(n) < TWO_32
  {
  }

  lemma QuotientShift(x: nat, m: nat, c: nat)
    requires c > 0
    ensures (c * m + x) / c == m + x / c
  {
    var n := c * m + x;
    assert n == c * (n / c) + n % c && x == c * (x / c) + x % c;
    assert c * (m + x / c) == c * m + c * (x / c);
    ProductGrows(c, n / c, m + x / c);
    ProductGrows(c, m + x / c, n / c);
  }

  lemma SameResidue(e: int, m: nat)
    requires 0 <= e < TWO_32
    ensures (m * TWO_32 + e) % TWO_32 == 0 <==> e == 0
  {
  }

  lemma RestQuotient(j: nat, u: nat, c: nat)
    requires j < c < TWO_32 && u < TWO_32
    ensures 0 <= (j * TWO_32 + u) / c - u / c < TWO_32
    ensures (j * TWO_32 + u) / c == u / c <==> j == 0
  {
    var x := j * TWO_32 + u;
    var p, q := x / c, u / c;
    Division(x, c);
    Division(u, c);
    assert c * (p - q) == c * p - c * q;
    LessFromProduct(c, p - q, TWO_32);
    LessFromProduct(c, -1, p - q);
    if j > 0 {
      LessFromProduct(c, 0, p - q);
    }
  }

  lemma Division(x: nat, c: nat)
    requires c > 0
    ensures c * (x / c) <= x < c * (x / c) + c
  {
  }

  lemma LessFromProduct(c: nat, d: int, t: int)
    requires c * d < c * t
    ensures d < t
  {
    ProductGrows(c, t, d);
  }

  /** After a single step in either direction the recorded position is the boundary between the two steps. */
  lemma TransitionAtBoundary(e: Encoder, r: Reading)
    requires CalibrationOk(e.calibration) && e.rawStep < TWO_32 && r.Valid()
    requires r.step == U32(if Forward(r) then e.rawStep + 1 else e.rawStep - 1)
    ensures TransitionPos(e, r) == StepStart(e.calibration, if Forward(r) then r.step else e.rawStep)
    ensures !Forward(r) ==>
      U32(TransitionPos(e, r) - StepStart(e.calibration, r.step)) == StepWidth(e.calibration, r.step)
    ensures Forward(r) ==>
      U32(TransitionPos(e, r) - StepStart(e.calibration, e.rawStep)) == StepWidth(e.calibration, e.rawStep)
  {
    hide StepStart, StepWidth;
    StepBoundaries(e.calibration, r.step);
    StepBoundaries(e.calibration, e.rawStep);
  }

  // ---------------------------------------------------------------------------------------
  // Every run

  predicate RunOk(e: Encoder, readings: seq<Reading>)
    requires e.clocksPerUs > 0
    decreases |readings|
  {
    readings == [] || (readings[0].Valid() && Timed(e, readings[0]) && RunOk(Updated(e, readings[0]), readings[1..]))
  }

  function RunUpdates(e: Encoder, readings: seq<Reading>): (n: Encoder)
    requires e.clocksPerUs > 0 && RunOk(e, readings)
    ensures n.calibration == e.calibration && n.clocksPerUs == e.clocksPerUs
    decreases |readings|
  {
    if readings == [] then e else RunUpdates(Updated(e, readings[0]), readings[1..])
  }

  /** Stopped means speed zero; and with a usable calibration, the saved bounds are those of one step, and a
      moving encoder's last transition took place at one end of the step it is in. */
  predicate Consistent(e: Encoder) {
    && e.rawStep < TWO_32
    && (e.stopped ==> e.speed == 0 && e.speed220 == 0)
    && (CalibrationOk(e.calibration) ==>
          U32(e.prevHigh - e.prevLow) <= 256 && (!e.stopped ==> AtBoundary(e, e.rawStep)))
  }

  lemma TransitionConsistent(e: Encoder, r: Reading)
    requires e.clocksPerUs > 0 && r.Valid() && Timed(e, r) && Consistent(e)
    ensures var moved := AfterTransition(AfterIdle(e, r), r);
            && moved.calibration == e.calibration && moved.clocksPerUs == e.clocksPerUs
            && moved.prevLow == e.prevLow && moved.prevHigh == e.prevHigh
            && (moved.stopped ==> moved.speed == 0 && moved.speed220 == 0)
            && (CalibrationOk(e.calibration) && !moved.stopped ==> AtBoundary(moved, r.step))
  {
    hide StepStart, TransitionUs, CalcSpeed, SpeedSlopes, CalibrationOk;
  }

  lemma UpdateKeepsConsistent(e: Encoder, r: Reading)
    requires e.clocksPerUs > 0 && r.Valid() && Timed(e, r) && Consistent(e)
    ensures Consistent(Updated(e, r))
  {
    hide StepStart, TransitionUs, CalcSpeed, SpeedSlopes, ClampPosition, Clamp,
      CalibrationOk, AfterIdle, AfterTransition;
    TransitionConsistent(e, r);
    if CalibrationOk(e.calibration) {
      StepBoundaries(e.calibration, r.step);
    }
  }

  lemma {:induction false} RunKeepsConsistent(e: Encoder, readings: seq<Reading>)
    requires e.clocksPerUs > 0 && RunOk(e, readings) && Consistent(e)
    ensures Consistent(RunUpdates(e, readings))
    decreases |readings|
  {
    hide Updated, Timed, Consistent;
    if readings != [] {
      UpdateKeepsConsistent(e, readings[0]);
      RunKeepsConsistent(Updated(e, readings[0]), readings[1..]);
    }
  }

  /** The encoder after initialisation, the setting of its calibration, and any number of updates. */
  function Reached(clocksPerUs: nat, first: Reading, calibration: Boundaries, readings: seq<Reading>): Encoder
    requires clocksPerUs > 0 && RunOk(Initial(clocksPerUs, first).(calibration := calibration), readings)
  {
    RunUpdates(Initial(clocksPerUs, first).(calibration := calibration), readings)
  }

  /** What the main program does: initialise, set the calibration, and update with every reading. */
  method Track(clocksPerUs: nat, first: Reading, step0: int, step1: int, step2: int, readings: seq<Reading>)
    returns (s: Substep)
    requires clocksPerUs > 0 && first.Valid()
    requires var calibration: Boundaries := [0, U32(step0), U32(step1), U32(step2)];
             RunOk(Initial(clocksPerUs, first).(calibration := calibration), readings)
    ensures fresh(s)
    ensures s.View() == Reached(clocksPerUs, first, [0, U32(step0), U32(step1), U32(step2)], readings)
  {
    hide Updated, Timed, U32, TransitionUs, StepStart;
    s := new Substep(clocksPerUs, first);
    s.SetCalibrationData(step0, step1, step2);
    ghost var start := s.View();
    assert start == Initial(clocksPerUs, first).(calibration := [0, U32(step0), U32(step1), U32(step2)]);
    var i := 0;
    assert readings[0..] == readings;
    while i < |readings|
      invariant 0 <= i <= |readings|
      invariant s.clocksPerUs > 0 && RunOk(s.View(), readings[i..])
      invariant RunUpdates(s.View(), readings[i..]) == RunUpdates(start, readings)
    {
      assert readings[i..][0] == readings[i] && readings[i..][1..] == readings[i + 1..];
      s.Update(readings[i]);
      i := i + 1;
    }
  }

  lemma StoppedMeansZeroSpeed(clocksPerUs: nat, first: Reading, calibration: Boundaries, readings: seq<Reading>)
    requires clocksPerUs > 0 && first.Valid()
    requires RunOk(Initial(clocksPerUs, first).(calibration := calibration), readings)
    ensures var e := Reached(clocksPerUs, first, calibration, readings);
            e.stopped ==> e.speed == 0 && e.speed220 == 0
  {
    hide RunUpdates, RunOk, TransitionUs, StepStart;
    RunKeepsConsistent(Initial(clocksPerUs, first).(calibration := calibration), readings);
  }

  /** How the slopes bound the speed of a moving encoder. Those since the last transition always do. Those from
      the sample before do exactly when the wraps make up for any excess of the lower quotient. The distances are
      in order exactly when the upper one fits in an int; and then the slopes do exactly when both quotients wrap
      equally often. Slopes that stay below 2048 substeps per microsecond do exactly when the upper distance
      fits. */
  predicate BoundedBySlopes(moved: Encoder, r: Reading, speed220: int)
    requires SpeedSlopes(moved, r).deltaUs > 0
  {
    var s := SpeedSlopes(moved, r);
    var between := CalcSpeed(s.deltaLow, s.deltaUs) <= speed220 <= CalcSpeed(s.deltaHigh, s.deltaUs);
    var p, q := Quotient(s.deltaLow, s.deltaUs), Quotient(s.deltaHigh, s.deltaUs);
    var fits := s.deltaLow + SlopeWidth(moved, r) < 0x8000_0000;
    && (!FromSampleBefore(moved, r) ==> between)
    && (between <==> p - q <= TWO_32 * (Wraps(p) - Wraps(q)))
    && (s.deltaLow <= s.deltaHigh <==> fits)
    && (fits ==> (between <==> Wraps(p) == Wraps(q)))
    && (Slow(s.deltaLow, s.deltaUs) && Slow(s.deltaHigh, s.deltaUs) ==> (between <==> fits))
  }

  /** After the update the encoder is stopped, or its speed is bounded by the slopes in that sense. */
  predicate SpeedBounded(e: Encoder, r: Reading)
    requires e.clocksPerUs > 0 && Timed(e, r)
  {
    var moved := AfterTransition(AfterIdle(e, r), r);
    moved.stopped || BoundedBySlopes(moved, r, Updated(e, r).speed220)
  }

  /** In every reachable state every update bounds the speed. */
  lemma SpeedBetweenReached(clocksPerUs: nat, first: Reading, calibration: Boundaries,
                            readings: seq<Reading>, r: Reading)
    requires clocksPerUs > 0 && first.Valid() && CalibrationOk(calibration)
    requires RunOk(Initial(clocksPerUs, first).(calibration := calibration), readings)
    requires r.Valid() && Timed(Reached(clocksPerUs, first, calibration, readings), r)
    ensures SpeedBounded(Reached(clocksPerUs, first, calibration, readings), r)
  {
    hide RunUpdates, RunOk, Consistent, Timed, SpeedBounded, CalibrationOk, TransitionUs, StepStart;
    StartConsistent(clocksPerUs, first, calibration);
    RunKeepsConsistent(Initial(clocksPerUs, first).(calibration := calibration), readings);
    SpeedBetween(Reached(clocksPerUs, first, calibration, readings), r);
  }

  lemma StartConsistent(clocksPerUs: nat, first: Reading, calibration: Boundaries)
    requires clocksPerUs > 0 && first.Valid()
    ensures Consistent(Initial(clocksPerUs, first).(calibration := calibration))
  {
    hide TransitionUs, StepStart;
  }

  lemma SpeedBetween(e: Encoder, r: Reading)
    requires e.clocksPerUs > 0 && r.Valid() && Timed(e, r) && Consistent(e) && CalibrationOk(e.calibration)
    ensures SpeedBounded(e, r)
  {
    hide StepStart, TransitionUs, CalcSpeed, SpeedSlopes, ClampPosition, Clamp, AfterTransition, BoundedBySlopes;
    var moved := AfterTransition(AfterIdle(e, r), r);
    TransitionConsistent(e, r);
    if !moved.stopped {
      ClampedBounded(moved, r);
    }
  }

  lemma ClampedBounded(moved: Encoder, r: Reading)
    requires CalibrationOk(moved.calibration) && r.Valid() && AtBoundary(moved, r.step)
    requires U32(moved.prevHigh - moved.prevLow) <= 256 && SpeedSlopes(moved, r).deltaUs > 0
    ensures var s := SpeedSlopes(moved, r);
            var low, high := CalcSpeed(s.deltaLow, s.deltaUs), CalcSpeed(s.deltaHigh, s.deltaUs);
            BoundedBySlopes(moved, r, Clamp(moved.speed220, low, high))
  {
    hide StepStart, CalcSpeed, SpeedSlopes, SlopeWidth, Clamp, Quotient, Wraps, FromSampleBefore, AtBoundary, Slow;
    var s := SpeedSlopes(moved, r);
    SlopesOrderedExactly(moved, r);
    ClampBetweenExactly(moved.speed220, s);
    SpanBelow(moved, r);
    if !FromSampleBefore(moved, r) {
      SlopesFromTransition(moved, r);
    }
    if s.deltaLow <= s.deltaHigh {
      SpeedBetweenExactly(moved.speed220, s);
    } else {
      OverflowReverses(s.deltaLow, s.deltaHigh, s.deltaUs);
    }
    if Slow(s.deltaLow, s.deltaUs) && Slow(s.deltaHigh, s.deltaUs) {
      SlowEnough(s.deltaLow, s.deltaUs);
      SlowEnough(s.deltaHigh, s.deltaUs);
    }
  }

  lemma SpanBelow(e: Encoder, r: Reading)
    ensures SpeedSlopes(e, r).deltaUs < 0x8000_0000 && SpeedSlopes(e, r).deltaLow < 0x8000_0000
  {
    hide StepStart;
  }

  /** Two runs in which the clamp fails: after a reading at rest, 32 steps within one microsecond, or 2^25 steps
      within four seconds. */
  const START := Initial(125, Reading(0, -1, 1000))
  const STILL := Reading(0, -1000, 2000)
  const FAST := Reading(32, -1, 2001)
  const FAR := Reading(0x200_0000, -1, 4002000)

  /** At 2048 substeps per microsecond the upper quotient wraps to the smallest int, and the clamp leaves the
      speed above it. */
  lemma ClampFailsAtSpeed()
    ensures RunOk(START, [STILL, FAST])
    ensures var n, moved := RunUpdates(START, [STILL, FAST]), Moved(FAST);
            && SpeedSlopes(moved, FAST) == Slopes(1984, 2048, 1)
            && !n.stopped && n.speed220 == CalcSpeed(1984, 1) > CalcSpeed(2048, 1)
  {
    hide StepStart, RunOk, RunUpdates, SpeedSlopes, CalcSpeed, Initial;
    StepStartForm(EQUAL_PHASES, 32);
    MoveFromRest(FAST, 2048);
    SpeedValues();
  }

  /** At 537 substeps per microsecond nothing wraps, but the upper distance overflows. */
  lemma ClampFailsAtDistance()
    ensures RunOk(START, [STILL, FAR])
    ensures var n, moved := RunUpdates(START, [STILL, FAR]), Moved(FAR);
            && SpeedSlopes(moved, FAR) == Slopes(0x8000_0000 - 64, -0x8000_0000, 4000000)
            && Slow(0x8000_0000 - 64, 4000000) && Slow(-0x8000_0000, 4000000)
            && !n.stopped && n.speed220 == CalcSpeed(0x8000_0000 - 64, 4000000) > CalcSpeed(-0x8000_0000, 4000000)
  {
    hide StepStart, RunOk, RunUpdates, SpeedSlopes, CalcSpeed, Initial;
    StepStartForm(EQUAL_PHASES, 0x200_0000);
    MoveFromRest(FAR, 0x8000_0000);
    SpeedValues();
  }

  lemma SpeedValues()
    ensures CalcSpeed(1984, 1) == 2080374784 && CalcSpeed(2048, 1) == -2147483648
    ensures CalcSpeed(0x8000_0000 - 64, 4000000) == 562949936 && CalcSpeed(-0x8000_0000, 4000000) == -562949953
  {
  }

  /** The encoder at rest after the first reading. */
  const AT_REST := Encoder(EQUAL_PHASES, 125, 3, 0, 1000, 2000, 0, 64, 1, 0, true, 0, 32, 0)

  /** It starts to move. */
  function Moved(r: Reading): Encoder {
    AT_REST.(idleStopSampleCount := 0, stopped := false, prevTransPos := StepStart(EQUAL_PHASES, r.step),
             prevTransUs := r.stepUs)
  }

  lemma Rests()
    ensures START.clocksPerUs == 125 && STILL.Valid()
    ensures Timed(START, STILL) && Updated(START, STILL) == AT_REST
  {
    hide StepStart;
    StepStartForm(EQUAL_PHASES, 0);
    StepStartForm(EQUAL_PHASES, 1);
  }

  lemma MoveFromRest(r: Reading, pos: nat)
    requires r.cycles == -1 && r.step > 0 && r.Valid() && 2000 < r.stepUs < 0x8000_0000
    requires StepStart(EQUAL_PHASES, r.step) == pos
    ensures RunOk(START, [STILL, r])
    ensures var n, s := RunUpdates(START, [STILL, r]), Slopes(S32(pos - 64), S32(pos), r.stepUs - 2000);
            && SpeedSlopes(Moved(r), r) == s && !n.stopped
            && n.speed220 == Clamp(0, CalcSpeed(s.deltaLow, s.deltaUs), CalcSpeed(s.deltaHigh, s.deltaUs))
  {
    hide StepStart, CalcSpeed, S32, SpeedSlopes, Initial, Updated, Timed, Clamp;
    Rests();
    RestSlopes(r);
    UpdateFromRest(r);
    OneUpdate(AT_REST, r, []);
    OneUpdate(START, STILL, [r]);
    assert [r] + [] == [r] && [STILL] + [r] == [STILL, r];
    NoUpdates(Updated(AT_REST, r));
  }

  lemma NoUpdates(e: Encoder)
    requires e.clocksPerUs > 0
    ensures RunOk(e, []) && RunUpdates(e, []) == e
  {
  }

  lemma OneUpdate(e: Encoder, r: Reading, rest: seq<Reading>)
    requires e.clocksPerUs > 0 && r.Valid() && Timed(e, r)
    ensures RunOk(e, [r] + rest) <==> RunOk(Updated(e, r), rest)
    ensures RunOk(Updated(e, r), rest) ==> RunUpdates(e, [r] + rest) == RunUpdates(Updated(e, r), rest)
  {
    hide Updated, Timed;
    assert ([r] + rest)[1..] == rest;
  }

  lemma UpdateFromRest(r: Reading)
    requires r.cycles == -1 && r.step > 0 && r.Valid() && SpeedSlopes(Moved(r), r).deltaUs > 0
    ensures Timed(AT_REST, r)
    ensures var n, s := Updated(AT_REST, r), SpeedSlopes(Moved(r), r);
            && !n.stopped
            && n.speed220 == Clamp(0, CalcSpeed(s.deltaLow, s.deltaUs), CalcSpeed(s.deltaHigh, s.deltaUs))
  {
    hide StepStart, CalcSpeed, TransitionUs, S32, U32, SpeedSlopes, ClampPosition, Clamp;
    JustNow(r);
    assert AfterTransition(AfterIdle(AT_REST, r), r) == Moved(r);
  }

  lemma JustNow(r: Reading)
    requires r.cycles == -1 && r.Valid()
    ensures TransitionUs(r, 125) == r.stepUs
  {
  }

  lemma RestSlopes(r: Reading)
    requires 2000 < r.stepUs < 0x8000_0000
    ensures var pos := StepStart(EQUAL_PHASES, r.step);
            SpeedSlopes(Moved(r), r) == Slopes(S32(pos - 64), S32(pos), r.stepUs - 2000)
  {
    hide StepStart;
  }

  lemma IdleUpdate(e: Encoder, r: Reading)
    requires e.clocksPerUs > 0 && r.Valid() && Timed(e, r)
    requires r.step == e.rawStep && e.idleStopSampleCount + 1 < TWO_32
    ensures var n := Updated(e, r);
            && n.calibration == e.calibration && n.clocksPerUs == e.clocksPerUs
            && n.idleStopSamples == e.idleStopSamples
            && n.rawStep == e.rawStep && n.idleStopSampleCount == e.idleStopSampleCount + 1
            && (n.stopped <==> e.stopped || n.idleStopSampleCount >= e.idleStopSamples)
  {
    hide StepStart, TransitionUs, CalcSpeed, SpeedSlopes, ClampPosition, Clamp;
  }

  /** Readings without a transition stop the encoder exactly when there have been enough of them. */
  lemma {:induction false} IdleStopsExactly(e: Encoder, readings: seq<Reading>)
    requires e.clocksPerUs > 0 && RunOk(e, readings)
    requires forall i :: 0 <= i < |readings| ==> readings[i].step == e.rawStep
    requires e.idleStopSampleCount + |readings| < TWO_32
    ensures RunUpdates(e, readings).stopped
       <==> e.stopped || (readings != [] && e.idleStopSampleCount + |readings| >= e.idleStopSamples)
    decreases |readings|
  {
    hide Updated, Timed;
    if readings != [] {
      IdleUpdate(e, readings[0]);
      IdleStopsExactly(Updated(e, readings[0]), readings[1..]);
    }
  }

  lemma {:induction false} SetupKept(e: Encoder, readings: seq<Reading>)
    requires e.clocksPerUs > 0 && RunOk(e, readings)
    ensures RunUpdates(e, readings).idleStopSamples == e.idleStopSamples
    decreases |readings|
  {
    hide Timed, StepStart, TransitionUs, SpeedSlopes, CalcSpeed;
    if readings != [] {
      SetupKept(Updated(e, readings[0]), readings[1..]);
    }
  }

  /** After a transition the count starts afresh: the encoder is stopped by exactly so many readings without one. */
  lemma StopsAfterTransition(e: Encoder, r: Reading, readings: seq<Reading>)
    requires e.clocksPerUs > 0 && RunOk(e, [r] + readings) && e.rawStep < TWO_32 && |readings| < TWO_32
    requires r.step != e.rawStep && forall i :: 0 <= i < |readings| ==> readings[i].step == r.step
    ensures RunUpdates(e, [r] + readings).stopped <==> readings != [] && |readings| >= e.idleStopSamples
  {
    hide StepStart, TransitionUs, SpeedSlopes, CalcSpeed;
    var n := Updated(e, r);
    assert ([r] + readings)[1..] == readings;
    assert n.idleStopSampleCount == 0 && !n.stopped && n.rawStep == r.step && n.idleStopSamples == e.idleStopSamples;
    IdleStopsExactly(n, readings);
  }

  /** The shipped settings: four equal phases, a first estimate in the middle of the step, and three readings
      without a transition to stop. */
  lemma InitialSettings(clocksPerUs: nat, first: Reading, c: Boundaries, readings: seq<Reading>)
    requires clocksPerUs > 0 && first.Valid()
    requires RunOk(Initial(clocksPerUs, first).(calibration := c), readings)
    ensures forall step: nat :: StepWidth(EQUAL_PHASES, step) == 64
    ensures var e := Initial(clocksPerUs, first);
            && e.stopped && e.calibration == EQUAL_PHASES
            && U32(e.position - StepStart(EQUAL_PHASES, first.step)) == 32
            && U32(StepStart(EQUAL_PHASES, U32(first.step + 1)) - e.position) == 32
    ensures Reached(clocksPerUs, first, c, readings).idleStopSamples == 3
  {
    hide StepStart, TransitionUs, RunOk, RunUpdates;
    SetupKept(Initial(clocksPerUs, first).(calibration := c), readings);
    StepBoundaries(EQUAL_PHASES, first.step);
    HalfWay(StepStart(EQUAL_PHASES, first.step), StepStart(EQUAL_PHASES, U32(first.step + 1)));
  }

  lemma HalfWay(low: nat, high: nat)
    requires U32(high - low) == 64
    ensures U32(U32(low + 32) - low) == 32 && U32(high - U32(low + 32)) == 32
  {
  }

  // ---------------------------------------------------------------------------------------
  // Calibration

  /** The rounding of substep_calibrate_phases: phase boundaries scaled to 256, to nearest. */
  function Boundary(cumulated: nat, total: nat): nat
    requires total > 0
  {
    (cumulated * 256 + total / 2) / total
  }

  function Calibration(sum: seq<nat>): Boundaries
    requires |sum| == 4 && sum[0] + sum[1] + sum[2] + sum[3] > 0
  {
    var total := sum[0] + sum[1] + sum[2] + sum[3];
    [0, Boundary(sum[0], total), Boundary(sum[0] + sum[1], total), Boundary(sum[0] + sum[1] + sum[2], total)]
  }

  lemma BoundaryMonotone(a: nat, b: nat, total: nat)
    requires total > 0 && a <= b
    ensures Boundary(a, total) <= Boundary(b, total)
  {
    var x, y := a * 256 + total / 2, b * 256 + total / 2;
    assert x == total * (x / total) + x % total && y == total * (y / total) + y % total;
    ProductGrows(total, y / total, x / total);
  }

  lemma BoundaryBelow256(cumulated: nat, rest: nat)
    requires cumulated + rest > 0
    ensures Boundary(cumulated, cumulated + rest) < 256 <==> (cumulated + rest) / 2 < 256 * rest
    ensures Boundary(cumulated, cumulated + rest) <= 256
  {
    var total := cumulated + rest;
    var x := cumulated * 256 + total / 2;
    assert x == total * (x / total) + x % total;
    assert 256 * total == cumulated * 256 + 256 * rest;
    ProductGrows(total, x / total, 256);
    ProductGap(total, 256, x / total, 0);
    ProductGap(total, 257, x / total, 0);
  }

  /** The boundary is within half a substep of the exact share of 256. */
  predicate Nearest(boundary: nat, cumulated: nat, total: nat) {
    2 * Abs(boundary * total - 256 * cumulated) <= total
  }

  lemma CalibrationIsNearest(sum: seq<nat>)
    requires |sum| == 4 && sum[0] + sum[1] + sum[2] + sum[3] > 0
    ensures var c, total := Calibration(sum), sum[0] + sum[1] + sum[2] + sum[3];
            && c[0] == 0 && Nearest(c[1], sum[0], total) && Nearest(c[2], sum[0] + sum[1], total)
            && Nearest(c[3], sum[0] + sum[1] + sum[2], total)
  {
    hide Boundary, Nearest;
    var total := sum[0] + sum[1] + sum[2] + sum[3];
    BoundaryIsNearest(sum[0], total);
    BoundaryIsNearest(sum[0] + sum[1], total);
    BoundaryIsNearest(sum[0] + sum[1] + sum[2], total);
  }

  lemma BoundaryIsNearest(cumulated: nat, total: nat)
    requires total > 0
    ensures Nearest(Boundary(cumulated, total), cumulated, total)
  {
    var x := cumulated * 256 + total / 2;
    assert x == total * (x / total) + x % total;
    assert total * (x / total) == x / total * total;
  }

  /** Measured phases give a usable calibration exactly when the last phase is not rounded away. */
  lemma CalibrationUsable(sum: seq<nat>)
    requires |sum| == 4 && sum[0] + sum[1] + sum[2] + sum[3] > 0
    ensures CalibrationOk(Calibration(sum)) <==> (sum[0] + sum[1] + sum[2] + sum[3]) / 2 < 256 * sum[3]
    ensures Rounded(Calibration(sum))
  {
    hide Boundary;
    var total := sum[0] + sum[1] + sum[2] + sum[3];
    BoundaryZero(total);
    BoundaryMonotone(0, sum[0], total);
    BoundaryMonotone(sum[0], sum[0] + sum[1], total);
    BoundaryMonotone(sum[0] + sum[1], sum[0] + sum[1] + sum[2], total);
    BoundaryBelow256(sum[0] + sum[1] + sum[2], sum[3]);
  }

  lemma BoundaryZero(total: nat)
    requires total > 0
    ensures Boundary(0, total) == 0
  {
  }

  /** What rounding can produce: also 256. */
  predicate Rounded(c: Boundaries) {
    c[0] == 0 && c[0] <= c[1] <= c[2] <= c[3] <= 256
  }

  /** Every step ends at or after its start, at most 256 substeps on. */
  ghost predicate StepsInOrder(c: Boundaries) {
    forall step: nat :: step < TWO_32 ==> U32(StepStart(c, U32(step + 1)) - StepStart(c, step)) <= 256
  }

  /** 256 is or-ed into bit 8 of the position, which every other cycle has set already. */
  lemma StepStartAt256(c: Boundaries, step: nat)
    requires c[step % 4] == 256
    ensures var h := step / 4 % 0x100_0000;
            StepStart(c, step) == U32(if h % 2 == 0 then 256 * h + 256 else 256 * h)
  {
    hide BitOr;
    StepBase(step);
    var h := step / 4 % 0x100_0000;
    assert U32(step / 4 * 256) == 256 * h;
    BitOrByte(h, 1, 0);
    BitOrEven(h);
  }

  lemma BitOrEven(h: nat)
    ensures BitOr(h, 1) == if h % 2 == 0 then h + 1 else h
  {
    BitOrZero(h / 2);
  }

  /** A boundary of 256 breaks the order of the steps, unless every boundary is 0 or 256. */
  lemma StepsInOrderExactly(c: Boundaries)
    requires Rounded(c)
    ensures StepsInOrder(c) <==> c[3] < 256 || (c[1] in {0, 256} && c[2] in {0, 256})
  {
    hide StepStart, U32;
    if c[3] < 256 {
      forall step: nat | step < TWO_32
        ensures U32(StepStart(c, U32(step + 1)) - StepStart(c, step)) <= 256
      {
        StepBoundaries(c, step);
      }
    } else if c[1] in {0, 256} && c[2] in {0, 256} {
      forall step: nat | step < TWO_32
        ensures U32(StepStart(c, U32(step + 1)) - StepStart(c, step)) <= 256
      {
        CoarseStep(c, step);
      }
    } else {
      BackwardStep(c, if c[2] < 256 then 2 else 1);
    }
  }

  /** In the cycle from 256 to 512, the step before a boundary of 256 ends before it starts. */
  lemma BackwardStep(c: Boundaries, i: nat)
    requires Rounded(c) && 1 <= i <= 2 && 0 < c[i] < 256 == c[i + 1]
    ensures U32(StepStart(c, U32(4 + i + 1)) - StepStart(c, 4 + i)) > 256
  {
    hide StepStart;
    StepStartForm(c, 4 + i);
    StepStartAt256(c, 4 + i + 1);
  }

  /** Where a step starts, in cycles, if its boundary is 0 or 256. */
  function CoarseStart(c: Boundaries, step: nat): nat {
    if c[step % 4] == 256 && step / 4 % 2 == 0 then step / 4 + 1 else step / 4
  }

  lemma CoarseForm(c: Boundaries, step: nat)
    requires c[step % 4] in {0, 256}
    ensures U32(StepStart(c, step)) == U32(256 * CoarseStart(c, step))
  {
    hide StepStart, U32;
    CycleBase(step / 4);
    if c[step % 4] == 0 {
      StepStartForm(c, step);
    } else {
      StepStartAt256(c, step);
    }
  }

  lemma CycleBase(h: nat)
    ensures var g := h % 0x100_0000;
            g % 2 == h % 2 && U32(256 * h) == U32(256 * g) && U32(256 * (h + 1)) == U32(256 * g + 256)
    ensures U32(U32(256 * h)) == U32(256 * h) && U32(U32(256 * (h + 1))) == U32(256 * (h + 1))
  {
    hide U32;
    var g, k := h % 0x100_0000, h / 0x100_0000;
    CycleParts(h);
    AddWraps(256 * g, k);
    AddWraps(256 * g + 256, k);
    U32Twice(256 * h);
    U32Twice(256 * (h + 1));
  }

  lemma CycleParts(h: nat)
    ensures 256 * h == 256 * (h % 0x100_0000) + TWO_32 * (h / 0x100_0000)
    ensures h % 0x100_0000 % 2 == h % 2
  {
    assert h == h % 0x100_0000 + 2 * (0x80_0000 * (h / 0x100_0000));
  }

  lemma AddWraps(x: int, k: int)
    ensures U32(x + TWO_32 * k) == U32(x)
  {
  }

  lemma U32Twice(x: int)
    ensures U32(U32(x)) == U32(x)
  {
  }

  lemma CoarseStep(c: Boundaries, step: nat)
    requires Rounded(c) && c[3] == 256 && c[1] in {0, 256} && c[2] in {0, 256} && step < TWO_32
    ensures U32(StepStart(c, U32(step + 1)) - StepStart(c, step)) <= 256
  {
    hide StepStart, U32;
    var next := U32(step + 1);
    CoarseForm(c, step);
    CoarseForm(c, next);
    SameDifference(StepStart(c, next), StepStart(c, step), 256 * CoarseStart(c, next), 256 * CoarseStart(c, step));
    CoarseNext(c, step);
  }

  lemma SameDifference(a: int, b: int, x: int, y: int)
    requires U32(a) == U32(x) && U32(b) == U32(y)
    ensures U32(a - b) == U32(x - y)
  {
  }

  lemma CoarseNext(c: Boundaries, step: nat)
    requires Rounded(c) && c[3] == 256 && c[1] in {0, 256} && c[2] in {0, 256} && step < TWO_32
    ensures U32(256 * CoarseStart(c, U32(step + 1)) - 256 * CoarseStart(c, step)) <= 256
  {
    var h := step / 4;
    if step % 4 != 3 {
      assert U32(step + 1) == step + 1 && (step + 1) / 4 == h && (step + 1) % 4 == step % 4 + 1;
    } else if step + 1 < TWO_32 {
      assert (step + 1) / 4 == h + 1 && (step + 1) % 4 == 0;
    } else {
      assert U32(step + 1) == 0 && h == 0x3FFF_FFFF;
    }
  }

  /** A last phase of one part in 3001: its boundary is rounded to 256, and step 6 runs from 427 back to 256. */
  lemma LastPhaseRoundedAway()
    ensures Calibration([1000, 1000, 1000, 1]) == [0, 85, 171, 256]
    ensures StepStart([0, 85, 171, 256], 6) == 427 && StepStart([0, 85, 171, 256], 7) == 256
    ensures !StepsInOrder(Calibration([1000, 1000, 1000, 1]))
  {
    hide StepStart;
    StepStartForm([0, 85, 171, 256], 6);
    StepStartAt256([0, 85, 171, 256], 7);
    StepsInOrderExactly([0, 85, 171, 256]);
  }
}
