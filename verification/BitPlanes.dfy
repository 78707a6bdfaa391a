/** Bit-plane arithmetic for parallel WS2812 strips (pio/ws2812/ws2812_parallel.c): one 12-bit
    value per strip, stored across 12 words, most significant plane first. Lane i is strip i. */
module BitPlanes {
  import opened Words

  const FRAC_BITS := 4
  const VALUE_PLANE_COUNT := 8 + FRAC_BITS

  type ValueBits = v: seq<bv32> | |v| == VALUE_PLANE_COUNT witness seq(VALUE_PLANE_COUNT, _ => 0)

  const NO_VALUE: ValueBits := seq(VALUE_PLANE_COUNT, _ => 0)

  /** What bit i of a plane contributes when the plane has weight 2^n. */
  function Weight(plane: bv32, i: nat, n: nat): nat {
    if Bit(plane, i) then Pow2(n) else 0
  }

  /** The number that lane i holds in the given planes. */
  function LaneOf(planes: seq<bv32>, i: nat): (r: nat)
    ensures r < Pow2(|planes|)
  {
    if planes == [] then 0 else Weight(planes[0], i, |planes| - 1) + LaneOf(planes[1..], i)
  }

  function Lane(v: ValueBits, i: nat): (r: nat)
    ensures r < 4096
  {
    Pow2Values();
    LaneOf(v, i)
  }

  lemma Pow2Values()
    ensures Pow2(0) == 1 && Pow2(4) == 16 && Pow2(8) == 256 && Pow2(12) == 4096
  {
    assert Pow2(2) == 4 && Pow2(6) == 64 && Pow2(10) == 1024;
  }

  // ---------------------------------------------------------------------------------------
  // add_error

  /** One plane of the full adder: the sum and the carry into the next plane. */
  function FullSum(e: bv32, s: bv32, carry: bv32): bv32 {
    (e ^ s) ^ carry
  }

  function FullCarry(e: bv32, s: bv32, carry: bv32): bv32 {
    (e & s) | (carry & (s ^ e))
  }

  /** One plane of the plain ripple. */
  function RippleSum(s: bv32, carry: bv32): bv32 {
    s ^ carry
  }

  function RippleCarry(s: bv32, carry: bv32): bv32 {
    carry & s
  }

  lemma FullAdder(e: bv32, s: bv32, carry: bv32, i: nat, n: nat)
    ensures Weight(FullSum(e, s, carry), i, n) + Weight(FullCarry(e, s, carry), i, n + 1)
         == Weight(e, i, n) + Weight(s, i, n) + Weight(carry, i, n)
  {
    hide Bit, Xor, And, Or, FullSum, FullCarry;
    FullAdderForm(e, s, carry);
    XorBit(Xor(e, s), carry, i);
    XorBit(e, s, i);
    OrBit(And(e, s), And(carry, Xor(s, e)), i);
    AndBit(e, s, i);
    AndBit(carry, Xor(s, e), i);
    XorBit(s, e, i);
  }

  lemma FullAdderForm(e: bv32, s: bv32, carry: bv32)
    ensures FullSum(e, s, carry) == Xor(Xor(e, s), carry)
    ensures FullCarry(e, s, carry) == Or(And(e, s), And(carry, Xor(s, e)))
  {
  }

  lemma HalfAdder(s: bv32, carry: bv32, i: nat, n: nat)
    ensures Weight(RippleSum(s, carry), i, n) + Weight(RippleCarry(s, carry), i, n + 1)
         == Weight(s, i, n) + Weight(carry, i, n)
  {
    hide Bit, Xor, And, RippleSum, RippleCarry;
    HalfAdderForm(s, carry);
    XorBit(s, carry, i);
    AndBit(carry, s, i);
  }

  lemma HalfAdderForm(s: bv32, carry: bv32)
    ensures RippleSum(s, carry) == Xor(s, carry) && RippleCarry(s, carry) == And(carry, s)
  {
  }

  lemma {:induction false} LaneSplit(high: seq<bv32>, low: seq<bv32>, i: nat)
    requires |low| == 4
    ensures LaneOf(high + low, i) == 16 * LaneOf(high, i) + LaneOf(low, i)
  {
    hide Bit;
    if high == [] {
      assert high + low == low;
    } else {
      var n := |high| - 1;
      LaneSplit(high[1..], low, i);
      assert (high + low)[1..] == high[1..] + low;
      assert Pow2(n + 4) == 2 * Pow2(n + 3) && Pow2(n + 3) == 2 * Pow2(n + 2) && Pow2(n + 2) == 2 * Pow2(n + 1);
      assert Weight(high[0], i, n + 4) == 16 * Weight(high[0], i, n);
    }
  }

  /** The planes of a lane, from plane p down. */
  function Tail(v: ValueBits, p: nat, i: nat): nat
    requires p <= 12
  {
    LaneOf(v[p..], i)
  }

  lemma TailStep(v: ValueBits, p: nat, i: nat)
    requires p < 12
    ensures Tail(v, p, i) == Weight(v[p], i, 11 - p) + Tail(v, p + 1, i)
  {
    hide Weight;
    assert v[p..][1..] == v[p + 1..];
  }

  lemma TailUnchanged(v: ValueBits, p: nat, plane: bv32, i: nat)
    requires p < 12
    ensures Tail(v[p := plane], p, i) == Weight(plane, i, 11 - p) + Tail(v, p + 1, i)
  {
    hide Weight;
    TailStep(v[p := plane], p, i);
    assert v[p := plane][p + 1..] == v[p + 1..];
  }

  lemma FractionOf(v: ValueBits, i: nat)
    ensures Tail(v, 8, i) == Lane(v, i) % 16
    ensures LaneOf(v[..8], i) == Lane(v, i) / 16
  {
    hide Weight;
    assert v == v[..8] + v[8..];
    LaneSplit(v[..8], v[8..], i);
    Pow2Values();
  }

  /** In every lane, planes p and below are summed, q being the first plane of e that takes part. */
  ghost predicate Summed(d: ValueBits, carry: bv32, s: ValueBits, e: ValueBits, p: nat, q: nat)
    requires p <= 12 && q <= 12
  {
    forall i :: 0 <= i < 32 ==> Tail(d, p, i) + Weight(carry, i, 12 - p) == Tail(s, p, i) + Tail(e, q, i)
  }

  lemma FractionStep(d: ValueBits, carry: bv32, s: ValueBits, e: ValueBits, p: nat)
    requires 8 <= p < 12 && Summed(d, carry, s, e, p + 1, p + 1)
    ensures Summed(d[p := FullSum(e[p], s[p], carry)], FullCarry(e[p], s[p], carry), s, e, p, p)
  {
    hide Weight, Tail, FullSum, FullCarry;
    var sum, next := FullSum(e[p], s[p], carry), FullCarry(e[p], s[p], carry);
    forall i | 0 <= i < 32
      ensures Tail(d[p := sum], p, i) + Weight(next, i, 12 - p) == Tail(s, p, i) + Tail(e, p, i)
    {
      FullAdder(e[p], s[p], carry, i, 11 - p);
      TailUnchanged(d, p, sum, i);
      TailStep(s, p, i);
      TailStep(e, p, i);
    }
  }

  lemma RippleStep(d: ValueBits, carry: bv32, s: ValueBits, e: ValueBits, p: nat)
    requires p < 8 && Summed(d, carry, s, e, p + 1, 8)
    ensures Summed(d[p := RippleSum(s[p], carry)], RippleCarry(s[p], carry), s, e, p, 8)
  {
    hide Weight, Tail, RippleSum, RippleCarry;
    var sum, next := RippleSum(s[p], carry), RippleCarry(s[p], carry);
    forall i | 0 <= i < 32
      ensures Tail(d[p := sum], p, i) + Weight(next, i, 12 - p) == Tail(s, p, i) + Tail(e, 8, i)
    {
      HalfAdder(s[p], carry, i, 11 - p);
      TailUnchanged(d, p, sum, i);
      TailStep(s, p, i);
    }
  }

  /** Adds the fractional planes of e to s, in all 32 lanes at once. */
  method AddError(s: ValueBits, e: ValueBits) returns (d: ValueBits)
    ensures forall i :: 0 <= i < 32 ==> Lane(d, i) == (Lane(s, i) + Lane(e, i) % 16) % 4096
  {
    hide Lane, Summed, FullSum, FullCarry, RippleSum, RippleCarry;
    d := NO_VALUE;
    var carry: bv32 := 0;
    NothingYet(d, s, e);
    var p := VALUE_PLANE_COUNT - 1;
    while p >= 8
      invariant 7 <= p <= 11
      invariant Summed(d, carry, s, e, p + 1, p + 1)
    {
      var ePlane, sPlane := e[p], s[p];
      var sum, nextCarry := FullSum(ePlane, sPlane, carry), FullCarry(ePlane, sPlane, carry);
      FractionStep(d, carry, s, e, p);
      d, carry, p := d[p := sum], nextCarry, p - 1;
    }
    while p >= 0
      invariant -1 <= p <= 7
      invariant Summed(d, carry, s, e, p + 1, 8)
    {
      var sPlane := s[p];
      var sum, nextCarry := RippleSum(sPlane, carry), RippleCarry(sPlane, carry);
      RippleStep(d, carry, s, e, p);
      d, carry, p := d[p := sum], nextCarry, p - 1;
    }
    CarryOut(d, s, e, carry);
  }

  lemma CarryOut(d: ValueBits, s: ValueBits, e: ValueBits, carry: bv32)
    requires Summed(d, carry, s, e, 0, 8)
    ensures forall i :: 0 <= i < 32 ==> Lane(d, i) == (Lane(s, i) + Lane(e, i) % 16) % 4096
  {
    hide LaneOf, Bit;
    assert d[0..] == d && s[0..] == s;
    forall i | 0 <= i < 32
      ensures Lane(d, i) == (Lane(s, i) + Lane(e, i) % 16) % 4096
    {
      FractionOf(e, i);
      Pow2Values();
      assert Tail(d, 0, i) + Weight(carry, i, 12) == Tail(s, 0, i) + Tail(e, 8, i);
      assert Weight(carry, i, 12) == 0 || Weight(carry, i, 12) == 4096;
    }
  }

  lemma NothingYet(d: ValueBits, s: ValueBits, e: ValueBits)
    ensures Summed(d, 0, s, e, 12, 12)
  {
    forall i | 0 <= i < 32
      ensures Weight(0, i, 0) == 0
    {
      ZeroBit(i);
    }
  }

  // ---------------------------------------------------------------------------------------
  // transform_strips

  /** strip_t; data holds uint8_t, fracBrightness is a uint32_t with 256 for 1.0. */
  datatype Strip = Strip(data: seq<nat>, fracBrightness: nat) {
    predicate Valid() {
      fracBrightness < TWO_32 && forall k :: 0 <= k < |data| ==> data[k] < 256
    }
  }

  /** The scaled colour value, in the wrapping 32-bit arithmetic of the code. */
  function Scaled(strip: Strip, v: nat, fracBrightness: nat): nat
    requires v < |strip.data|
  {
    U32(U32(strip.data[v] * strip.fracBrightness) / 256 * fracBrightness) / 256
  }

  function WithBit(plane: bv32, lane: nat): bv32
    requires lane < 32
  {
    plane | (1 << lane)
  }

  predicate LaneClear(planes: seq<bv32>, i: nat) {
    forall p :: 0 <= p < |planes| ==> !Bit(planes[p], i)
  }

  lemma {:induction false} LaneClearZero(planes: seq<bv32>, i: nat)
    requires LaneClear(planes, i)
    ensures LaneOf(planes, i) == 0
  {
    if planes != [] {
      LaneClearZero(planes[1..], i);
    }
  }

  /** Setting bit `lane` of plane p adds that plane's weight to that lane, and to no other. */
  lemma {:induction false} SetBit(planes: seq<bv32>, p: nat, lane: nat, i: nat)
    requires p < |planes| && lane < 32 && i < 32 && !Bit(planes[p], lane)
    ensures LaneOf(planes[p := WithBit(planes[p], lane)], i)
         == LaneOf(planes, i) + (if i == lane then Pow2(|planes| - 1 - p) else 0)
    decreases p
  {
    hide Bit, Or, Mask, Pow2, WithBit;
    var updated := planes[p := WithBit(planes[p], lane)];
    SetBitForm(planes[p], lane);
    OrBit(planes[p], Mask(lane), i);
    MaskBit(lane, i);
    if p == 0 {
      assert updated[1..] == planes[1..];
    } else {
      SetBit(planes[1..], p - 1, lane, i);
      assert updated[1..] == planes[1..][p - 1 := WithBit(planes[1..][p - 1], lane)];
    }
  }

  lemma SetBitForm(plane: bv32, lane: nat)
    requires lane < 32
    ensures WithBit(plane, lane) == Or(plane, Mask(lane))
  {
  }

  lemma OtherPlanesKeepClear(plane: bv32, lane: nat, i: nat)
    requires lane < 32 && i != lane
    ensures Bit(WithBit(plane, lane), i) == Bit(plane, i)
  {
    hide Bit, Or, Mask;
    SetBitForm(plane, lane);
    OrBit(plane, Mask(lane), i);
    MaskBit(lane, i);
  }

  lemma SetBitInAllLanes(planes: ValueBits, p: nat, lane: nat)
    requires p < 12 && lane < 32 && !Bit(planes[p], lane)
    ensures var next := planes[p := WithBit(planes[p], lane)];
            && LaneOf(next, lane) == LaneOf(planes, lane) + Pow2(11 - p)
            && (forall i :: 0 <= i < 32 && i != lane ==> LaneOf(next, i) == LaneOf(planes, i))
            && (forall i :: 0 <= i < 32 && i != lane ==> Bit(next[p], i) == Bit(planes[p], i))
  {
    hide Bit, WithBit, LaneOf, Pow2;
    forall i | 0 <= i < 32 && i != lane
      ensures LaneOf(planes[p := WithBit(planes[p], lane)], i) == LaneOf(planes, i)
      ensures Bit(WithBit(planes[p], lane), i) == Bit(planes[p], i)
    {
      SetBit(planes, p, lane, i);
      OtherPlanesKeepClear(planes[p], lane, i);
    }
    SetBit(planes, p, lane, lane);
  }

  /** The inner loop: write the 12 low bits of `scaled` into lane `lane`, which is still clear. */
  method StoreLane(planes0: ValueBits, lane: nat, scaled: nat) returns (planes: ValueBits)
    requires lane < 32 && LaneClear(planes0, lane)
    ensures Lane(planes, lane) == scaled % 4096
    ensures forall i :: 0 <= i < 32 && i != lane ==> Lane(planes, i) == Lane(planes0, i)
    ensures forall i, p :: 0 <= i < 32 && i != lane && 0 <= p < 12 ==> Bit(planes[p], i) == Bit(planes0[p], i)
  {
    hide Bit, WithBit, LaneOf, Pow2;
    planes := planes0;
    LaneClearZero(planes, lane);
    Pow2Values();
    var value: nat, j := scaled, 0;
    while j < VALUE_PLANE_COUNT && value != 0
      invariant 0 <= j <= 12
      invariant forall p :: 0 <= p < 12 - j ==> !Bit(planes[p], lane)
      invariant LaneOf(planes, lane) + value * Pow2(j) == scaled
      invariant forall i :: 0 <= i < 32 && i != lane ==> LaneOf(planes, i) == LaneOf(planes0, i)
      invariant forall i, p :: 0 <= i < 32 && i != lane && 0 <= p < 12 ==> Bit(planes[p], i) == Bit(planes0[p], i)
      decreases 12 - j
    {
      if value % 2 == 1 {
        SetBitInAllLanes(planes, VALUE_PLANE_COUNT - 1 - j, lane);
        planes := planes[VALUE_PLANE_COUNT - 1 - j := WithBit(planes[VALUE_PLANE_COUNT - 1 - j], lane)];
      }
      HalveValue(value, j);
      j, value := j + 1, value / 2;
    }
    Pow2Values();
  }

  lemma HalveValue(value: nat, j: nat)
    ensures value * Pow2(j) == (if value % 2 == 1 then Pow2(j) else 0) + value / 2 * Pow2(j + 1)
  {
    assert value == value % 2 + 2 * (value / 2);
  }

  /** What lane i of value v has to hold. */
  function Wanted(strips: seq<Strip>, v: nat, fracBrightness: nat, i: nat): nat {
    if i < |strips| && v < |strips[i].data| then Scaled(strips[i], v, fracBrightness) % 4096 else 0
  }

  lemma BlankLanes()
    ensures forall i :: 0 <= i < 32 ==> Lane(NO_VALUE, i) == 0
    ensures forall i, p :: 0 <= i < 32 && 0 <= p < 12 ==> !Bit(NO_VALUE[p], i)
  {
    hide Bit;
    forall i | 0 <= i < 32
      ensures Lane(NO_VALUE, i) == 0 && !Bit(0, i)
    {
      ZeroBit(i);
      LaneClearZero(NO_VALUE, i);
    }
  }

  /** All lanes of one value. */
  method TransformValue(strips: seq<Strip>, v: nat, fracBrightness: nat) returns (planes: ValueBits)
    requires |strips| <= 32 && fracBrightness < TWO_32
    requires forall k :: 0 <= k < |strips| ==> strips[k].Valid()
    ensures forall i :: 0 <= i < 32 ==> Lane(planes, i) == Wanted(strips, v, fracBrightness, i)
  {
    hide Scaled, Bit, LaneOf;
    planes := NO_VALUE;
    BlankLanes();
    var i := 0;
    while i < |strips|
      invariant 0 <= i <= |strips|
      invariant forall l :: 0 <= l < i ==> Lane(planes, l) == Wanted(strips, v, fracBrightness, l)
      invariant forall l :: i <= l < 32 ==> Lane(planes, l) == 0
      invariant forall l, p :: i <= l < 32 && 0 <= p < 12 ==> !Bit(planes[p], l)
    {
      if v < |strips[i].data| {
        planes := StoreLane(planes, i, Scaled(strips[i], v, fracBrightness));
      }
      i := i + 1;
    }
  }

  method TransformStrips(strips: seq<Strip>, values: array<ValueBits>, valueLength: nat, fracBrightness: nat)
    requires |strips| <= 32 && valueLength <= values.Length && fracBrightness < TWO_32
    requires forall k :: 0 <= k < |strips| ==> strips[k].Valid()
    modifies values
    ensures forall v, i :: 0 <= v < valueLength && 0 <= i < 32 ==>
      Lane(values[v], i) == Wanted(strips, v, fracBrightness, i)
    ensures values[valueLength..] == old(values[valueLength..])
  {
    hide Wanted, LaneOf;
    var v := 0;
    while v < valueLength
      invariant 0 <= v <= valueLength
      invariant forall u, i :: 0 <= u < v && 0 <= i < 32 ==> Lane(values[u], i) == Wanted(strips, u, fracBrightness, i)
      invariant values[valueLength..] == old(values[valueLength..])
    {
      values[v] := TransformValue(strips, v, fracBrightness);
      v := v + 1;
    }
  }

  // ---------------------------------------------------------------------------------------
  // dither_values

  method DitherValues(colors: array<ValueBits>, state: array<ValueBits>, oldState: array<ValueBits>, valueLength: nat)
    requires valueLength <= colors.Length && valueLength <= state.Length && valueLength <= oldState.Length
    requires state != colors && state != oldState
    modifies state
    ensures forall v, i :: 0 <= v < valueLength && 0 <= i < 32 ==>
      Lane(state[v], i) == Dithered(Lane(oldState[v], i), Lane(colors[v], i))
    ensures state[valueLength..] == old(state[valueLength..])
  {
    hide LaneOf;
    var k := 0;
    while k < valueLength
      invariant 0 <= k <= valueLength
      invariant forall v, i :: 0 <= v < k && 0 <= i < 32 ==>
        Lane(state[v], i) == Dithered(Lane(oldState[v], i), Lane(colors[v], i))
      invariant state[valueLength..] == old(state[valueLength..])
    {
      state[k] := AddError(colors[k], oldState[k]);
      k := k + 1;
    }
  }

  /** One lane of one value from one frame to the next: the residual of the old state is added to the request. */
  function Dithered(oldState: nat, requested: nat): (state: nat)
    ensures state < 4096
  {
    (requested + oldState % 16) % 4096
  }

  /** The eight high planes are what the strip is sent. */
  function Displayed(state: nat): nat {
    state / 16
  }

  /** Only the stored twelve bits of a request matter. */
  lemma DitheredModulo(oldState: nat, requested: nat)
    ensures Dithered(oldState, requested % 4096) == Dithered(oldState, requested)
  {
  }

  // ---------------------------------------------------------------------------------------
  // What is asked for

  /** The scaled colour value of a lane as a number of any size: nothing wraps and nothing is cut off. */
  function Requested(strips: seq<Strip>, v: nat, fracBrightness: nat, i: nat): nat {
    if i < |strips| && v < |strips[i].data|
    then strips[i].data[v] * strips[i].fracBrightness / 256 * fracBrightness / 256 else 0
  }

  /** What wraps in the 32-bit multiplications lies above the twelve bits that are stored. */
  lemma WantedIsRequested(strips: seq<Strip>, v: nat, fracBrightness: nat, i: nat)
    ensures Wanted(strips, v, fracBrightness, i) == Requested(strips, v, fracBrightness, i) % 4096
  {
    if i < |strips| && v < |strips[i].data| {
      ScalingModulo(strips[i].data[v] * strips[i].fracBrightness, fracBrightness);
    }
  }

  lemma ScalingModulo(p: nat, b: nat)
    ensures U32(U32(p) / 256 * b) / 256 % 4096 == p / 256 * b / 256 % 4096
  {
    hide U32;
    var q := U32(p) / 256;
    var k := WrapsAround(p);
    var j := WrapsAround(q * b);
    assert p / 256 * b == q * b + 0x100_0000 * (k * b) by {
      assert p / 256 == q + 0x100_0000 * k;
      assert (q + 0x100_0000 * k) * b == q * b + 0x100_0000 * (k * b);
    }
    SameLowBits(U32(q * b) / 256, q * b / 256, 0x1000 * j);
    SameLowBits(q * b / 256, p / 256 * b / 256, 16 * (k * b));
  }

  lemma WrapsAround(x: nat) returns (k: nat)
    ensures x == U32(x) + TWO_32 * k
    ensures x / 256 == U32(x) / 256 + 0x100_0000 * k
  {
    k := x / TWO_32;
  }

  lemma SameLowBits(x: nat, y: nat, m: nat)
    requires y == x + 4096 * m
    ensures x % 4096 == y % 4096
  {
  }

  // ---------------------------------------------------------------------------------------
  // Conservation over frames

  /** The state after the requests so far, from a zeroed state. */
  function StateAfter(requests: seq<nat>): (state: nat)
    ensures state < 4096
  {
    if requests == [] then 0
    else Dithered(StateAfter(requests[..|requests| - 1]), requests[|requests| - 1])
  }

  function Sum(s: seq<nat>): nat {
    if s == [] then 0 else Sum(s[..|s| - 1]) + s[|s| - 1]
  }

  function TotalDisplayed(requests: seq<nat>): nat {
    if requests == [] then 0 else TotalDisplayed(requests[..|requests| - 1]) + Displayed(StateAfter(requests))
  }

  /** Request n together with the residual does not fit in twelve bits. */
  predicate Overflows(requests: seq<nat>, n: nat)
    requires n < |requests|
  {
    requests[n] + StateAfter(requests[..n]) % 16 >= 4096
  }

  /** How often 4096 has been lost: cut off a request when it is stored, or carried out of the top plane. */
  function Lost(requests: seq<nat>): nat {
    if requests == [] then 0 else
      var before := requests[..|requests| - 1];
      Lost(before) + (requests[|requests| - 1] + StateAfter(before) % 16) / 4096
  }

  /** Nothing is lost between frames except what does not fit in twelve bits. */
  lemma {:induction false} BrightnessBalance(requests: seq<nat>)
    ensures 16 * TotalDisplayed(requests) + StateAfter(requests) % 16 + 4096 * Lost(requests) == Sum(requests)
  {
    if requests != [] {
      BrightnessBalance(requests[..|requests| - 1]);
    }
  }

  lemma {:induction false} NothingLost(requests: seq<nat>)
    ensures Lost(requests) == 0 <==> forall n :: 0 <= n < |requests| ==> !Overflows(requests, n)
  {
    hide StateAfter, Overflows;
    if requests != [] {
      var before := requests[..|requests| - 1];
      NothingLost(before);
      LostNow(requests);
      forall n | 0 <= n < |before|
        ensures Overflows(before, n) == Overflows(requests, n)
      {
        OverflowsEarlier(requests, n);
      }
    }
  }

  lemma LostNow(requests: seq<nat>)
    requires requests != []
    ensures var m := |requests| - 1;
            Lost(requests) == Lost(requests[..m]) <==> !Overflows(requests, m)
  {
    hide StateAfter;
  }

  lemma OverflowsEarlier(requests: seq<nat>, n: nat)
    requires n + 1 < |requests|
    ensures Overflows(requests[..|requests| - 1], n) == Overflows(requests, n)
  {
    hide StateAfter;
    assert requests[..|requests| - 1][..n] == requests[..n];
  }

  /** Brightness is conserved over a run exactly when every request fits in twelve bits on top of the residual. */
  lemma ConservedExactly(requests: seq<nat>)
    ensures 16 * TotalDisplayed(requests) + StateAfter(requests) % 16 == Sum(requests)
       <==> forall n :: 0 <= n < |requests| ==> requests[n] + StateAfter(requests[..n]) % 16 < 4096
  {
    hide StateAfter, Lost, TotalDisplayed, Sum;
    BrightnessBalance(requests);
    NothingLost(requests);
    assert forall n :: 0 <= n < |requests| ==>
      Overflows(requests, n) == (requests[n] + StateAfter(requests[..n]) % 16 >= 4096);
  }

  /** A request above twelve bits is cut off when it is stored, without any carry. */
  lemma TruncationLosesLight()
    ensures var strip := Strip([255], 0x1000);
            && strip.Valid() && Requested([strip], 0, 0x180, 0) == 6120 && Wanted([strip], 0, 0x180, 0) == 2024
            && 16 * TotalDisplayed([6120]) + StateAfter([6120]) % 16 == Sum([6120]) - 4096
  {
    hide Wanted, StateAfter, TotalDisplayed, Sum;
    WantedIsRequested([Strip([255], 0x1000)], 0, 0x180, 0);
    TwoFrames(6120, 0);
  }

  /** A request that just fits carries out of the top plane when it meets its own residual. */
  lemma CarryLosesLight()
    ensures var strip := Strip([255], 0x1010);
            && strip.Valid() && Requested([strip], 0, 0x100, 0) == Wanted([strip], 0, 0x100, 0) == 4095
            && 16 * TotalDisplayed([4095, 4095]) + StateAfter([4095, 4095]) % 16 == Sum([4095, 4095]) - 4096
  {
    hide Wanted, StateAfter, TotalDisplayed, Sum;
    WantedIsRequested([Strip([255], 0x1010)], 0, 0x100, 0);
    TwoFrames(4095, 4095);
  }

  lemma TwoFrames(x: nat, y: nat)
    ensures StateAfter([x]) == x % 4096 && TotalDisplayed([x]) == x % 4096 / 16 && Sum([x]) == x
    ensures StateAfter([x, y]) == Dithered(x % 4096, y) && Sum([x, y]) == x + y
    ensures TotalDisplayed([x, y]) == x % 4096 / 16 + Dithered(x % 4096, y) / 16
  {
    assert [x][..0] == [] && [x, y][..1] == [x];
  }

  // ---------------------------------------------------------------------------------------
  // The shipped factors

  /** The shipped strip factors are 0x40 and 0x100, and brightness stays below 0x20 << FRAC_BITS. */
  predicate Shipped(strips: seq<Strip>, brightness: nat) {
    && brightness < 0x200
    && forall k :: 0 <= k < |strips| ==> strips[k].Valid() && strips[k].fracBrightness <= 0x100
  }

  /** With them no request exceeds 509, so every lane holds the scaled colour itself. */
  lemma ShippedRequestsFit(strips: seq<Strip>, v: nat, brightness: nat, i: nat)
    requires Shipped(strips, brightness)
    ensures Wanted(strips, v, brightness, i) == Requested(strips, v, brightness, i) <= 509
  {
    hide Wanted;
    WantedIsRequested(strips, v, brightness, i);
    if i < |strips| && v < |strips[i].data| {
      var d, f := strips[i].data[v], strips[i].fracBrightness;
      ProductBound(d, 255, f, 256);
      ProductBound(d * f / 256, 255, brightness, 511);
    }
  }

  lemma ProductBound(a: nat, maxA: nat, b: nat, maxB: nat)
    requires a <= maxA && b <= maxB
    ensures a * b <= maxA * maxB
  {
    assert a * b <= maxA * b <= maxA * maxB;
  }

  /** And as long as no request exceeds 4080, nothing is ever lost. */
  lemma SmallRequestsFit(requests: seq<nat>)
    requires forall n :: 0 <= n < |requests| ==> requests[n] <= 4080
    ensures Lost(requests) == 0
  {
    hide StateAfter, Lost;
    NothingLost(requests);
  }
}
