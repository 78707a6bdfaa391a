/** The two-core protocol of multicore/multicore_doorbell/multicore_doorbell.c: core 0 rings a counting
    doorbell N times and then an exit doorbell; core 1's interrupt counts, and its loop ends and rings
    back. Doorbells are sticky bits; every read and every write of a shared variable is one step. */
module MulticoreDoorbell {

  datatype Core0 = Ringing(left: nat) | RingingExit | Waiting | Done(result: nat)

  /** Before the handler is installed; in the loop; out of it; after ringing back. */
  datatype Core1 = Starting | Looping | Leaving | Ended

  /** core1_doorbell_irq, by the statement it is about to execute. */
  datatype Irq = Out | TestCounter | Count | ClearCounter | TestExit | ClearExit | SetFlag

  datatype State = State(core0: Core0, core1: Core1, irq: Irq, counterBit: bool, exitBit: bool, exitBit0: bool,
                         irqCount: nat, exitCore0: bool)

  datatype Event =
    | RingCounter | RingExit | PassWait
    | InstallIrq | LeaveLoop | RingBack
    | EnterIrq | StepIrq

  function Init(n: nat): State {
    State(Ringing(n), Starting, Out, false, false, false, 0, false)
  }

  predicate Enabled(s: State, e: Event) {
    match e
    case RingCounter => s.core0.Ringing? && s.core0.left > 0
    case RingExit => s.core0 == Ringing(0) || s.core0 == RingingExit
    case PassWait => s.core0 == Waiting && s.exitBit0
    case InstallIrq => s.core1 == Starting
    case LeaveLoop => s.core1 == Looping && s.irq == Out && s.exitCore0
    case RingBack => s.core1 == Leaving && s.irq == Out
    case EnterIrq => s.core1 != Starting && s.irq == Out && (s.counterBit || s.exitBit)
    case StepIrq => s.irq != Out
  }

  function IrqStep(s: State): State {
    match s.irq
    case Out => s
    case TestCounter => s.(irq := if s.counterBit then Count else TestExit)
    case Count => s.(irqCount := s.irqCount + 1, irq := ClearCounter)
    case ClearCounter => s.(counterBit := false, irq := TestExit)
    case TestExit => s.(irq := if s.exitBit then ClearExit else Out)
    case ClearExit => s.(exitBit := false, irq := SetFlag)
    case SetFlag => s.(exitCore0 := true, irq := Out)
  }

  function Apply(s: State, e: Event): State
    requires Enabled(s, e)
  {
    match e
    case RingCounter => s.(counterBit := true,
                           core0 := if s.core0.left == 1 then RingingExit else Ringing(s.core0.left - 1))
    case RingExit => s.(exitBit := true, core0 := Waiting)
    case PassWait => s.(core0 := Done(s.irqCount))
    case InstallIrq => s.(core1 := Looping)
    case LeaveLoop => s.(core1 := Leaving)
    case RingBack => s.(exitBit0 := true, core1 := Ended)
    case EnterIrq => s.(irq := TestCounter)
    case StepIrq => IrqStep(s)
  }

  // ---------------------------------------------------------------------------------------
  // The invariant

  /** How often the counting doorbell has been rung, out of n times. */
  function Rung(s: State, n: nat): int {
    if s.core0.Ringing? then n - s.core0.left else n
  }

  predicate ExitRung(s: State) {
    s.core0.Waiting? || s.core0.Done?
  }

  ghost predicate Inv(s: State, n: nat) {
    && (s.core0.Ringing? ==> s.core0.left <= n)
    // no ring is counted twice: a set bit that is not about to be cleared stands for an uncounted ring
    && s.irqCount + (if s.counterBit && s.irq != ClearCounter then 1 else 0) <= Rung(s, n)
    // no ring is forgotten before the first is counted
    && (Rung(s, n) > 0 ==> s.counterBit || s.irqCount > 0)
    && (s.irq in {Count, ClearCounter} ==> s.counterBit)
    && (s.irq in {ClearCounter, TestExit, ClearExit, SetFlag} ==> s.irqCount > 0)
    && (s.irq == TestCounter ==> s.counterBit || s.exitBit)
    && (s.irq != Out ==> Rung(s, n) > 0 && s.core1 != Starting)
    // the exit doorbell is pending, in the handler's hands, or has set the flag
    && (s.exitBit || s.irq == SetFlag || s.exitCore0 <==> ExitRung(s))
    && (s.irq == ClearExit ==> s.exitBit)
    && (s.exitCore0 ==> s.irqCount > 0)
    && (s.core1 in {Leaving, Ended} ==> s.exitCore0)
    && (s.exitBit0 <==> s.core1 == Ended)
    && (s.core0.Done? ==> s.core1 == Ended && 1 <= s.core0.result <= n)
  }

  lemma StepKeepsInv(s: State, e: Event, n: nat)
    requires n > 0 && Inv(s, n) && Enabled(s, e)
    ensures Inv(Apply(s, e), n)
  {
  }

  predicate Final(s: State) {
    s.core0.Done? && s.core1 == Ended && s.irq == Out && !s.counterBit && !s.exitBit
  }

  /** Bounds the steps still to come: a ring pays for the bit it sets, and a set bit for one pass of the handler. */
  function Work(s: State): int {
    var rings := match s.core0 case Ringing(left) => 10 * left + 12
      case RingingExit => 11 case Waiting => 1 case Done(_) => 0;
    var main := match s.core1 case Starting => 3 case Looping => 2 case Leaving => 1 case Ended => 0;
    var handler := match s.irq
      case Out => 0 case TestCounter => -1 case Count => -2 case ClearCounter => -3
      case TestExit => if s.exitBit then -2 else 4 case ClearExit => -3 case SetFlag => 4;
    rings + main + handler + (if s.counterBit then 8 else 0) + (if s.exitBit then 8 else 0)
  }

  lemma StepIsWork(s: State, e: Event, n: nat)
    requires n > 0 && Inv(s, n) && Enabled(s, e)
    ensures Work(Apply(s, e)) < Work(s)
  {
  }

  lemma WorkIsPositive(s: State, n: nat)
    requires Inv(s, n)
    ensures Work(s) >= -3
  {
  }

  lemma NeverStuck(s: State, n: nat)
    requires n > 0 && Inv(s, n) && !Final(s)
    ensures exists e: Event :: Enabled(s, e)
  {
    if s.irq != Out {
      assert Enabled(s, StepIrq);
    } else if s.core1 == Starting {
      assert Enabled(s, InstallIrq);
    } else if s.counterBit || s.exitBit {
      assert Enabled(s, EnterIrq);
    } else if s.core0.Ringing? && s.core0.left > 0 {
      assert Enabled(s, RingCounter);
    } else if !ExitRung(s) {
      assert Enabled(s, RingExit);
    } else if s.core1 == Looping {
      assert Enabled(s, LeaveLoop);
    } else if s.core1 == Leaving {
      assert Enabled(s, RingBack);
    } else {
      assert Enabled(s, PassWait);
    }
  }

  // ---------------------------------------------------------------------------------------
  // Every run

  predicate Possible(s: State, events: seq<Event>)
    decreases |events|
  {
    events == [] || (Enabled(s, events[0]) && Possible(Apply(s, events[0]), events[1..]))
  }

  function Run(s: State, events: seq<Event>): State
    requires Possible(s, events)
    decreases |events|
  {
    if events == [] then s else Run(Apply(s, events[0]), events[1..])
  }

  lemma {:induction false} RunKeepsInv(s: State, events: seq<Event>, n: nat)
    requires n > 0 && Inv(s, n) && Possible(s, events)
    ensures Inv(Run(s, events), n) && |events| + Work(Run(s, events)) <= Work(s)
    decreases |events|
  {
    hide Inv, Enabled, Apply, Work;
    if events != [] {
      StepKeepsInv(s, events[0], n);
      StepIsWork(s, events[0], n);
      RunKeepsInv(Apply(s, events[0]), events[1..], n);
    }
  }

  /** In every interleaving of N >= 1 rings: core 0 passes its wait only after core 1 has left its loop,
      and reports a count between 1 and N; no reachable state is stuck, and every run ends. */
  lemma CountIsBetweenOneAndN(n: nat, events: seq<Event>)
    requires n > 0 && Possible(Init(n), events)
    ensures var s := Run(Init(n), events);
            && (s.core0.Done? ==> s.exitCore0 && s.core1 == Ended && 1 <= s.core0.result <= n)
            && s.irqCount <= n
            && (Final(s) || exists e: Event :: Enabled(s, e))
            && |events| <= 10 * n + 18
  {
    hide Possible, Run;
    RunKeepsInv(Init(n), events, n);
    var s := Run(Init(n), events);
    WorkIsPositive(s, n);
    if !Final(s) {
      NeverStuck(s, n);
    }
  }

  /** And every count in between is reported by some run: the rings before core 1 listens are heard as one. */
  lemma EveryCountIsPossible(n: nat, m: nat) returns (events: seq<Event>)
    requires 1 <= m <= n
    ensures Possible(Init(n), events) && Final(Run(Init(n), events)) && Run(Init(n), events).core0 == Done(m)
  {
    hide Possible, Run;
    var unheard := RingUnheard(Init(n), n - m);
    var s := Run(Init(n), unheard);
    Step(s, InstallIrq);
    var s1 := Apply(s, InstallIrq);
    var heard := CountRest(s1, m);
    var s2 := Run(s1, heard);
    var exit := ExitRun(s2);
    Join(s1, heard, exit);
    Join(s, [InstallIrq], heard + exit);
    Join(Init(n), unheard, [InstallIrq] + (heard + exit));
    events := unheard + ([InstallIrq] + (heard + exit));
  }

  /** Core 0 rings while core 1 has not yet installed its handler. */
  lemma {:induction false} RingUnheard(s: State, k: nat) returns (events: seq<Event>)
    requires s.core0.Ringing? && k < s.core0.left && s.core1 == Starting
    ensures Possible(s, events)
    ensures Run(s, events) == s.(core0 := Ringing(s.core0.left - k), counterBit := s.counterBit || k > 0)
    decreases k
  {
    if k == 0 {
      events := [];
    } else {
      var rest := RingUnheard(Apply(s, RingCounter), k - 1);
      Prepend(s, RingCounter, rest);
      events := [RingCounter] + rest;
    }
  }

  /** The exit doorbell goes out, core 1 leaves and rings back, and core 0 reports. */
  lemma ExitRun(s: State) returns (events: seq<Event>)
    requires s.core0 == RingingExit && s.core1 == Looping && s.irq == Out && !s.counterBit && !s.exitBit && !s.exitBit0
    ensures Possible(s, events) && Final(Run(s, events)) && Run(s, events).core0 == Done(s.irqCount)
  {
    var tail := [LeaveLoop, RingBack, PassWait];
    var handled := s.(core0 := Waiting, exitCore0 := true);
    var s1 := Apply(handled, LeaveLoop);
    var s2 := Apply(s1, RingBack);
    Step(s2, PassWait);
    Prepend(s1, RingBack, [PassWait]);
    Prepend(handled, LeaveLoop, [RingBack] + [PassWait]);
    var t1 := Apply(s, RingExit);
    var t2 := Apply(t1, EnterIrq);
    var t3 := Apply(t2, StepIrq);
    var t4 := Apply(t3, StepIrq);
    var t5 := Apply(t4, StepIrq);
    assert Apply(t5, StepIrq) == handled;
    events := [LeaveLoop] + ([RingBack] + [PassWait]);
    Prepend(t5, StepIrq, events);
    Prepend(t4, StepIrq, [StepIrq] + events);
    Prepend(t3, StepIrq, [StepIrq] + ([StepIrq] + events));
    Prepend(t2, StepIrq, [StepIrq] + ([StepIrq] + ([StepIrq] + events)));
    Prepend(t1, EnterIrq, [StepIrq] + ([StepIrq] + ([StepIrq] + ([StepIrq] + events))));
    Prepend(s, RingExit, [EnterIrq] + ([StepIrq] + ([StepIrq] + ([StepIrq] + ([StepIrq] + events)))));
    events := [RingExit] + ([EnterIrq] + ([StepIrq] + ([StepIrq] + ([StepIrq] + ([StepIrq] + events)))));
  }

  lemma Step(s: State, e: Event)
    requires Enabled(s, e)
    ensures Possible(s, [e]) && Run(s, [e]) == Apply(s, e)
  {
    assert [e][1..] == [];
  }

  lemma {:induction false} Join(s: State, a: seq<Event>, b: seq<Event>)
    requires Possible(s, a) && Possible(Run(s, a), b)
    ensures Possible(s, a + b) && Run(s, a + b) == Run(Run(s, a), b)
    decreases |a|
  {
    hide Enabled, Apply;
    if a == [] {
      assert a + b == b;
    } else {
      Join(Apply(s, a[0]), a[1..], b);
      assert (a + b)[1..] == a[1..] + b;
    }
  }

  /** Every remaining ring is heard, together with the one that may be waiting. */
  lemma {:induction false} CountRest(s: State, left: nat) returns (events: seq<Event>)
    requires s.core1 == Looping && s.irq == Out && (left == 0 ==> !s.counterBit) && !s.exitBit
    requires s.core0 == (if left == 0 then RingingExit else Ringing(left))
    ensures Possible(s, events)
    ensures Run(s, events) == s.(core0 := RingingExit, counterBit := false, irqCount := s.irqCount + left)
    decreases left
  {
    if left == 0 {
      events := [];
    } else {
      var s1 := Apply(s, RingCounter);
      var s2 := Apply(s1, EnterIrq);
      var s3 := Apply(s2, StepIrq);
      var s4 := Apply(s3, StepIrq);
      var s5 := Apply(s4, StepIrq);
      var s6 := Apply(s5, StepIrq);
      var rest := CountRest(s6, left - 1);
      Prepend(s5, StepIrq, rest);
      Prepend(s4, StepIrq, [StepIrq] + rest);
      Prepend(s3, StepIrq, [StepIrq] + ([StepIrq] + rest));
      Prepend(s2, StepIrq, [StepIrq] + ([StepIrq] + ([StepIrq] + rest)));
      Prepend(s1, EnterIrq, [StepIrq] + ([StepIrq] + ([StepIrq] + ([StepIrq] + rest))));
      Prepend(s, RingCounter, [EnterIrq] + ([StepIrq] + ([StepIrq] + ([StepIrq] + ([StepIrq] + rest)))));
      events := [RingCounter] + ([EnterIrq] + ([StepIrq] + ([StepIrq] + ([StepIrq] + ([StepIrq] + rest)))));
    }
  }

  lemma Prepend(s: State, e: Event, rest: seq<Event>)
    requires Enabled(s, e) && Possible(Apply(s, e), rest)
    ensures Possible(s, [e] + rest) && Run(s, [e] + rest) == Run(Apply(s, e), rest)
  {
    assert ([e] + rest)[1..] == rest;
  }
}
