/** The globals of pio/ws2812/ws2812_parallel.c and the code that updates them in place, proved to
    take the steps of FrameLoop's state machine. */
module StripDriver {
  import opened BitPlanes
  import opened FrameLoop

  class Driver {
    const n: nat
    const colors: array<ValueBits>
    const states0: array<ValueBits>
    const states1: array<ValueBits>
    const fragmentStart: array<Fragment>
    var current: nat
    var permits: nat         // reset_delay_complete_sem
    var alarmId: nat         // reset_delay_alarm_id, 0 for none
    var dma: Dma
    ghost var pc: Pc
    ghost var frames: seq<Frame>
    ghost var shown: seq<seq<bv32>>
    ghost var requests: seq<Request>
    ghost var rendered: bool // states[current] holds the frame for the last request

    ghost predicate Layout() {
      && colors.Length == states0.Length == states1.Length == n && fragmentStart.Length == n + 1
      && colors != states0 && colors != states1 && states0 != states1
    }

    ghost function View(): State
      reads this, states0, states1, fragmentStart
    {
      State(pc, current, [states0[..], states1[..]], fragmentStart[..], permits, alarmId, dma, frames, shown)
    }

    ghost function Zero(): Frame {
      seq(n, _ => NO_VALUE)
    }

    /** The state machine's invariant; and every frame handed over was dithered on top of the one before. */
    ghost predicate Valid()
      reads this, colors, states0, states1, fragmentStart
    {
      && Layout() && Inv(View(), n)
      && |requests| == |frames| + (if rendered then 1 else 0)
      && DitheredRun(frames, requests[..|frames|], Zero(), n)
      && (frames == [] && !pc.Acquired? ==> View().states[1 - current] == Zero())
      && (rendered ==>
            pc != Started && DitheredFrame(View().states[current], Last(frames, Zero()), requests[|frames|], n))
      && (pc.Acquired? ==> rendered)
    }

    /** The zeroed globals, after sem_init with one permit. */
    constructor (n: nat)
      ensures Valid() && this.n == n
      ensures View() == Init([Zero(), Zero()], View().fragments) && requests == []
    {
      this.n := n;
      colors := new ValueBits[n](_ => NO_VALUE);
      states0 := new ValueBits[n](_ => NO_VALUE);
      states1 := new ValueBits[n](_ => NO_VALUE);
      fragmentStart := new Fragment[n + 1](_ => Null);
      current, permits, alarmId, dma := 0, 1, 0, Idle;
      pc, frames, shown, requests, rendered := Rendering, [], [], [], false;
      new;
      assert states0[..] == Zero() && states1[..] == Zero();
    }

    /** transform_strips and dither_values, as the frame loop calls them. */
    method RenderFrame(strips: seq<Strip>, fracBrightness: nat)
      requires Valid() && pc == Rendering && !rendered
      requires |strips| <= 32 && fracBrightness < 0x1_0000_0000
      requires forall k :: 0 <= k < |strips| ==> strips[k].Valid()
      modifies colors, states0, states1, `requests, `rendered
      ensures Valid() && rendered
      ensures requests == old(requests) + [Request(strips, fracBrightness)]
      ensures forall v, i :: 0 <= v < n && 0 <= i < 32 ==> Lane(colors[v], i) == Wanted(strips, v, fracBrightness, i)
      ensures View() == old(View()).(states := View().states)
      ensures View().states[1 - current] == old(View()).states[1 - current]
    {
      hide Inv, DitheredRun, Last, Wanted, Lane, Dithered;
      ghost var before := View();
      LastIsOther(before, Zero(), n);
      TransformStrips(strips, colors, n, fracBrightness);
      var state := if current == 0 then states0 else states1;
      var oldState := if current == 0 then states1 else states0;
      DitherValues(colors, state, oldState, n);
      requests, rendered := requests + [Request(strips, fracBrightness)], true;
      assert requests[..|frames|] == old(requests) == old(requests)[..|frames|];
      assert View().states[1 - current] == before.states[1 - current] == oldState[..];
      RenderingKeepsInv(before, View().states, n);
      DitheredRequest(state[..], oldState[..], colors[..], Request(strips, fracBrightness), n);
      assert oldState[..] == Last(frames, Zero());
      assert View().states[current] == state[..];
    }

    /** sem_acquire_blocking, once it returns. */
    method AcquirePermit()
      requires Valid() && rendered && pc == Rendering && permits > 0
      modifies `permits, `pc
      ensures Valid() && View() == Apply(old(View()), Acquire) && pc == Acquired(0)
    {
      hide DitheredRun, DitheredFrame, Last, Image;
      StepKeepsInv(View(), Acquire, n);
      permits := permits - 1;
      pc := Acquired(0);
    }

    /** sem_acquire_blocking: the hardware moves on until the permit is there. */
    method AcquireBlocking()
      requires Valid() && rendered && pc == Rendering
      modifies this
      ensures Valid() && pc == Acquired(0) && rendered
      ensures current == old(current) && frames == old(frames) && requests == old(requests)
    {
      hide Inv, Apply, Enabled, Ahead, DitheredRun, DitheredFrame, Last;
      while permits == 0
        invariant Valid() && rendered && pc == Rendering
        invariant current == old(current) && frames == old(frames) && requests == old(requests)
        decreases Ahead(View(), n)
      {
        OneHardwareStep();
      }
      AcquirePermit();
    }

    method OneHardwareStep()
      requires Valid() && rendered && pc == Rendering && permits == 0
      modifies `dma, `alarmId, `permits, `shown
      ensures Valid() && 0 <= Ahead(View(), n) < Ahead(old(View()), n)
    {
      hide Inv, Apply, Ahead, DitheredRun, DitheredFrame, Last;
      var handle: nat := *;
      if handle == 0 {
        handle := 1;
      }
      PermitComesBack(View(), n, handle);
      match dma
      case Busy(_, _, _) => TransferOneWord();
      case Done => DmaCompleteHandler(handle);
      case Idle => ResetDelayComplete();
      PermitComesBack(View(), n, handle);
    }

    /** One round of the frame loop: exactly one more frame is handed over, dithered on top of the one before. */
    method ShowFrame(strips: seq<Strip>, fracBrightness: nat)
      requires Valid() && pc == Rendering && !rendered
      requires |strips| <= 32 && fracBrightness < 0x1_0000_0000
      requires forall k :: 0 <= k < |strips| ==> strips[k].Valid()
      modifies this, colors, states0, states1, fragmentStart
      ensures Valid() && pc == Rendering && !rendered && current == 1 - old(current)
      ensures requests == old(requests) + [Request(strips, fracBrightness)]
        && |frames| == |old(frames)| + 1 && old(frames) <= frames
      ensures forall v, i :: 0 <= v < n && 0 <= i < 32 ==> Lane(colors[v], i) == Wanted(strips, v, fracBrightness, i)
      ensures DitheredFrame(frames[|old(frames)|], Last(old(frames), Zero()), Request(strips, fracBrightness), n)
    {
      hide Inv, DitheredRun, DitheredFrame, Last, Wanted, Lane, Run, Possible, Apply;
      RenderFrame(strips, fracBrightness);
      AcquireBlocking();
      OutputStripsDma();
      FlipBuffers();
    }

    /** output_strips_dma: the fragment list, its terminator, and the write that starts the chain. */
    method OutputStripsDma()
      requires Valid() && pc == Acquired(0)
      modifies fragmentStart, `dma, `pc, `frames, `rendered
      ensures Valid()
      ensures Possible(old(View()), Handover(n)) && View() == Run(old(View()), Handover(n))
      ensures pc == Started && !rendered && frames == old(frames) + [View().states[current]]
    {
      hide Inv, DitheredRun, DitheredFrame, Last, Apply, Run, Possible, Enabled;
      ghost var start := View();
      FillFragments();
      ghost var before := View();
      EnabledAtEnd(before, n);
      StepKeepsInv(before, Trigger, n);
      OneMore(start, Fills(n), Trigger);
      fragmentStart[n] := Null;
      dma := Busy(0, 0, []);
      frames, pc, rendered := frames + [View().states[current]], Started, false;
      TriggerEffect(before, n);
      assert View().fragments == before.fragments[n := Null];
      assert View() == Apply(before, Trigger);
      DitheredAppend(before.frames, requests, Zero(), n, before.states[current]);
      assert requests[..|frames|] == requests;
    }

    method FillFragments()
      requires Valid() && pc == Acquired(0)
      modifies fragmentStart, `pc
      ensures Layout() && Inv(View(), n) && pc == Acquired(n)
      ensures Possible(old(View()), Fills(n)) && View() == Run(old(View()), Fills(n))
      ensures View() == old(View()).(pc := pc, fragments := View().fragments)
    {
      hide Inv, Apply, Run, Possible, Enabled;
      ghost var start := View();
      assert Possible(start, Fills(0)) && View() == Run(start, Fills(0)) by {
        NoEvents(start);
      }
      var i := 0;
      while i < n
        invariant 0 <= i <= n
        invariant unchanged(states0) && unchanged(states1)
        invariant Layout() && Inv(View(), n) && pc == Acquired(i)
        invariant Possible(start, Fills(i)) && View() == Run(start, Fills(i))
        invariant View() == start.(pc := pc, fragments := View().fragments)
      {
        ghost var before := View();
        FillEffect(before, n);
        StepKeepsInv(before, Fill, n);
        OneMore(start, Fills(i), Fill);
        fragmentStart[i] := Pointer(current, i);
        pc := Acquired(i + 1);
        i := i + 1;
        assert View().fragments == before.fragments[i - 1 := Pointer(current, i - 1)];
      }
    }

    /** The buffer just handed over is left to the DMA; the other one is rendered next. */
    method FlipBuffers()
      requires Valid() && pc == Started
      modifies `current, `pc
      ensures Valid() && View() == Apply(old(View()), Flip) && pc == Rendering && current == 1 - old(current)
    {
      hide DitheredRun, DitheredFrame, Last, Image;
      StepKeepsInv(View(), Flip, n);
      current := 1 - current;
      pc := Rendering;
    }

    /** dma_complete_handler; handle is what add_alarm_in_us returns. */
    method DmaCompleteHandler(handle: nat)
      requires Valid() && dma == Done && handle != 0
      modifies `dma, `alarmId
      ensures Valid() && View() == Apply(old(View()), CompletionIrq(handle))
    {
      hide DitheredRun, DitheredFrame, Last, Image;
      StepKeepsInv(View(), CompletionIrq(handle), n);
      dma := Idle;
      CancelAlarm();
      alarmId := handle;
    }

    method CancelAlarm()
      modifies `alarmId
      ensures alarmId == 0
    {
      if alarmId != 0 {
        alarmId := 0;
      }
    }

    /** reset_delay_complete */
    method ResetDelayComplete()
      requires Valid() && alarmId != 0
      modifies `alarmId, `permits
      ensures Valid() && View() == Apply(old(View()), Alarm)
    {
      hide DitheredRun, DitheredFrame, Last, Image;
      StepKeepsInv(View(), Alarm, n);
      alarmId := 0;
      if permits < 1 {
        permits := permits + 1;
      }
    }

    /** The DMA engine: one word to the state machine's FIFO, or the null pointer that ends the chain. */
    method TransferOneWord()
      requires Valid() && dma.Busy?
      modifies `dma, `shown
      ensures Valid() && Enabled(old(View()), Transfer) && View() == Apply(old(View()), Transfer)
    {
      hide DitheredRun, DitheredFrame, Last, Image;
      StepKeepsInv(View(), Transfer, n);
      match fragmentStart[dma.fragment]
      case Null =>
        shown := shown + [dma.sent];
        dma := Done;
      case Pointer(buffer, index) =>
        var state := if buffer == 0 then states0 else states1;
        var sent := dma.sent + [state[index][dma.word]];
        dma := if dma.word + 1 < 8 then Busy(dma.fragment, dma.word + 1, sent) else Busy(dma.fragment + 1, 0, sent);
    }

    /** Whatever was asked for so far has been, or is being, given off. */
    lemma LightSoFar(k: nat, i: nat)
      requires Valid() && k < n && i < 32
      ensures forall j :: 0 <= j < |frames| ==> |frames[j]| == n
      ensures var asked := Asked(requests[..|frames|], k, i);
              && 16 * Light(frames, k, i) + Lane(Last(frames, Zero())[k], i) % 16 + 4096 * Lost(asked) == Sum(asked)
              && (Lost(asked) == 0 <==> forall j :: 0 <= j < |asked| ==> !Overflows(asked, j))
              && ((forall j :: 0 <= j < |frames| ==> Shipped(requests[j].strips, requests[j].brightness))
                   ==> Lost(asked) == 0)
    {
      hide Inv, DitheredRun, DitheredFrame, Last, Lane, Lost, Overflows, Shipped, Light, Asked;
      BlankLanes();
      LightIsConserved(frames, requests[..|frames|], Zero(), n, k, i);
      assert forall j :: 0 <= j < |frames| ==> requests[..|frames|][j] == requests[j];
    }

    /** And that light is what a strip reads from the words on its wire, once they have all been sent. */
    lemma LightOnWire(k: nat, i: nat)
      requires Valid() && k < n && i < 32 && !dma.Busy?
      ensures |shown| == |frames| && forall j :: 0 <= j < |shown| ==> |shown[j]| == 8 * n
      ensures var asked := Asked(requests[..|frames|], k, i);
              16 * LightReceived(shown, k, i) + Lane(Last(frames, Zero())[k], i) % 16 + 4096 * Lost(asked) == Sum(asked)
    {
      hide DitheredRun, DitheredFrame, Last, Lane, Lost, Overflows, Shipped, Light, Asked, Image;
      LightSoFar(k, i);
      ImagesShowLight(frames, n, k, i);
      assert shown == Images(frames);
    }
  }

  /** Dithering the stored colours is dithering what was requested. */
  lemma DitheredRequest(frame: Frame, before: Frame, colors: Frame, request: Request, n: nat)
    requires |frame| == |before| == |colors| == n
    requires forall v, i :: 0 <= v < n && 0 <= i < 32 ==>
      Lane(frame[v], i) == Dithered(Lane(before[v], i), Lane(colors[v], i))
    requires forall v, i :: 0 <= v < n && 0 <= i < 32 ==>
      Lane(colors[v], i) == Wanted(request.strips, v, request.brightness, i)
    ensures DitheredFrame(frame, before, request, n)
  {
    hide Lane, Dithered, Wanted, Requested;
    forall v, i | 0 <= v < n && 0 <= i < 32
      ensures Lane(frame[v], i) == Dithered(Lane(before[v], i), Amount(request, v, i))
    {
      WantedIsRequested(request.strips, v, request.brightness, i);
      DitheredModulo(Lane(before[v], i), Amount(request, v, i));
    }
  }

  ghost function Fills(k: nat): seq<Event> {
    seq(k, _ => Fill)
  }

  ghost function Handover(n: nat): seq<Event> {
    Fills(n) + [Trigger]
  }

  /** A run may be extended by any event that is enabled at its end. */
  lemma {:induction false} OneMore(s: State, events: seq<Event>, e: Event)
    requires Possible(s, events) && Enabled(Run(s, events), e)
    ensures Possible(s, events + [e]) && Run(s, events + [e]) == Apply(Run(s, events), e)
    ensures forall k: nat :: events == Fills(k) && e == Fill ==> events + [e] == Fills(k + 1)
    decreases |events|
  {
    hide Apply, Enabled;
    if events == [] {
      assert events + [e] == [e];
      assert Possible(Apply(s, e), []);
    } else {
      OneMore(Apply(s, events[0]), events[1..], e);
      assert (events + [e])[1..] == events[1..] + [e];
    }
    forall k: nat | events == Fills(k) && e == Fill
      ensures events + [e] == Fills(k + 1)
    {
    }
  }

  lemma NoEvents(s: State)
    ensures Possible(s, Fills(0)) && Run(s, Fills(0)) == s
  {
  }

  lemma FillEffect(s: State, n: nat)
    requires Inv(s, n) && s.pc.Acquired? && s.pc.filled < n
    ensures Enabled(s, Fill)
    ensures Apply(s, Fill) == s.(pc := Acquired(s.pc.filled + 1),
                                 fragments := s.fragments[s.pc.filled := Pointer(s.current, s.pc.filled)])
  {
  }

  lemma EnabledAtEnd(s: State, n: nat)
    requires Inv(s, n) && s.pc == Acquired(n)
    ensures Enabled(s, Trigger) && s.current <= 1 && |s.states| == 2 && |s.fragments| == n + 1
  {
  }

  lemma TriggerEffect(s: State, n: nat)
    requires Enabled(s, Trigger) && s.pc == Acquired(n)
    ensures Apply(s, Trigger) == s.(fragments := s.fragments[n := Null], dma := Busy(0, 0, []),
                                    frames := s.frames + [s.states[s.current]], pc := Started)
  {
  }

  /** While rendering, the other buffer holds the frame handed over last. */
  lemma LastIsOther(s: State, zero: Frame, n: nat)
    requires Inv(s, n) && s.pc == Rendering
    ensures |s.states| == 2 && s.current <= 1
    ensures s.frames == [] || s.states[1 - s.current] == Last(s.frames, zero)
    ensures s.frames == [] ==> Last(s.frames, zero) == zero
  {
  }
}
