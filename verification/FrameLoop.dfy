/** The frame loop of pio/ws2812/ws2812_parallel.c as a state machine: the main loop renders one of
    two buffers while DMA sends the other; a completion interrupt, a reset alarm and a semaphore
    decide when the next transfer may start. Every event is one atomic step. */
module FrameLoop {
  import opened BitPlanes

  /** Where the main loop is: rendering into states[current]; past the semaphore with so many
      fragment pointers written; past the write that triggers the transfer. */
  datatype Pc = Rendering | Acquired(filled: nat) | Started

  /** An entry of fragment_start. */
  datatype Fragment = Pointer(buffer: nat, index: nat) | Null

  /** Busy: about to send the given word of the given fragment. Done: the completion interrupt is raised. */
  datatype Dma = Idle | Busy(fragment: nat, word: nat, sent: seq<bv32>) | Done

  type Frame = seq<ValueBits>

  /** frames and shown record the frames handed to the DMA and the word streams it has sent. */
  datatype State = State(
    pc: Pc, current: nat, states: seq<Frame>, fragments: seq<Fragment>,
    permits: nat, alarm: nat, dma: Dma, frames: seq<Frame>, shown: seq<seq<bv32>>)

  datatype Event =
    | Write(index: nat, value: ValueBits)
    | Acquire
    | Fill
    | Trigger
    | Flip
    | Transfer
    | CompletionIrq(handle: nat)
    | Alarm

  function Init(states: seq<Frame>, fragments: seq<Fragment>): State {
    State(Rendering, 0, states, fragments, 1, 0, Idle, [], [])
  }

  predicate Enabled(s: State, e: Event) {
    match e
    case Write(k, _) => s.pc == Rendering && s.current < |s.states| && k < |s.states[s.current]|
    case Acquire => s.pc == Rendering && s.permits > 0
    case Fill => s.pc.Acquired? && s.pc.filled + 1 < |s.fragments|
    case Trigger => s.pc.Acquired? && s.pc.filled + 1 == |s.fragments| && s.current < |s.states|
    case Flip => s.pc == Started && s.current <= 1
    case Transfer => s.dma.Busy? && s.dma.fragment < |s.fragments| && ReadsValidWord(s)
    case CompletionIrq(handle) => s.dma == Done && handle != 0
    case Alarm => s.alarm != 0
  }

  predicate ReadsValidWord(s: State)
    requires s.dma.Busy? && s.dma.fragment < |s.fragments|
  {
    s.fragments[s.dma.fragment].Pointer? ==>
      var Pointer(b, i) := s.fragments[s.dma.fragment];
      b < |s.states| && i < |s.states[b]| && s.dma.word < 8
  }

  function Apply(s: State, e: Event): State
    requires Enabled(s, e)
  {
    match e
    case Write(k, v) => s.(states := s.states[s.current := Put(s.states[s.current], k, v)])
    case Acquire => s.(permits := s.permits - 1, pc := Acquired(0))
    case Fill => s.(fragments := s.fragments[s.pc.filled := Pointer(s.current, s.pc.filled)],
                      pc := Acquired(s.pc.filled + 1))
    case Trigger => s.(fragments := s.fragments[s.pc.filled := Null], dma := Busy(0, 0, []),
                       frames := s.frames + [s.states[s.current]], pc := Started)
    case Flip => s.(current := 1 - s.current, pc := Rendering)
    case Transfer => TransferWord(s)
    case CompletionIrq(handle) => s.(alarm := handle, dma := Idle)
    case Alarm => s.(alarm := 0, permits := Released(s.permits))
  }

  function Put(frame: Frame, k: nat, v: ValueBits): Frame
    requires k < |frame|
  {
    frame[..k] + [v] + frame[k + 1..]
  }

  /** sem_release on a semaphore with at most one permit. */
  function Released(permits: nat): nat {
    if permits < 1 then permits + 1 else permits
  }

  function TransferWord(s: State): State
    requires Enabled(s, Transfer)
  {
    match s.fragments[s.dma.fragment]
    case Null => s.(dma := Done, shown := s.shown + [s.dma.sent])
    case Pointer(b, i) =>
      var sent := s.dma.sent + [s.states[b][i][s.dma.word]];
      s.(dma := if s.dma.word + 1 < 8 then Busy(s.dma.fragment, s.dma.word + 1, sent)
                else Busy(s.dma.fragment + 1, 0, sent))
  }

  // ---------------------------------------------------------------------------------------
  // The invariant

  /** The words a frame consists of on the wire: the eight high planes of each value, in order. */
  function Image(frame: Frame): seq<bv32> {
    if frame == [] then [] else Image(frame[..|frame| - 1]) + frame[|frame| - 1][..8]
  }

  function Images(frames: seq<Frame>): seq<seq<bv32>> {
    seq(|frames|, k requires 0 <= k < |frames| => Image(frames[k]))
  }

  function Tokens(s: State): nat {
    s.permits + (if s.alarm != 0 then 1 else 0) + (if s.dma != Idle then 1 else 0) + (if s.pc.Acquired? then 1 else 0)
  }

  /** The buffer handed over last. */
  function Sent(s: State): int {
    if s.pc == Rendering then 1 - s.current else s.current
  }

  ghost predicate Shape(s: State, n: nat) {
    && s.current <= 1 && |s.states| == 2 && |s.states[0]| == n && |s.states[1]| == n
    && |s.fragments| == n + 1
    && (s.pc.Acquired? ==> s.pc.filled <= n)
  }

  ghost predicate PointsAt(fragments: seq<Fragment>, buffer: int, count: nat)
    requires count <= |fragments|
  {
    forall k :: 0 <= k < count ==> fragments[k] == Pointer(if buffer < 0 then 0 else buffer, k)
  }

  ghost predicate BusyInv(s: State, n: nat)
    requires Shape(s, n) && s.dma.Busy?
  {
    && PointsAt(s.fragments, Sent(s), n) && s.fragments[n] == Null
    && s.frames != [] && s.states[Sent(s)] == s.frames[|s.frames| - 1]
    && s.dma.fragment <= n && s.dma.word < 8 && (s.dma.fragment == n ==> s.dma.word == 0)
    && s.dma.sent == Image(s.states[Sent(s)][..s.dma.fragment])
         + (if s.dma.fragment < n then s.states[Sent(s)][s.dma.fragment][..s.dma.word] else [])
  }

  ghost predicate Inv(s: State, n: nat) {
    && Shape(s, n)
    && Tokens(s) == 1
    && (s.pc.Acquired? ==> PointsAt(s.fragments, s.current, s.pc.filled))
    && (s.dma.Busy? ==> BusyInv(s, n))
    && (s.pc == Started ==> s.frames != [])
    && (s.frames != [] && !s.pc.Acquired? ==> s.states[Sent(s)] == s.frames[|s.frames| - 1])
    && (s.frames != [] && s.pc.Acquired? ==> s.states[1 - s.current] == s.frames[|s.frames| - 1])
    && |s.shown| == |s.frames| - (if s.dma.Busy? then 1 else 0)
    && s.shown == Images(s.frames)[..|s.shown|]
  }

  lemma InitInv(states: seq<Frame>, fragments: seq<Fragment>, n: nat)
    requires |states| == 2 && |states[0]| == n && |states[1]| == n && |fragments| == n + 1
    ensures Inv(Init(states, fragments), n)
  {
  }

  lemma ImagesAppend(frames: seq<Frame>, frame: Frame)
    ensures Images(frames + [frame])[..|frames|] == Images(frames)
    ensures Images(frames + [frame])[|frames|] == Image(frame)
  {
  }

  lemma TransferKeepsInv(s: State, n: nat)
    requires Inv(s, n) && Enabled(s, Transfer)
    ensures Inv(Apply(s, Transfer), n)
  {
    var b := Sent(s);
    var frame := s.states[b];
    var Busy(f, w, sent) := s.dma;
    if f == n {
      assert frame[..n] == frame;
      assert sent == Image(frame);
      var images := Images(s.frames);
      assert images[|s.shown|] == Image(frame);
      assert images[..|s.shown| + 1] == images[..|s.shown|] + [sent];
    } else if w + 1 < 8 {
      assert frame[f][..w] + [frame[f][w]] == frame[f][..w + 1];
    } else {
      assert frame[f][..w] + [frame[f][w]] == frame[f][..8];
      assert frame[..f + 1][..f] == frame[..f];
      assert Image(frame[..f + 1]) == Image(frame[..f]) + frame[f][..8];
    }
  }

  lemma StepKeepsInv(s: State, e: Event, n: nat)
    requires Inv(s, n) && Enabled(s, e)
    ensures Inv(Apply(s, e), n)
  {
    hide Image;
    match e
    case Transfer => TransferKeepsInv(s, n);
    case Trigger =>
      ImagesAppend(s.frames, s.states[s.current]);
      EmptyImage(s.states[s.current]);
    case _ =>
  }

  /** Rendering rewrites states[current] only, as many Write events would. */
  lemma RenderingKeepsInv(s: State, states: seq<Frame>, n: nat)
    requires Inv(s, n) && s.pc == Rendering
    requires |states| == 2 && |states[s.current]| == n && states[1 - s.current] == s.states[1 - s.current]
    ensures Inv(s.(states := states), n)
  {
    hide Image;
  }

  lemma EmptyImage(frame: Frame)
    ensures Image(frame[..0]) == []
    ensures |frame| > 0 ==> frame[0][..0] == []
  {
  }

  // ---------------------------------------------------------------------------------------
  // Every run

  /** The events can happen one after the other, starting in s. */
  predicate Possible(s: State, events: seq<Event>)
    decreases |events|
  {
    events == [] || (Enabled(s, events[0]) && Possible(Apply(s, events[0]), events[1..]))
  }

  function Run(s: State, events: seq<Event>): State
    requires Possible(s, events)
    decreases |events|
  {
    if events == [] then s else Run(Apply(s, events[0]), events[1..])
  }

  lemma {:induction false} RunKeepsInv(s: State, events: seq<Event>, n: nat)
    requires Inv(s, n) && Possible(s, events)
    ensures Inv(Run(s, events), n)
    decreases |events|
  {
    hide Inv, Apply, Enabled;
    if events != [] {
      StepKeepsInv(s, events[0], n);
      RunKeepsInv(Apply(s, events[0]), events[1..], n);
    }
  }

  /** In every interleaving: between frames exactly one of semaphore permit, transfer (or its
      unserved interrupt) and reset delay is present; rendering never writes the buffer that is
      being sent; the fragment list is never written during a transfer; and what has been sent is
      exactly the frames handed over, complete and in order. */
  lemma FramesAreSentIntact(states: seq<Frame>, fragments: seq<Fragment>, n: nat, events: seq<Event>)
    requires |states| == 2 && |states[0]| == n && |states[1]| == n && |fragments| == n + 1
    requires Possible(Init(states, fragments), events)
    ensures var s := Run(Init(states, fragments), events);
            && (s.pc == Rendering ==>
                  s.permits + (if s.dma != Idle then 1 else 0) + (if s.alarm != 0 then 1 else 0) == 1)
            && |s.fragments| == n + 1 && s.current <= 1
            && (forall k, v :: Enabled(s, Write(k, v)) && s.dma.Busy? ==>
                  forall j :: 0 <= j < n ==> s.fragments[j] == Pointer(1 - s.current, j))
            && (s.dma.Busy? ==> !Enabled(s, Fill) && !Enabled(s, Trigger))
            && |s.frames| - 1 <= |s.shown| <= |s.frames|
            && s.shown == Images(s.frames[..|s.shown|])
  {
    hide Possible, Run, Image;
    InitInv(states, fragments, n);
    RunKeepsInv(Init(states, fragments), events, n);
    var s := Run(Init(states, fragments), events);
    assert Images(s.frames)[..|s.shown|] == Images(s.frames[..|s.shown|]);
  }

  /** No reachable state is stuck, whether or not more pixels are rendered. */
  lemma AlwaysProgress(s: State, n: nat)
    requires Inv(s, n)
    ensures Enabled(s, Acquire) || Enabled(s, Fill) || Enabled(s, Trigger) || Enabled(s, Flip)
         || Enabled(s, Transfer) || Enabled(s, CompletionIrq(1)) || Enabled(s, Alarm)
  {
  }

  /** How many steps the DMA, its interrupt and the alarm still have to take until the permit is back. */
  function Ahead(s: State, n: nat): int {
    match s.dma
    case Busy(fragment, word, _) => 8 * (n - fragment) - word + 3
    case Done => 2
    case Idle => if s.alarm != 0 then 1 else 0
  }

  /** While rendering, either the permit is there or exactly one of those steps can be taken, and brings it nearer. */
  lemma PermitComesBack(s: State, n: nat, handle: nat)
    requires Inv(s, n) && s.pc == Rendering && handle != 0
    ensures Ahead(s, n) >= 0 && (Ahead(s, n) == 0 <==> s.permits > 0)
    ensures Enabled(s, Transfer) <==> s.dma.Busy?
    ensures Enabled(s, CompletionIrq(handle)) <==> s.dma == Done
    ensures Enabled(s, Alarm) <==> s.permits == 0 && s.dma == Idle
    ensures Enabled(s, Transfer) ==> Ahead(Apply(s, Transfer), n) == Ahead(s, n) - 1
    ensures Enabled(s, CompletionIrq(handle)) ==> Ahead(Apply(s, CompletionIrq(handle)), n) == Ahead(s, n) - 1
    ensures Enabled(s, Alarm) ==> Ahead(Apply(s, Alarm), n) == Ahead(s, n) - 1
  {
    hide Image, Images;
  }

  // ---------------------------------------------------------------------------------------
  // Light

  function Last(frames: seq<Frame>, zero: Frame): Frame {
    if frames == [] then zero else frames[|frames| - 1]
  }

  /** What one round of the frame loop is asked to show. */
  datatype Request = Request(strips: seq<Strip>, brightness: nat)

  function Amount(request: Request, k: nat, i: nat): nat {
    Requested(request.strips, k, request.brightness, i)
  }

  /** frame shows the request on top of the frame before it. */
  ghost predicate DitheredFrame(frame: Frame, before: Frame, request: Request, n: nat) {
    |frame| == |before| == n
    && forall k, i :: 0 <= k < n && 0 <= i < 32 ==>
         Lane(frame[k], i) == Dithered(Lane(before[k], i), Amount(request, k, i))
  }

  ghost predicate DitheredRun(frames: seq<Frame>, requests: seq<Request>, zero: Frame, n: nat) {
    |frames| == |requests|
    && forall j :: 0 <= j < |frames| ==> DitheredFrame(frames[j], Last(frames[..j], zero), requests[j], n)
  }

  lemma DitheredAppend(frames: seq<Frame>, requests: seq<Request>, zero: Frame, n: nat, frame: Frame)
    requires |requests| == |frames| + 1 && DitheredRun(frames, requests[..|frames|], zero, n)
    requires DitheredFrame(frame, Last(frames, zero), requests[|frames|], n)
    ensures DitheredRun(frames + [frame], requests, zero, n)
  {
    hide DitheredFrame, Last;
    var all := frames + [frame];
    forall j | 0 <= j < |all|
      ensures DitheredFrame(all[j], Last(all[..j], zero), requests[j], n)
    {
      assert all[..j] == frames[..j];
      if j < |frames| {
        assert requests[..|frames|][j] == requests[j];
      } else {
        assert frames[..j] == frames;
      }
    }
  }

  /** What lane i of value k was asked for in each frame. */
  function Asked(requests: seq<Request>, k: nat, i: nat): (r: seq<nat>)
    ensures |r| == |requests|
  {
    seq(|requests|, j requires 0 <= j < |requests| => Amount(requests[j], k, i))
  }

  /** The light that lane i of value k gave off over the frames: the sum of the displayed 8-bit values. */
  function Light(frames: seq<Frame>, k: nat, i: nat): nat
    requires forall j :: 0 <= j < |frames| ==> k < |frames[j]|
  {
    if frames == [] then 0
    else Light(frames[..|frames| - 1], k, i) + Displayed(Lane(frames[|frames| - 1][k], i))
  }

  lemma {:induction false} LightIsTotal(frames: seq<Frame>, requests: seq<Request>, zero: Frame, n: nat, k: nat, i: nat)
    requires |zero| == n && k < n && i < 32 && Lane(zero[k], i) == 0
    requires DitheredRun(frames, requests, zero, n)
    ensures forall j :: 0 <= j < |frames| ==> |frames[j]| == n
    ensures Lane(Last(frames, zero)[k], i) == StateAfter(Asked(requests, k, i))
    ensures Light(frames, k, i) == TotalDisplayed(Asked(requests, k, i))
    decreases |frames|
  {
    hide Lane, Dithered, Displayed, Amount;
    FramesHaveSize(frames, requests, zero, n);
    if frames != [] {
      var m := |frames| - 1;
      ShorterRun(frames, requests, zero, n);
      LightIsTotal(frames[..m], requests[..m], zero, n, k, i);
      assert Asked(requests, k, i)[..m] == Asked(requests[..m], k, i);
    }
  }

  lemma FramesHaveSize(frames: seq<Frame>, requests: seq<Request>, zero: Frame, n: nat)
    requires DitheredRun(frames, requests, zero, n)
    ensures forall j :: 0 <= j < |frames| ==> |frames[j]| == n
  {
    hide Last;
    forall j | 0 <= j < |frames|
      ensures |frames[j]| == n
    {
      assert DitheredFrame(frames[j], Last(frames[..j], zero), requests[j], n);
    }
  }

  lemma ShorterRun(frames: seq<Frame>, requests: seq<Request>, zero: Frame, n: nat)
    requires frames != [] && DitheredRun(frames, requests, zero, n)
    ensures var m := |frames| - 1;
            && DitheredRun(frames[..m], requests[..m], zero, n)
            && DitheredFrame(frames[m], Last(frames[..m], zero), requests[m], n)
  {
    hide Last, DitheredFrame;
    var m := |frames| - 1;
    forall j | 0 <= j < m
      ensures DitheredFrame(frames[..m][j], Last(frames[..m][..j], zero), requests[..m][j], n)
    {
      assert frames[..m][..j] == frames[..j];
      assert DitheredFrame(frames[j], Last(frames[..j], zero), requests[j], n);
    }
  }

  /** From zeroed states, over any number of frames, every pixel value gives off exactly the light it was
      asked for, up to the residual still held and 4096 for everything that did not fit in twelve bits. It
      all fits if and only if no request does more than fill twelve bits on top of the residual before it,
      and with the shipped factors none does. */
  lemma LightIsConserved(frames: seq<Frame>, requests: seq<Request>, zero: Frame, n: nat, k: nat, i: nat)
    requires |zero| == n && k < n && i < 32 && Lane(zero[k], i) == 0
    requires DitheredRun(frames, requests, zero, n)
    ensures forall j :: 0 <= j < |frames| ==> |frames[j]| == n
    ensures var asked := Asked(requests, k, i);
            && 16 * Light(frames, k, i) + Lane(Last(frames, zero)[k], i) % 16 + 4096 * Lost(asked) == Sum(asked)
            && (Lost(asked) == 0 <==> forall j :: 0 <= j < |asked| ==> !Overflows(asked, j))
    ensures (forall j :: 0 <= j < |requests| ==> Shipped(requests[j].strips, requests[j].brightness))
      ==> Lost(Asked(requests, k, i)) == 0
  {
    hide Lane, Shipped, StateAfter, Overflows, Lost;
    LightIsTotal(frames, requests, zero, n, k, i);
    var asked := Asked(requests, k, i);
    BrightnessBalance(asked);
    NothingLost(asked);
    if forall j :: 0 <= j < |requests| ==> Shipped(requests[j].strips, requests[j].brightness) {
      forall j | 0 <= j < |asked|
        ensures asked[j] <= 4080
      {
        ShippedRequestsFit(requests[j].strips, k, requests[j].brightness, i);
      }
      SmallRequestsFit(asked);
    }
  }

  // ---------------------------------------------------------------------------------------
  // The light on the wire

  /** The eight words of value k in a stream: what lane i reads from them, most significant bit first. */
  function Received(words: seq<bv32>, k: nat, i: nat): nat
    requires 8 * k + 8 <= |words|
  {
    LaneOf(words[8 * k..8 * k + 8], i)
  }

  /** The words sent for a frame show, in every lane of every value, the displayed part of its state. */
  lemma {:induction false} ImageShowsLight(frame: Frame, k: nat, i: nat)
    requires k < |frame| && i < 32
    ensures |Image(frame)| == 8 * |frame| && Received(Image(frame), k, i) == Displayed(Lane(frame[k], i))
  {
    hide LaneOf, Lane;
    var m := |frame| - 1;
    var before, last := frame[..m], frame[m][..8];
    ImageLength(frame);
    ImageLength(before);
    var words := Image(before) + last;
    if k < m {
      ImageShowsLight(before, k, i);
      assert words[8 * k..8 * k + 8] == Image(before)[8 * k..8 * k + 8];
    } else {
      assert words[8 * k..8 * k + 8] == last;
      FractionOf(frame[m], i);
    }
  }

  lemma {:induction false} ImageLength(frame: Frame)
    ensures |Image(frame)| == 8 * |frame|
  {
    if frame != [] {
      ImageLength(frame[..|frame| - 1]);
    }
  }

  /** The light that lane i of value k receives over the streams. */
  function LightReceived(streams: seq<seq<bv32>>, k: nat, i: nat): nat
    requires forall j :: 0 <= j < |streams| ==> 8 * k + 8 <= |streams[j]|
  {
    if streams == [] then 0
    else LightReceived(streams[..|streams| - 1], k, i) + Received(streams[|streams| - 1], k, i)
  }

  lemma {:induction false} ImagesShowLight(frames: seq<Frame>, n: nat, k: nat, i: nat)
    requires k < n && i < 32 && forall j :: 0 <= j < |frames| ==> |frames[j]| == n
    ensures forall j :: 0 <= j < |frames| ==> |Images(frames)[j]| == 8 * n
    ensures LightReceived(Images(frames), k, i) == Light(frames, k, i)
    decreases |frames|
  {
    hide Image, Lane, Received;
    forall j | 0 <= j < |frames|
      ensures |Images(frames)[j]| == 8 * n
    {
      ImageLength(frames[j]);
    }
    if frames != [] {
      var m := |frames| - 1;
      ImagesShowLight(frames[..m], n, k, i);
      assert Images(frames)[..m] == Images(frames[..m]);
      ImageShowsLight(frames[m], k, i);
    }
  }
}
