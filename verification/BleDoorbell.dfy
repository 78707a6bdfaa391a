/** The notification logic of bluetooth/ble_doorbell/server.c: a button interrupt changes the state
    and may only ask the Bluetooth stack to call back later; the stack's callbacks, which the
    interrupt can break into anywhere, request and send the notifications. */
module BleDoorbell {

  type Handle = nat

  /** Where the stack's context is: in no callback; in att_write_callback, before con_handle is set and
      before the final test; in att_server_notify, with the value it has read; in doorbell_notification_fn;
      or between a link's loss and the handler's reaction. */
  datatype Pc = Idle | Writing(handle: Handle) | Testing | Notifying(value: nat) | CallingBack | Disconnecting

  /** callbackQueued: doorbell_notification is on the main-thread list. requests: connections with a
      can-send-now request. last: the last value sent to each live connection. */
  datatype State = State(currentState: nat, enabled: bool, conHandle: Handle, pc: Pc, callbackQueued: bool,
                         requests: set<Handle>, links: set<Handle>, last: map<Handle, nat>)

  datatype Event =
    | ButtonIrq(fall: bool, rise: bool)
    | Connect(handle: Handle)
    | WriteConfig(handle: Handle, notify: bool)
    | SetHandle
    | TestEnabled
    | CanSendNow(handle: Handle)
    | Deliver
    | RunCallback
    | RequestFromCallback
    | LinkLost(handle: Handle)
    | DisconnectionComplete

  function Init(): State {
    State(0, false, 0, Idle, false, {}, {}, map[])
  }

  predicate Enabled(s: State, e: Event) {
    match e
    case ButtonIrq(_, _) => true
    case Connect(h) => s.pc == Idle && h !in s.links
    case WriteConfig(h, _) => s.pc == Idle && h in s.links
    case SetHandle => s.pc.Writing?
    case TestEnabled => s.pc == Testing
    case CanSendNow(h) => s.pc == Idle && h in s.requests
    case Deliver => s.pc.Notifying?
    case RunCallback => s.pc == Idle && s.callbackQueued
    case RequestFromCallback => s.pc == CallingBack
    case LinkLost(h) => s.pc == Idle && h in s.links
    case DisconnectionComplete => s.pc == Disconnecting
  }

  /** The level the button handler derives from the edges it is told about. */
  function NewState(fall: bool, rise: bool): nat {
    if rise then 0 else if fall then 1 else 0
  }

  /** button_irq_handler */
  function Pressed(s: State, level: nat): State {
    if s.currentState == level then s
    else s.(currentState := level, callbackQueued := s.callbackQueued || s.enabled)
  }

  /** att_server_request_can_send_now_event has an effect on a live connection only. */
  function Requested(s: State): State {
    if s.conHandle in s.links then s.(requests := s.requests + {s.conHandle}) else s
  }

  function Delivered(s: State, value: nat): State {
    if s.conHandle in s.links then s.(last := s.last[s.conHandle := value]) else s
  }

  function Apply(s: State, e: Event): State
    requires Enabled(s, e)
  {
    match e
    case ButtonIrq(fall, rise) => Pressed(s, NewState(fall, rise))
    case Connect(h) => s.(links := s.links + {h}, last := s.last - {h})
    case WriteConfig(h, notify) => s.(enabled := notify, pc := Writing(h))
    case SetHandle => s.(conHandle := s.pc.handle, pc := Testing)
    case TestEnabled => (if s.enabled then Requested(s) else s).(pc := Idle)
    case CanSendNow(h) => s.(requests := s.requests - {h}, pc := Notifying(s.currentState))
    case Deliver => Delivered(s, s.pc.value).(pc := Idle)
    case RunCallback => s.(callbackQueued := false, pc := CallingBack)
    case RequestFromCallback => Requested(s).(pc := Idle)
    case LinkLost(h) => s.(links := s.links - {h}, requests := s.requests - {h}, last := s.last - {h},
                            pc := Disconnecting)
    case DisconnectionComplete => s.(enabled := false, pc := Idle)
  }

  /** The subscriber knows the current state, or something is under way that will tell it. */
  predicate InSync(s: State) {
    s.callbackQueued || s.conHandle in s.requests || (s.conHandle in s.last && s.last[s.conHandle] == s.currentState)
  }

  predicate Inv(s: State) {
    && s.requests <= s.links
    && match s.pc
       case Idle => s.enabled ==> s.conHandle in s.links && InSync(s)
       case Writing(h) => h in s.links
       case Testing => s.conHandle in s.links
       case Notifying(v) =>
         s.enabled ==> s.conHandle in s.links && (v == s.currentState || s.callbackQueued || s.conHandle in s.requests)
       case CallingBack => s.enabled ==> s.conHandle in s.links
       case Disconnecting => true
  }

  lemma StepKeepsInv(s: State, e: Event)
    requires Inv(s) && Enabled(s, e)
    ensures Inv(Apply(s, e))
  {
  }

  predicate Possible(s: State, events: seq<Event>)
    decreases |events|
  {
    events == [] || (Enabled(s, events[0]) && Possible(Apply(s, events[0]), events[1..]))
  }

  function Run(s: State, events: seq<Event>): State
    requires Possible(s, events)
    decreases |events|
  {
    if events == [] then s else Run(Apply(s, events[0]), events[1..])
  }

  lemma {:induction false} RunKeepsInv(s: State, events: seq<Event>)
    requires Inv(s) && Possible(s, events)
    ensures Inv(Run(s, events))
    decreases |events|
  {
    hide Inv, Enabled, Apply;
    if events != [] {
      StepKeepsInv(s, events[0]);
      RunKeepsInv(Apply(s, events[0]), events[1..]);
    }
  }

  /** In every interleaving, whenever notifications are enabled and no callback is running, no callback is
      queued and no request is waiting for the subscriber, the last value it was sent is the current state. */
  lemma SubscriberIsUpToDate(events: seq<Event>)
    requires Possible(Init(), events)
    ensures var s := Run(Init(), events);
            s.enabled && s.pc == Idle && !s.callbackQueued && s.conHandle !in s.requests ==>
              s.conHandle in s.links && s.conHandle in s.last && s.last[s.conHandle] == s.currentState
  {
    hide Possible, Run;
    RunKeepsInv(Init(), events);
  }

  // ---------------------------------------------------------------------------------------
  // The button

  /** The pin's level, high or not, after the edges that the interrupts report: after both of them it is where
      it was. */
  function PinAfter(high: bool, events: seq<Event>): bool {
    if events == [] then high else
      var before := PinAfter(high, events[..|events| - 1]);
      match events[|events| - 1]
      case ButtonIrq(fall, rise) => if fall && rise then before else rise
      case _ => before
  }

  /** Every interrupt reports an edge, a falling one if the pin was high, a rising one if it was low. */
  ghost predicate RealEdges(high: bool, events: seq<Event>) {
    forall j :: 0 <= j < |events| && events[j].ButtonIrq? ==>
      if PinAfter(high, events[..j]) then events[j].fall else events[j].rise
  }

  /** The last interrupt reported both edges of a pin that stays low, the button being let go and pressed again. */
  predicate Missed(high: bool, events: seq<Event>) {
    events != [] &&
    match events[|events| - 1]
    case ButtonIrq(fall, rise) => fall && rise && !PinAfter(high, events)
    case _ => Missed(high, events[..|events| - 1])
  }

  lemma ApplyKeepsLevel(s: State, e: Event)
    requires Enabled(s, e)
    ensures Apply(s, e).currentState == match e
            case ButtonIrq(fall, rise) => if fall && !rise then 1 else 0
            case _ => s.currentState
  {
  }

  /** In every interleaving the state is 1 exactly if the pin is low, which the button pulls it to; except that
      it is 0 after an interrupt that reports both edges at once. */
  lemma {:induction false} StateIsButton(events: seq<Event>)
    requires Possible(Init(), events) && RealEdges(true, events)
    ensures Run(Init(), events).currentState == if PinAfter(true, events) || Missed(true, events) then 0 else 1
    decreases |events|
  {
    hide Apply, Enabled, Possible, Run;
    if events == [] {
      NoEvents();
    } else {
      var m := |events| - 1;
      var before, last := events[..m], events[m];
      SplitLast(Init(), events);
      ApplyKeepsLevel(Run(Init(), before), last);
      assert RealEdges(true, before) by {
        forall j | 0 <= j < m && before[j].ButtonIrq?
          ensures if PinAfter(true, before[..j]) then before[j].fall else before[j].rise
        {
          assert before[..j] == events[..j] && before[j] == events[j];
        }
      }
      StateIsButton(before);
      if last.ButtonIrq? {
        assert if PinAfter(true, events[..m]) then events[m].fall else events[m].rise;
      }
    }
  }

  lemma NoEvents()
    ensures Run(Init(), []) == Init()
  {
  }

  lemma {:induction false} SplitLast(s: State, events: seq<Event>)
    requires Possible(s, events) && events != []
    ensures var before, last := events[..|events| - 1], events[|events| - 1];
            Possible(s, before) && Enabled(Run(s, before), last) && Run(s, events) == Apply(Run(s, before), last)
    decreases |events|
  {
    hide Apply, Enabled;
    if |events| == 1 {
      assert events[1..] == [] && events[..0] == [];
    } else {
      SplitLast(Apply(s, events[0]), events[1..]);
      assert events[..|events| - 1][1..] == events[1..][..|events| - 2];
    }
  }

  /** So what the subscriber was sent last is 1 if the button is down, and 0 if it is up, unless both edges came
      with the last interrupt. */
  lemma SubscriberKnowsButton(events: seq<Event>)
    requires Possible(Init(), events) && RealEdges(true, events)
    ensures var s := Run(Init(), events);
            s.enabled && s.pc == Idle && !s.callbackQueued && s.conHandle !in s.requests ==>
              && s.conHandle in s.last
              && s.last[s.conHandle] == if PinAfter(true, events) || Missed(true, events) then 0 else 1
  {
    hide Possible, Run, PinAfter, Missed, RealEdges;
    SubscriberIsUpToDate(events);
    StateIsButton(events);
  }

  /** Pressed, let go and pressed again between two interrupts: the button is down, and the state is 0. */
  lemma BothEdgesMiss()
    ensures var events := [ButtonIrq(true, false), ButtonIrq(true, true)];
            && Possible(Init(), events) && RealEdges(true, events) && Missed(true, events)
            && !PinAfter(true, events) && Run(Init(), events).currentState == 0
  {
    var a, b := ButtonIrq(true, false), ButtonIrq(true, true);
    assert [a, b][..1] == [a] && [a][..0] == [] && [a, b][..0] == [];
    Unfold(Init(), a, [b]);
    Unfold(Apply(Init(), a), b, []);
    assert [a] + [b] == [a, b] && [b] + [] == [b];
    StateIsButton([a, b]);
  }

  // ---------------------------------------------------------------------------------------
  // Progress

  /** And it gets there: from any such moment on, unless the button moves again, the pending callback and
      then the pending request are all it takes. */
  lemma Settles(s: State) returns (events: seq<Event>)
    requires Inv(s) && s.enabled && s.pc == Idle
    ensures |events| <= 4 && Possible(s, events)
    ensures forall i :: 0 <= i < |events| ==>
      events[i] in {RunCallback, RequestFromCallback, CanSendNow(s.conHandle), Deliver}
    ensures var t := Run(s, events);
            t.enabled && t.pc == Idle && t.currentState == s.currentState && t.conHandle == s.conHandle
            && s.conHandle in t.last && t.last[s.conHandle] == s.currentState
  {
    var h := s.conHandle;
    if s.callbackQueued {
      var s1 := Apply(s, RunCallback);
      var s2 := Apply(s1, RequestFromCallback);
      var s3 := Apply(s2, CanSendNow(h));
      events := [RunCallback, RequestFromCallback, CanSendNow(h), Deliver];
      Unfold(s, RunCallback, [RequestFromCallback, CanSendNow(h), Deliver]);
      Unfold(s1, RequestFromCallback, [CanSendNow(h), Deliver]);
      Unfold(s2, CanSendNow(h), [Deliver]);
      Unfold(s3, Deliver, []);
    } else if h in s.requests {
      var s1 := Apply(s, CanSendNow(h));
      events := [CanSendNow(h), Deliver];
      Unfold(s, CanSendNow(h), [Deliver]);
      Unfold(s1, Deliver, []);
    } else {
      events := [];
    }
  }

  lemma Unfold(s: State, e: Event, rest: seq<Event>)
    requires Enabled(s, e)
    ensures Possible(s, [e] + rest) <==> Possible(Apply(s, e), rest)
    ensures Possible(s, [e] + rest) ==> Run(s, [e] + rest) == Run(Apply(s, e), rest)
  {
    assert ([e] + rest)[1..] == rest;
  }

  lemma {:induction false} OneMore(s: State, events: seq<Event>, e: Event)
    requires Possible(s, events) && Enabled(Run(s, events), e)
    ensures Possible(s, events + [e]) && Run(s, events + [e]) == Apply(Run(s, events), e)
    decreases |events|
  {
    hide Apply, Enabled;
    if events == [] {
      assert events + [e] == [e];
      assert Possible(Apply(s, e), []);
    } else {
      OneMore(Apply(s, events[0]), events[1..], e);
      assert (events + [e])[1..] == events[1..] + [e];
    }
  }

  // ---------------------------------------------------------------------------------------
  // The code

  /** The little-endian number of two bytes asks for notifications. */
  method IsNotification(low: bv8, high: bv8) returns (notify: bool)
    ensures notify == (low == 1 && high == 0)
  {
    notify := (low as int) + 256 * (high as int) == 1;
  }

  class Server {
    var leNotificationEnabled: bool
    var currentState: nat
    var conHandle: Handle
    var callbackQueued: bool
    var requests: set<Handle>
    var links: set<Handle>
    ghost var last: map<Handle, nat>
    ghost var pc: Pc
    ghost var history: seq<Event>

    ghost function View(): State
      reads this
    {
      State(currentState, leNotificationEnabled, conHandle, pc, callbackQueued, requests, links, last)
    }

    /** The state is where the events so far lead. */
    ghost predicate Valid()
      reads this
    {
      Possible(Init(), history) && View() == Run(Init(), history)
    }

    constructor ()
      ensures Valid() && View() == Init()
    {
      leNotificationEnabled, currentState, conHandle, callbackQueued := false, 0, 0, false;
      requests, links, last, pc, history := {}, {}, map[], Idle, [];
    }

    ghost method Record(before: State, e: Event)
      requires Possible(Init(), history) && before == Run(Init(), history) && Enabled(before, e)
        && View() == Apply(before, e)
      modifies `history
      ensures Valid() && history == old(history) + [e]
    {
      OneMore(Init(), history, e);
      history := history + [e];
    }

    method ButtonIrqHandler(fall: bool, rise: bool)
      requires Valid()
      modifies `currentState, `callbackQueued, `history
      ensures Valid() && history == old(history) + [ButtonIrq(fall, rise)]
    {
      hide Possible, Run;
      ghost var before := View();
      var newState := 0;
      if fall {
        newState := 1;
      }
      if rise {
        newState := 0;
      }
      if currentState != newState {
        currentState := newState;
        if leNotificationEnabled {
          callbackQueued := true;
        }
      }
      Record(before, ButtonIrq(fall, rise));
    }

    /** The interrupt may break in here, any number of times. */
    method Interrupts()
      requires Valid()
      modifies `currentState, `callbackQueued, `history
      ensures Valid() && old(history) <= history
    {
      hide Possible, Run;
      var times: nat := *;
      while times > 0
        invariant Valid() && old(history) <= history
        invariant unchanged(`leNotificationEnabled) && unchanged(`conHandle)
          && unchanged(`requests) && unchanged(`links) && unchanged(`last) && unchanged(`pc)
      {
        var fall: bool, rise: bool := *, *;
        ButtonIrqHandler(fall, rise);
        times := times - 1;
      }
    }

    /** The stack accepts a connection; the server has no code for it, but the connections that the other methods
        require come from here. */
    method ConnectionEvent(h: Handle)
      requires Valid() && pc == Idle && h !in links
      modifies `links, `last, `history
      ensures Valid() && links == old(links) + {h} && history == old(history) + [Connect(h)]
    {
      hide Possible, Run;
      ghost var before := View();
      links, last := links + {h}, last - {h};
      Record(before, Connect(h));
    }

    method RequestCanSendNowEvent()
      modifies `requests
      ensures View() == Requested(old(View()))
    {
      if conHandle in links {
        requests := requests + {conHandle};
      }
    }

    /** att_write_callback for the client configuration of the state characteristic, whose first two bytes are the
        number 1, low byte first, for notifications. */
    method AttWriteCallback(connectionHandle: Handle, buffer: seq<bv8>)
      requires Valid() && pc == Idle && connectionHandle in links && |buffer| >= 2
      modifies this
      ensures Valid() && pc == Idle && old(history) <= history
      ensures leNotificationEnabled == (buffer[0] == 1 && buffer[1] == 0)
      ensures conHandle == connectionHandle && links == old(links)
      ensures leNotificationEnabled ==> connectionHandle in requests
    {
      hide Possible, Run;
      ghost var before := View();
      var notify := IsNotification(buffer[0], buffer[1]);
      leNotificationEnabled := notify;
      pc := Writing(connectionHandle);
      Record(before, WriteConfig(connectionHandle, notify));
      Interrupts();
      before := View();
      conHandle := connectionHandle;
      pc := Testing;
      Record(before, SetHandle);
      Interrupts();
      before := View();
      if leNotificationEnabled {
        RequestCanSendNowEvent();
      }
      pc := Idle;
      Record(before, TestEnabled);
    }

    /** doorbell_notification_fn, called back on the main thread. */
    method DoorbellNotificationFn()
      requires Valid() && pc == Idle && callbackQueued
      modifies this
      ensures Valid() && pc == Idle && old(history) <= history && links == old(links) && conHandle == old(conHandle)
      ensures conHandle in links ==> conHandle in requests
    {
      hide Possible, Run;
      ghost var before := View();
      callbackQueued := false;
      pc := CallingBack;
      Record(before, RunCallback);
      Interrupts();
      before := View();
      RequestCanSendNowEvent();
      pc := Idle;
      Record(before, RequestFromCallback);
    }

    /** packet_handler for ATT_EVENT_CAN_SEND_NOW: att_server_notify copies the value and sends it. */
    method CanSendNowEvent(h: Handle)
      requires Valid() && pc == Idle && h in requests
      modifies this
      ensures Valid() && pc == Idle && old(history) <= history && links == old(links) && conHandle == old(conHandle)
      ensures conHandle in links ==> conHandle in last && last[conHandle] == old(currentState)
    {
      hide Possible, Run;
      ghost var before := View();
      requests := requests - {h};
      var value := currentState;
      pc := Notifying(value);
      Record(before, CanSendNow(h));
      Interrupts();
      before := View();
      if conHandle in links {
        last := last[conHandle := value];
      }
      pc := Idle;
      Record(before, Deliver);
    }

    /** packet_handler for HCI_EVENT_DISCONNECTION_COMPLETE, after the stack has dropped the link. */
    method DisconnectionCompleteEvent(h: Handle)
      requires Valid() && pc == Idle && h in links
      modifies this
      ensures Valid() && pc == Idle && old(history) <= history && links == old(links) - {h} && !leNotificationEnabled
    {
      hide Possible, Run;
      ghost var before := View();
      links, requests, last := links - {h}, requests - {h}, last - {h};
      pc := Disconnecting;
      Record(before, LinkLost(h));
      Interrupts();
      before := View();
      leNotificationEnabled := false;
      pc := Idle;
      Record(before, DisconnectionComplete);
    }
  }
}
