/** The blocking transfers of pio/spi/pio_spi.c: a CPU loop that keeps a transmit FIFO filled and a
    receive FIFO drained, against a device that takes a byte, shifts, and delivers its response,
    stalling while the receive FIFO is full. */
module SpiPump {

  type Byte = bv8

  /** The device's answer to each byte may depend on everything it has been sent. */
  type Response = seq<Byte> -> Byte

  /** The answers to `bytes`, sent after `history`. */
  function Responses(respond: Response, history: seq<Byte>, bytes: seq<Byte>): (r: seq<Byte>)
    ensures |r| == |bytes|
  {
    seq(|bytes|, k requires 0 <= k < |bytes| => respond(history + bytes[..k + 1]))
  }

  lemma ResponsesAppend(respond: Response, history: seq<Byte>, bytes: seq<Byte>, b: Byte)
    ensures Responses(respond, history, bytes + [b])
         == Responses(respond, history, bytes) + [respond(history + (bytes + [b]))]
  {
    var all := bytes + [b];
    var expected := Responses(respond, history, bytes) + [respond(history + (bytes + [b]))];
    forall k | 0 <= k < |all|
      ensures Responses(respond, history, all)[k] == expected[k]
    {
      assert all[..k + 1] == if k < |bytes| then bytes[..k + 1] else all;
    }
  }

  lemma ResponsesPrefix(respond: Response, history: seq<Byte>, bytes: seq<Byte>, n: nat)
    requires n <= |bytes|
    ensures Responses(respond, history, bytes)[..n] == Responses(respond, history, bytes[..n])
  {
    forall k | 0 <= k < n
      ensures Responses(respond, history, bytes)[k] == Responses(respond, history, bytes[..n])[k]
    {
      assert bytes[..n][..k + 1] == bytes[..k + 1];
    }
  }

  /** With the data lines looped back every answer is the byte itself. */
  lemma Loopback(respond: Response, history: seq<Byte>, bytes: seq<Byte>)
    requires forall h: seq<Byte> :: |h| > 0 ==> respond(h) == h[|h| - 1]
    ensures Responses(respond, history, bytes) == bytes
  {
  }

  // ---------------------------------------------------------------------------------------
  // Every interleaving, step by step

  /** The loop's counters, the FIFOs, the response being shifted (if any), and what went through. */
  datatype State = State(txRemain: nat, rxRemain: nat, txFifo: seq<Byte>, rxFifo: seq<Byte>, shifting: seq<Byte>,
                         taken: seq<Byte>, dst: seq<Byte>)

  datatype Event = CpuWrite | CpuRead | DeviceTake | DeviceDeliver

  /** The bytes to send, the FIFO depths, and the device. */
  datatype Setup = Setup(src: seq<Byte>, txDepth: nat, rxDepth: nat, respond: Response)

  function Init(c: Setup): State {
    State(|c.src|, |c.src|, [], [], [], [], [])
  }

  predicate Enabled(c: Setup, s: State, e: Event) {
    match e
    case CpuWrite => 0 < s.txRemain <= |c.src| && |s.txFifo| < c.txDepth
    case CpuRead => s.rxRemain > 0 && s.rxFifo != []
    case DeviceTake => s.shifting == [] && s.txFifo != []
    case DeviceDeliver => s.shifting != [] && |s.rxFifo| < c.rxDepth
  }

  function Apply(c: Setup, s: State, e: Event): State
    requires Enabled(c, s, e)
  {
    match e
    case CpuWrite => s.(txFifo := s.txFifo + [c.src[|c.src| - s.txRemain]], txRemain := s.txRemain - 1)
    case CpuRead => s.(dst := s.dst + [s.rxFifo[0]], rxFifo := s.rxFifo[1..], rxRemain := s.rxRemain - 1)
    case DeviceTake =>
      var taken := s.taken + [s.txFifo[0]];
      s.(taken := taken, txFifo := s.txFifo[1..], shifting := [c.respond(taken)])
    case DeviceDeliver => s.(rxFifo := s.rxFifo + s.shifting, shifting := [])
  }

  ghost predicate Inv(c: Setup, s: State) {
    && s.txRemain <= |c.src| && s.rxRemain <= |c.src|
    && s.taken + s.txFifo == c.src[..|c.src| - s.txRemain]
    && s.dst + s.rxFifo + s.shifting == Responses(c.respond, [], s.taken)
    && |s.dst| == |c.src| - s.rxRemain
    && |s.txFifo| <= c.txDepth && |s.rxFifo| <= c.rxDepth && |s.shifting| <= 1
  }

  lemma StepKeepsInv(c: Setup, s: State, e: Event)
    requires Inv(c, s) && Enabled(c, s, e)
    ensures Inv(c, Apply(c, s, e))
  {
    hide Responses;
    match e
    case CpuWrite =>
      var n := |c.src| - s.txRemain;
      assert c.src[..n] + [c.src[n]] == c.src[..n + 1];
      assert s.taken + (s.txFifo + [c.src[n]]) == (s.taken + s.txFifo) + [c.src[n]];
    case CpuRead =>
      assert s.dst + [s.rxFifo[0]] + s.rxFifo[1..] + s.shifting == s.dst + s.rxFifo + s.shifting;
    case DeviceTake => TakeKeepsInv(c, s);
    case DeviceDeliver =>
      assert s.dst + (s.rxFifo + s.shifting) + [] == s.dst + s.rxFifo + s.shifting;
  }

  lemma TakeKeepsInv(c: Setup, s: State)
    requires Inv(c, s) && Enabled(c, s, DeviceTake)
    ensures Inv(c, Apply(c, s, DeviceTake))
  {
    hide Responses;
    ResponsesAppend(c.respond, [], s.taken, s.txFifo[0]);
    var taken := s.taken + [s.txFifo[0]];
    assert [] + taken == taken;
    assert s.dst + s.rxFifo + [] == s.dst + s.rxFifo;
    assert taken + s.txFifo[1..] == s.taken + s.txFifo;
  }

  predicate Finished(s: State) {
    s.txRemain == 0 && s.rxRemain == 0
  }

  /** As long as the loop has not finished, the CPU or the device can move. */
  lemma NeverStuck(c: Setup, s: State)
    requires Inv(c, s) && c.txDepth > 0 && c.rxDepth > 0 && !Finished(s)
    ensures exists e: Event :: Enabled(c, s, e)
  {
    if s.txRemain > 0 && s.txFifo == [] {
      assert Enabled(c, s, CpuWrite);
    } else if s.txFifo != [] && s.shifting == [] {
      assert Enabled(c, s, DeviceTake);
    } else if s.rxFifo != [] {
      assert |s.dst| < |c.src|;
      assert Enabled(c, s, CpuRead);
    } else {
      assert Enabled(c, s, DeviceDeliver);
    }
  }

  /** Every byte moves four times: into the FIFO, into the device, out of it, and into memory. */
  function Work(s: State): nat {
    4 * s.txRemain + 3 * |s.txFifo| + 2 * |s.shifting| + |s.rxFifo|
  }

  lemma StepIsWork(c: Setup, s: State, e: Event)
    requires Inv(c, s) && Enabled(c, s, e)
    ensures Work(Apply(c, s, e)) == Work(s) - 1
  {
  }

  predicate Possible(c: Setup, s: State, events: seq<Event>)
    decreases |events|
  {
    events == [] || (Enabled(c, s, events[0]) && Possible(c, Apply(c, s, events[0]), events[1..]))
  }

  function Run(c: Setup, s: State, events: seq<Event>): State
    requires Possible(c, s, events)
    decreases |events|
  {
    if events == [] then s else Run(c, Apply(c, s, events[0]), events[1..])
  }

  lemma {:induction false} RunKeepsInv(c: Setup, s: State, events: seq<Event>)
    requires Inv(c, s) && Possible(c, s, events)
    ensures Inv(c, Run(c, s, events)) && |events| + Work(Run(c, s, events)) == Work(s)
    decreases |events|
  {
    hide Inv, Enabled, Apply, Work;
    if events != [] {
      StepIsWork(c, s, events[0]);
      StepKeepsInv(c, s, events[0]);
      RunKeepsInv(c, Apply(c, s, events[0]), events[1..]);
    }
  }

  /** Every interleaving keeps within the FIFO depths, loses, repeats and reorders nothing, can be
      continued until the loop is done, and is done after exactly four moves per byte. */
  lemma TransferIsExact(c: Setup, events: seq<Event>)
    requires c.txDepth > 0 && c.rxDepth > 0 && Possible(c, Init(c), events)
    ensures var s := Run(c, Init(c), events);
            && |s.txFifo| <= c.txDepth && |s.rxFifo| <= c.rxDepth
            && s.taken <= c.src && s.dst <= Responses(c.respond, [], c.src)
            && (Finished(s) <==> |events| == 4 * |c.src|)
            && (Finished(s) ==> s.dst == Responses(c.respond, [], c.src) && s.txFifo == s.rxFifo == s.shifting == [])
            && (!Finished(s) ==> exists e: Event :: Enabled(c, s, e))
  {
    hide Responses, Possible, Run;
    RunKeepsInv(c, Init(c), events);
    var s := Run(c, Init(c), events);
    var n := |s.taken|;
    assert s.taken == c.src[..n];
    ResponsesPrefix(c.respond, [], c.src, n);
    assert c.src[..|c.src|] == c.src;
    assert s.dst <= Responses(c.respond, [], s.taken) <= Responses(c.respond, [], c.src);
    if !Finished(s) {
      NeverStuck(c, s);
    }
  }

  // ---------------------------------------------------------------------------------------
  // The code

  /** The state machine: its FIFOs and the byte it is shifting. */
  class Pio {
    const txDepth: nat
    const rxDepth: nat
    const respond: Response
    var txFifo: seq<Byte>
    var rxFifo: seq<Byte>
    var shifting: seq<Byte>
    ghost var written: seq<Byte>
    var taken: seq<Byte>
    ghost var read: seq<Byte>

    ghost predicate Valid()
      reads this
    {
      && txDepth > 0 && rxDepth > 0
      && written == taken + txFifo
      && read + rxFifo + shifting == Responses(respond, [], taken)
      && |txFifo| <= txDepth && |rxFifo| <= rxDepth && |shifting| <= 1
    }

    ghost predicate Idle()
      reads this
    {
      txFifo == rxFifo == shifting == []
    }

    predicate CanMove()
      reads this
    {
      if shifting == [] then txFifo != [] else |rxFifo| < rxDepth
    }

    ghost function Pending(): nat
      reads this
    {
      3 * |txFifo| + 2 * |shifting| + |rxFifo|
    }

    constructor (txDepth: nat, rxDepth: nat, respond: Response)
      requires txDepth > 0 && rxDepth > 0
      ensures Valid() && Idle() && written == []
      ensures this.txDepth == txDepth && this.rxDepth == rxDepth && this.respond == respond
    {
      this.txDepth, this.rxDepth, this.respond := txDepth, rxDepth, respond;
      txFifo, rxFifo, shifting, written, taken, read := [], [], [], [], [], [];
    }

    method Put(b: Byte)
      requires Valid() && |txFifo| < txDepth
      modifies `txFifo, `written
      ensures Valid() && written == old(written) + [b] && Pending() == old(Pending()) + 3
    {
      txFifo, written := txFifo + [b], written + [b];
    }

    method Get() returns (b: Byte)
      requires Valid() && rxFifo != []
      modifies `rxFifo, `read
      ensures Valid() && read == old(read) + [b] && Pending() == old(Pending()) - 1
    {
      b := rxFifo[0];
      rxFifo, read := rxFifo[1..], read + [b];
    }

    method Move()
      requires Valid() && CanMove()
      modifies `txFifo, `rxFifo, `shifting, `taken
      ensures Valid() && Pending() == old(Pending()) - 1
    {
      hide Responses;
      if shifting == [] {
        ResponsesAppend(respond, [], taken, txFifo[0]);
        assert [] + (taken + [txFifo[0]]) == taken + [txFifo[0]];
        assert read + rxFifo + [] == read + rxFifo;
        taken := taken + [txFifo[0]];
        shifting := [respond(taken)];
        txFifo := txFifo[1..];
      } else {
        rxFifo, shifting := rxFifo + shifting, [];
      }
    }

    /** The device makes any number of moves, but at least `least` unless it has to wait for the CPU. */
    method Proceed(least: nat)
      requires Valid()
      modifies `txFifo, `rxFifo, `shifting, `taken
      ensures Valid() && Pending() <= old(Pending())
      ensures Pending() == old(Pending()) ==> unchanged(`txFifo) && unchanged(`rxFifo) && unchanged(`shifting)
      ensures least > 0 && old(CanMove()) ==> Pending() < old(Pending())
    {
      hide Responses;
      var moves: nat := *;
      if moves < least {
        moves := least;
      }
      ghost var before := Pending();
      while moves > 0 && CanMove()
        invariant Valid() && Pending() <= before
        invariant Pending() < before || (unchanged(`txFifo) && unchanged(`rxFifo) && unchanged(`shifting))
        invariant Pending() < before || moves > 0 || least == 0
        decreases moves
      {
        Move();
        moves := moves - 1;
      }
    }
  }

  /** The answers to what has been written since a point where the device was idle. */
  lemma AnswersSince(respond: Response, history: seq<Byte>, bytes: seq<Byte>, got: seq<Byte>)
    requires Responses(respond, [], history) + got == Responses(respond, [], history + bytes)
    ensures got == Responses(respond, history, bytes)
  {
    var all := history + bytes;
    forall k | 0 <= k < |bytes|
      ensures got[k] == Responses(respond, history, bytes)[k]
    {
      var n := |history| + k;
      assert (Responses(respond, [], history) + got)[n] == Responses(respond, [], all)[n];
      assert [] + all[..n + 1] == history + bytes[..k + 1];
    }
  }

  /** The bytes still to be sent are those that src held at the start, also when answers overwrite it. */
  ghost predicate Unsent(src: array<Byte>, data: seq<Byte>, txRemain: nat)
    requires txRemain <= |data| <= src.Length
    reads src
  {
    forall k :: |data| - txRemain <= k < |data| ==> src[k] == data[k]
  }

  /** The first half of the loop body; data is what src held at the start. */
  method TrySend(pio: Pio, src: array<Byte>, len: nat, txRemain: nat,
                   ghost history: seq<Byte>, ghost data: seq<Byte>) returns (rest: nat)
    requires pio.Valid() && txRemain <= len == |data| <= src.Length && Unsent(src, data, txRemain)
    requires pio.written == history + data[..len - txRemain]
    modifies pio`txFifo, pio`written
    ensures pio.Valid() && rest <= len && pio.written == history + data[..len - rest]
    ensures if txRemain > 0 && |old(pio.txFifo)| < pio.txDepth
            then rest == txRemain - 1 && pio.Pending() == old(pio.Pending()) + 3
            else rest == txRemain && unchanged(pio)
  {
    hide Responses;
    rest := txRemain;
    if txRemain != 0 && |pio.txFifo| < pio.txDepth {
      pio.Put(src[len - txRemain]);
      rest := txRemain - 1;
      assert data[..len - rest] == data[..len - txRemain] + [data[len - txRemain]];
    }
  }

  /** The second half. */
  method TryReceive(pio: Pio, dst: array<Byte>, len: nat, rxRemain: nat, ghost answered: seq<Byte>) returns (rest: nat)
    requires pio.Valid() && rxRemain <= len <= dst.Length
    requires pio.read == answered + dst[..len - rxRemain]
    modifies pio`rxFifo, pio`read, dst
    ensures pio.Valid() && rest <= len && pio.read == answered + dst[..len - rest]
    ensures forall k :: len - rest <= k < dst.Length ==> dst[k] == old(dst[k])
    ensures if rxRemain > 0 && old(pio.rxFifo) != []
            then rest == rxRemain - 1 && pio.Pending() == old(pio.Pending()) - 1
            else rest == rxRemain && unchanged(pio) && unchanged(dst)
  {
    hide Responses;
    rest := rxRemain;
    if rxRemain != 0 && pio.rxFifo != [] {
      dst[len - rxRemain] := pio.Get();
      rest := rxRemain - 1;
      assert dst[..len - rest] == dst[..len - rxRemain] + [dst[len - rxRemain]];
    }
  }

  /** When the CPU can neither send nor receive and is not done, the device can move. */
  lemma DeviceCanMove(pio: Pio, len: nat, txRemain: nat, rxRemain: nat)
    requires pio.Valid() && txRemain <= len && rxRemain <= len && (txRemain != 0 || rxRemain != 0)
    requires len - txRemain == len - rxRemain + |pio.rxFifo| + |pio.shifting| + |pio.txFifo|
    requires txRemain == 0 || |pio.txFifo| >= pio.txDepth
    requires rxRemain == 0 || pio.rxFifo == []
    ensures pio.CanMove()
  {
  }

  /** One round of the loop, with the device moving in between; some byte moves. */
  method Round(pio: Pio, src: array<Byte>, dst: array<Byte>, len: nat, txRemain: nat, rxRemain: nat,
               ghost history: seq<Byte>, ghost answered: seq<Byte>, ghost data: seq<Byte>) returns (tx: nat, rx: nat)
    requires pio.Valid() && len == |data| <= src.Length && len <= dst.Length
    requires txRemain <= len && rxRemain <= len && (txRemain != 0 || rxRemain != 0)
    requires pio.written == history + data[..len - txRemain] && pio.read == answered + dst[..len - rxRemain]
    requires |answered| == |history| && Unsent(src, data, txRemain)
    modifies pio, dst
    ensures pio.Valid() && tx <= len && rx <= len
    ensures pio.written == history + data[..len - tx] && pio.read == answered + dst[..len - rx]
    ensures Unsent(src, data, tx) && forall k :: len <= k < dst.Length ==> dst[k] == old(dst[k])
    ensures 4 * tx + pio.Pending() < 4 * txRemain + old(pio.Pending())
  {
    hide Responses;
    hide Pio.Valid, Pio.CanMove;
    tx := TrySend(pio, src, len, txRemain, history, data);
    pio.Proceed(0);
    rx := TryReceive(pio, dst, len, rxRemain, answered);
    Counted(pio, history, len - tx, answered, len - rx);
    if tx == txRemain && rx == rxRemain && pio.Pending() == old(pio.Pending()) {
      DeviceCanMove(pio, len, tx, rx);
    }
    pio.Proceed(1);
  }

  /** pio_spi_write8_read8_blocking; between any two of its FIFO accesses the device may move. The
      answers may replace the bytes in place. */
  method Write8Read8Blocking(pio: Pio, src: array<Byte>, dst: array<Byte>, len: nat)
    requires pio.Valid() && pio.Idle() && len <= src.Length && len <= dst.Length
    modifies pio, dst
    ensures pio.Valid() && pio.Idle() && pio.written == old(pio.written) + old(src[..len])
    ensures dst[..len] == Responses(pio.respond, old(pio.written), old(src[..len])) && dst[len..] == old(dst[len..])
  {
    hide Responses;
    ghost var history, answered := pio.written, pio.read;
    assert answered == Responses(pio.respond, [], history) by {
      assert answered + [] + [] == answered && pio.taken + [] == pio.taken;
    }
    ghost var data := src[..len];
    var txRemain: nat, rxRemain: nat := len, len;
    while txRemain != 0 || rxRemain != 0
      invariant txRemain <= len && rxRemain <= len
      invariant pio.Valid() && pio.written == history + data[..len - txRemain] && Unsent(src, data, txRemain)
      invariant pio.read == answered + dst[..len - rxRemain]
      invariant forall k :: len <= k < dst.Length ==> dst[k] == old(dst[k])
      decreases 4 * txRemain + pio.Pending()
    {
      txRemain, rxRemain := Round(pio, src, dst, len, txRemain, rxRemain, history, answered, data);
    }
    assert data[..len] == data;
    Counted(pio, history, len, answered, len);
    assert pio.read + [] + [] == pio.read && pio.taken + [] == pio.taken;
    AnswersSince(pio.respond, history, data, dst[..len]);
  }

  /** No answer without a byte: the FIFO contents account for the difference between written and read. */
  lemma Counted(pio: Pio, history: seq<Byte>, sent: nat, answered: seq<Byte>, got: nat)
    requires pio.Valid() && |pio.written| == |history| + sent && |pio.read| == |answered| + got
      && |answered| == |history|
    ensures sent == got + |pio.rxFifo| + |pio.shifting| + |pio.txFifo|
  {
  }
}
