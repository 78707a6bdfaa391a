/** The 256-byte memory of i2c/slave_mem_i2c/slave_mem_i2c.c: the slave's event handler, and the
    master's write, seek and split read. */
module I2cSlave {

  newtype Byte = b: int | 0 <= b < 256

  const SIZE := 256

  /** The handler's context. */
  datatype Slave = Slave(mem: seq<Byte>, memAddress: nat, memAddressWritten: bool) {
    predicate Valid() {
      |mem| == SIZE && memAddress < SIZE
    }
  }

  /** Receive carries the byte that i2c_read_byte_raw returns. */
  datatype Event = Receive(byte: Byte) | Request | Finish

  function Apply(s: Slave, e: Event): (t: Slave)
    requires s.Valid()
    ensures t.Valid()
  {
    match e
    case Receive(b) =>
      if !s.memAddressWritten then s.(memAddress := b as int, memAddressWritten := true)
      else s.(mem := s.mem[s.memAddress := b], memAddress := (s.memAddress + 1) % SIZE)
    case Request => s.(memAddress := (s.memAddress + 1) % SIZE)
    case Finish => s.(memAddressWritten := false)
  }

  /** What i2c_write_byte_raw sends. */
  function Output(s: Slave, e: Event): seq<Byte>
    requires s.Valid()
  {
    if e == Request then [s.mem[s.memAddress]] else []
  }

  function Run(s: Slave, events: seq<Event>): (t: Slave)
    requires s.Valid()
    ensures t.Valid()
    decreases |events|
  {
    if events == [] then s else Run(Apply(s, events[0]), events[1..])
  }

  function Outputs(s: Slave, events: seq<Event>): seq<Byte>
    requires s.Valid()
    decreases |events|
  {
    if events == [] then [] else Output(s, events[0]) + Outputs(Apply(s, events[0]), events[1..])
  }

  lemma {:induction false} RunAppend(s: Slave, a: seq<Event>, b: seq<Event>)
    requires s.Valid()
    ensures Run(s, a + b) == Run(Run(s, a), b)
    ensures Outputs(s, a + b) == Outputs(s, a) + Outputs(Run(s, a), b)
    decreases |a|
  {
    hide Apply, Output;
    if a == [] {
      assert a + b == b;
    } else {
      RunAppend(Apply(s, a[0]), a[1..], b);
      assert (a + b)[1..] == a[1..] + b;
    }
  }

  // ---------------------------------------------------------------------------------------
  // Circular memory

  /** The cell that lies k cells after cell `from`, going round. */
  function Cell(from: nat, k: nat): (c: nat)
    ensures c < SIZE
  {
    (from + k) % SIZE
  }

  lemma CellOfCell(from: nat, m: nat, k: nat)
    ensures Cell(Cell(from, m), k) == Cell(from, m + k)
  {
  }

  lemma CellZero(from: nat)
    requires from < SIZE
    ensures Cell(from, 0) == from
  {
  }

  /** How far cell c lies behind cell `from`, going round. */
  function Distance(from: nat, c: nat): (d: nat)
    requires from < SIZE && c < SIZE
    ensures d < SIZE
  {
    (c + SIZE - from) % SIZE
  }

  function Write(mem: seq<Byte>, from: nat, data: seq<Byte>): (r: seq<Byte>)
    requires |mem| == SIZE && from < SIZE && |data| <= SIZE
    ensures |r| == SIZE
  {
    seq(SIZE, c requires 0 <= c < SIZE => if Distance(from, c) < |data| then data[Distance(from, c)] else mem[c])
  }

  function Read(mem: seq<Byte>, from: nat, count: nat): (r: seq<Byte>)
    requires |mem| == SIZE
    ensures |r| == count
  {
    seq(count, k requires 0 <= k < count => mem[Cell(from, k)])
  }

  /** Reading where one has written gives the data; every other cell keeps its value. */
  lemma ReadAfterWrite(mem: seq<Byte>, from: nat, data: seq<Byte>)
    requires |mem| == SIZE && from < SIZE && |data| <= SIZE
    ensures Read(Write(mem, from, data), from, |data|) == data
    ensures forall k :: 0 <= k < |data| ==> Write(mem, from, data)[(from + k) % 256] == data[k]
    ensures forall k :: 0 <= k < |data| ==> Read(mem, from, |data|)[k] == mem[(from + k) % 256]
    ensures forall c :: 0 <= c < SIZE && Distance(from, c) >= |data| ==> Write(mem, from, data)[c] == mem[c]
  {
    hide Distance, Cell;
    forall k | 0 <= k < |data|
      ensures Distance(from, Cell(from, k)) == k && Cell(from, k) == (from + k) % 256
    {
      DistanceOf(from, k, Cell(from, k));
      CellIs(from, k);
    }
  }

  lemma CellIs(from: nat, k: nat)
    ensures Cell(from, k) == (from + k) % 256
  {
  }

  // ---------------------------------------------------------------------------------------
  // Transactions

  function Receives(data: seq<Byte>): (events: seq<Event>)
    ensures |events| == |data|
  {
    seq(|data|, i requires 0 <= i < |data| => Receive(data[i]))
  }

  /** A write transfer: the address, the data, and Stop or Restart. */
  function WriteTransfer(from: Byte, data: seq<Byte>): seq<Event>
  {
    [Receive(from)] + Receives(data) + [Finish]
  }

  lemma {:induction false} StoreData(s: Slave, data: seq<Byte>)
    requires s.Valid() && s.memAddressWritten && |data| <= SIZE
    ensures var n := |data|;
            && Outputs(s, Receives(data)) == []
            && Run(s, Receives(data)) == Slave(Write(s.mem, s.memAddress, data), Cell(s.memAddress, n), true)
    decreases |data|
  {
    hide Distance;
    var events := Receives(data);
    if data == [] {
      WriteNothing(s.mem, s.memAddress);
    } else {
      var n := |data| - 1;
      var before := Receives(data[..n]);
      StoreData(s, data[..n]);
      assert events == before + [events[n]];
      RunAppend(s, before, [events[n]]);
      var t := Run(s, before);
      RunOne(t, events[n]);
      WriteOneMore(s.mem, s.memAddress, data);
    }
  }

  lemma RunOne(s: Slave, e: Event)
    requires s.Valid()
    ensures Run(s, [e]) == Apply(s, e) && Outputs(s, [e]) == Output(s, e)
  {
    assert [e][1..] == [];
  }

  lemma WriteNothing(mem: seq<Byte>, from: nat)
    requires |mem| == SIZE && from < SIZE
    ensures Write(mem, from, []) == mem
  {
  }

  lemma WriteOneMore(mem: seq<Byte>, from: nat, data: seq<Byte>)
    requires |mem| == SIZE && from < SIZE && 0 < |data| <= SIZE
    ensures var n := |data| - 1;
            && Write(mem, from, data) == Write(mem, from, data[..n])[Cell(from, n) := data[n]]
            && (Cell(from, n) + 1) % SIZE == Cell(from, |data|)
  {
    var n := |data| - 1;
    var left, right := Write(mem, from, data), Write(mem, from, data[..n])[Cell(from, n) := data[n]];
    forall c | 0 <= c < SIZE
      ensures left[c] == right[c]
    {
      DistanceOf(from, n, c);
    }
  }

  lemma DistanceOf(from: nat, k: nat, c: nat)
    requires from < SIZE && c < SIZE && k < SIZE
    ensures Distance(from, c) == k <==> c == Cell(from, k)
  {
  }

  /** A write transfer stores the data at the address, going round, and touches nothing else. */
  lemma WriteTransferStores(s: Slave, from: Byte, data: seq<Byte>)
    requires s.Valid() && !s.memAddressWritten && |data| <= SIZE
    ensures var events := WriteTransfer(from, data);
            && Outputs(s, events) == []
            && Run(s, events) == Slave(Write(s.mem, from as int, data), Cell(from as int, |data|), false)
  {
    hide Run, Outputs, Write;
    var a := Receive(from);
    RunOne(s, a);
    var s1 := Apply(s, a);
    StoreData(s1, data);
    RunAppend(s, [a], Receives(data));
    var s2 := Run(s, [a] + Receives(data));
    RunOne(s2, Finish);
    RunAppend(s, [a] + Receives(data), [Finish]);
  }

  /** Requests, with Stops and Restarts anywhere in between. */
  predicate IsRead(events: seq<Event>) {
    forall i :: 0 <= i < |events| ==> events[i] == Request || events[i] == Finish
  }

  function Requests(events: seq<Event>): nat {
    if events == [] then 0 else (if events[0] == Request then 1 else 0) + Requests(events[1..])
  }

  /** However reads are split, they return consecutive cells from the current address, going round. */
  lemma {:induction false} SplitReads(s: Slave, events: seq<Event>)
    requires s.Valid() && IsRead(events)
    ensures Run(s, events).mem == s.mem
    ensures Run(s, events).memAddress == Cell(s.memAddress, Requests(events))
    ensures Outputs(s, events) == Read(s.mem, s.memAddress, Requests(events))
    decreases |events|
  {
    if events != [] {
      var t := Apply(s, events[0]);
      SplitReads(t, events[1..]);
      if events[0] == Request {
        ReadNext(s.mem, s.memAddress, Requests(events[1..]));
      }
    }
  }

  lemma ReadNext(mem: seq<Byte>, from: nat, count: nat)
    requires |mem| == SIZE && from < SIZE
    ensures Read(mem, from, count + 1) == [mem[from]] + Read(mem, (from + 1) % SIZE, count)
    ensures Cell((from + 1) % SIZE, count) == Cell(from, count + 1)
  {
    hide Cell;
    OneCell(from);
    CellZero(from);
    CellOfCell(from, 1, count);
    forall k | 0 <= k < count
      ensures Cell(Cell(from, 1), k) == Cell(from, k + 1)
    {
      CellOfCell(from, 1, k);
    }
  }

  lemma OneCell(from: nat)
    ensures (from + 1) % SIZE == Cell(from, 1)
  {
  }

  /** Write at an address, seek back to it, and read in any pieces: the data comes back, and all other
      cells are as they were. */
  lemma WriteSeekRead(s: Slave, from: Byte, data: seq<Byte>, split: seq<Event>)
    requires s.Valid() && !s.memAddressWritten && |data| <= SIZE
    requires IsRead(split) && Requests(split) == |data|
    ensures var events := WriteTransfer(from, data) + WriteTransfer(from, []) + split;
            && Outputs(s, events) == data
            && forall c :: 0 <= c < SIZE && Distance(from as int, c) >= |data| ==> Run(s, events).mem[c] == s.mem[c]
  {
    hide Run, Outputs, Write, Read, Distance;
    var w, k := WriteTransfer(from, data), WriteTransfer(from, []);
    WriteTransferStores(s, from, data);
    var s1 := Run(s, w);
    WriteTransferStores(s1, from, []);
    WriteNothing(s1.mem, from as int);
    RunAppend(s, w, k);
    var s2 := Run(s, w + k);
    SplitReads(s2, split);
    RunAppend(s, w + k, split);
    ReadAfterWrite(s.mem, from as int, data);
  }

  // ---------------------------------------------------------------------------------------
  // The code

  class Context {
    const mem: array<Byte>
    var memAddress: nat
    var memAddressWritten: bool

    ghost predicate Valid()
      reads this
    {
      mem.Length == SIZE && memAddress < SIZE
    }

    ghost function View(): Slave
      reads this, mem
    {
      Slave(mem[..], memAddress, memAddressWritten)
    }

    constructor ()
      ensures Valid() && !memAddressWritten
    {
      mem := new Byte[SIZE](_ => 0);
      memAddress, memAddressWritten := 0, false;
    }

    /** i2c_slave_handler; sent is the byte written in answer to a request. */
    method Handler(event: Event) returns (sent: seq<Byte>)
      requires Valid()
      modifies this, mem
      ensures Valid() && View() == Apply(old(View()), event) && sent == Output(old(View()), event)
    {
      sent := [];
      match event
      case Receive(byte) =>
        if !memAddressWritten {
          memAddress := byte as int;
          memAddressWritten := true;
        } else {
          mem[memAddress] := byte;
          memAddress := (memAddress + 1) % SIZE;
        }
      case Request =>
        sent := [mem[memAddress]];
        memAddress := (memAddress + 1) % SIZE;
      case Finish =>
        memAddressWritten := false;
    }

    /** The bus delivers a sequence of events. */
    method Deliver(events: seq<Event>) returns (sent: seq<Byte>)
      requires Valid()
      modifies this, mem
      ensures Valid() && View() == Run(old(View()), events) && sent == Outputs(old(View()), events)
    {
      hide Apply, Output;
      sent := [];
      ghost var start := View();
      var i := 0;
      assert events[..0] == [] && events[..|events|] == events;
      while i < |events|
        invariant 0 <= i <= |events| && Valid()
        invariant View() == Run(start, events[..i]) && sent == Outputs(start, events[..i])
      {
        ghost var before := View();
        var more := Handler(events[i]);
        RunOne(before, events[i]);
        RunAppend(start, events[..i], [events[i]]);
        assert events[..i + 1] == events[..i] + [events[i]];
        sent := sent + more;
        i := i + 1;
      }
    }

    /** One round of run_master: write, seek, a read of `split` bytes, and a read of the rest. */
    method MasterRound(from: Byte, msg: seq<Byte>, split: nat) returns (first: seq<Byte>, rest: seq<Byte>)
      requires Valid() && !memAddressWritten && split <= |msg| <= SIZE
      modifies this, mem
      ensures Valid() && !memAddressWritten
      ensures first == msg[..split] && rest == msg[split..]
      ensures forall k :: 0 <= k < |msg| ==> mem[(from as int + k) % 256] == msg[k]
      ensures mem[..] == Write(old(mem[..]), from as int, msg)
    {
      hide Run, Outputs, Write, WriteTransfer, Reads;
      RoundOnBus(View(), from, msg, split);
      ReadAfterWrite(mem[..], from as int, msg);
      var none := Deliver(WriteTransfer(from, msg));
      none := Deliver(WriteTransfer(from, []));
      first := Deliver(Reads(split));
      rest := Deliver(Reads(|msg| - split));
    }
  }

  /** What the four transfers of a round do. */
  lemma RoundOnBus(s: Slave, from: Byte, msg: seq<Byte>, split: nat)
    requires s.Valid() && !s.memAddressWritten && split <= |msg| <= SIZE
    ensures var s2 := Run(Run(s, WriteTransfer(from, msg)), WriteTransfer(from, []));
            var s3 := Run(s2, Reads(split));
            var s4 := Run(s3, Reads(|msg| - split));
            && Outputs(s2, Reads(split)) == msg[..split] && Outputs(s3, Reads(|msg| - split)) == msg[split..]
            && s4.mem == Write(s.mem, from as int, msg) && !s4.memAddressWritten
  {
    hide Run, Outputs, Write, Read, WriteTransfer, Reads;
    var a := from as int;
    WriteTransferStores(s, from, msg);
    var s1 := Run(s, WriteTransfer(from, msg));
    WriteTransferStores(s1, from, []);
    WriteNothing(s1.mem, a);
    CellZero(a);
    var s2 := Run(s1, WriteTransfer(from, []));
    ReadTransfer(s2, split);
    var s3 := Run(s2, Reads(split));
    ReadTransfer(s3, |msg| - split);
    ReadAfterWrite(s.mem, a, msg);
    ReadInParts(s2.mem, a, split, |msg| - split);
    var x, y := Read(s2.mem, a, split), Read(s2.mem, Cell(a, split), |msg| - split);
    assert x + y == msg && |x| == split;
  }

  function Reads(count: nat): seq<Event> {
    seq(count, _ => Request) + [Finish]
  }

  lemma {:induction false} CountRequests(count: nat)
    ensures Requests(seq(count, _ => Request) + [Finish]) == count
  {
    var events := seq(count, _ => Request) + [Finish];
    if count == 0 {
      assert events == [Finish] && events[1..] == [];
    } else {
      CountRequests(count - 1);
      assert events[1..] == seq(count - 1, _ => Request) + [Finish];
    }
  }

  lemma ReadTransfer(s: Slave, count: nat)
    requires s.Valid()
    ensures !Run(s, Reads(count)).memAddressWritten
    ensures Run(s, Reads(count)).mem == s.mem && Run(s, Reads(count)).memAddress == Cell(s.memAddress, count)
    ensures Outputs(s, Reads(count)) == Read(s.mem, s.memAddress, count)
  {
    hide Run, Outputs;
    CountRequests(count);
    SplitReads(s, Reads(count));
    var requests := seq(count, _ => Request);
    RunAppend(s, requests, [Finish]);
    RunOne(Run(s, requests), Finish);
  }

  lemma ReadInParts(mem: seq<Byte>, from: nat, m: nat, n: nat)
    requires |mem| == SIZE && from < SIZE
    ensures Read(mem, from, m) + Read(mem, Cell(from, m), n) == Read(mem, from, m + n)
  {
    hide Cell;
    forall k | 0 <= k < n
      ensures Cell(Cell(from, m), k) == Cell(from, m + k)
    {
      CellOfCell(from, m, k);
    }
  }
}
