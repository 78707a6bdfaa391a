/** Booting another chip over a UART, bootloaders/uart/uart_boot.c: knock, write the partition, reset
    the pointer, read everything back, and only then execute. */
module UartBoot {

  type Byte = bv8

  const W: Byte := 0x77
  const C: Byte := 0x63
  const R: Byte := 0x72
  const X: Byte := 0x78
  const N: Byte := 0x6E

  const CHUNK := 32
  const FLASH_SECTOR_SIZE := 4096

  datatype Option<T> = None | Some(value: T)

  /** What happens on the line. Data marks the payload bytes, which the wire does not. */
  datatype Event = Sent(byte: Byte, data: bool) | Polled(us: nat, readable: bool) | Got(byte: Byte, data: bool)

  /** The other chip: which byte, if any, arrives after this history within so many microseconds (0: ever). */
  type Target = (seq<Event>, nat) -> Option<Byte>

  class Uart {
    const target: Target
    var log: seq<Event>
    var pending: Option<Byte>

    constructor (target: Target)
      ensures this.target == target && log == [] && pending == None
    {
      this.target, log, pending := target, [], None;
    }

    method Put(b: Byte, data: bool)
      modifies `log
      ensures log == old(log) + [Sent(b, data)]
    {
      log := log + [Sent(b, data)];
    }

    method IsReadableWithinUs(us: nat) returns (readable: bool)
      modifies `log, `pending
      ensures log == old(log) + [Polled(us, readable)] && readable == pending.Some?
      ensures old(pending).Some? ==> pending == old(pending)
    {
      if pending == None {
        pending := target(log, us);
      }
      readable := pending.Some?;
      log := log + [Polled(us, readable)];
    }

    /** Blocks until a byte arrives; None if that never happens. */
    method Getc(data: bool) returns (r: Option<Byte>)
      modifies `log, `pending
      ensures log == if r.Some? then old(log) + [Got(r.value, data)] else old(log)
      ensures old(pending).Some? ==> r == old(pending)
      ensures r == None ==> target(log, 0) == None
    {
      r := if pending == None then target(log, 0) else pending;
      pending := None;
      if r.Some? {
        log := log + [Got(r.value, data)];
      }
    }
  }

  // ---------------------------------------------------------------------------------------
  // The conversation: a log without its polls

  function Talk(log: seq<Event>): seq<Event> {
    if log == [] then []
    else Talk(log[..|log| - 1]) + (if log[|log| - 1].Polled? then [] else [log[|log| - 1]])
  }

  lemma TalkOne(log: seq<Event>, e: Event)
    ensures Talk(log + [e]) == Talk(log) + (if e.Polled? then [] else [e])
  {
    assert (log + [e])[..|log|] == log;
  }

  /** What came after `before` does not contain the execute command. */
  ghost predicate NoExecute(before: seq<Event>, log: seq<Event>) {
    before <= log && forall i :: |before| <= i < |log| ==> log[i] != Sent(X, false)
  }

  lemma NoExecuteOne(before: seq<Event>, log: seq<Event>, e: Event)
    requires NoExecute(before, log) && e != Sent(X, false)
    ensures NoExecute(before, log + [e])
  {
  }

  lemma NoExecuteTrans(a: seq<Event>, b: seq<Event>, c: seq<Event>)
    requires NoExecute(a, b) && NoExecute(b, c)
    ensures NoExecute(a, c)
  {
  }

  function KnockOnce(): seq<Event> {
    [Sent(0x56, false), Sent(0xFF, false), Sent(0x8B, false), Sent(0xE4, false), Sent(N, false)]
  }

  function Knocks(n: nat): seq<Event> {
    if n == 0 then [] else Knocks(n - 1) + KnockOnce()
  }

  function SendAll(bytes: seq<Byte>): (s: seq<Event>)
    ensures |s| == |bytes|
  {
    seq(|bytes|, i requires 0 <= i < |bytes| => Sent(bytes[i], true))
  }

  function GetAll(bytes: seq<Byte>): (s: seq<Event>)
    ensures |s| == |bytes|
  {
    seq(|bytes|, i requires 0 <= i < |bytes| => Got(bytes[i], true))
  }

  predicate WholeChunks(image: seq<Byte>) {
    |image| % CHUNK == 0
  }

  function WriteChunk(chunk: seq<Byte>): seq<Event> {
    [Sent(W, false)] + SendAll(chunk) + [Got(W, false)]
  }

  function VerifyChunk(chunk: seq<Byte>): seq<Event> {
    [Sent(R, false)] + GetAll(chunk) + [Got(R, false)]
  }

  function WriteTalk(image: seq<Byte>): seq<Event>
    requires WholeChunks(image)
    decreases |image|
  {
    if image == [] then [] else WriteTalk(image[..|image| - CHUNK]) + WriteChunk(image[|image| - CHUNK..])
  }

  function VerifyTalk(image: seq<Byte>): seq<Event>
    requires WholeChunks(image)
    decreases |image|
  {
    if image == [] then [] else VerifyTalk(image[..|image| - CHUNK]) + VerifyChunk(image[|image| - CHUNK..])
  }

  function ClearTalk(): seq<Event> {
    [Sent(C, false), Got(C, false)]
  }

  /** Everything that has been said when the execute command goes out. */
  function Script(knocks: nat, image: seq<Byte>): seq<Event>
    requires WholeChunks(image)
  {
    Knocks(knocks) + [Got(N, false)] + WriteTalk(image) + ClearTalk() + VerifyTalk(image)
  }

  function WholeScript(knocks: nat, image: seq<Byte>): seq<Event>
    requires WholeChunks(image)
  {
    Script(knocks, image) + [Sent(X, false), Got(X, false)]
  }

  /** How long an answer may take, in microseconds: to a knock, to the next byte of a block that is being read
      back, and to anything else. */
  function Patience(said: seq<Event>, due: Event): nat {
    if due == Got(N, false) then 1000
    else if said != [] && said[|said| - 1].Got? && said[|said| - 1].data then 10
    else 500
  }

  /** Everything went by the script until an answer was not the one expected, or did not come in time. For the
      acknowledgement of a block that was read back there is no time limit. */
  ghost predicate Deviates(log: seq<Event>, script: seq<Event>) {
    log != []
    && var said, last := Talk(log[..|log| - 1]), log[|log| - 1];
       && |said| < |script| && said == script[..|said|] && script[|said|].Got?
       && ((last == Polled(Patience(said, script[|said|]), false) && script[|said|] != Got(R, false))
           || (last.Got? && last.byte != script[|said|].byte))
  }

  /** Everything went by the script, and the acknowledgement of a block that was read back never comes. */
  ghost predicate Waits(target: Target, log: seq<Event>, script: seq<Event>) {
    && log != [] && log[|log| - 1] == Polled(10, false)
    && |Talk(log)| < |script| && Talk(log) == script[..|Talk(log)|] && script[|Talk(log)|] == Got(R, false)
    && target(log, 0) == None
  }

  lemma DeviatesNow(log: seq<Event>, e: Event, due: Event, script: seq<Event>)
    requires due.Got? && Talk(log) + [due] <= script
    requires (e == Polled(Patience(Talk(log), due), false) && due != Got(R, false)) || (e.Got? && e.byte != due.byte)
    ensures Deviates(log + [e], script)
  {
    hide Talk;
    assert (log + [e])[..|log|] == log;
    assert script[|Talk(log)|] == due;
  }

  lemma WaitingIsNoDeviation(target: Target, log: seq<Event>, script: seq<Event>)
    requires Waits(target, log, script)
    ensures !Deviates(log, script)
  {
    hide Talk;
    TalkOne(log[..|log| - 1], log[|log| - 1]);
    assert log == log[..|log| - 1] + [log[|log| - 1]];
  }

  lemma CompletionIsNoDeviation(log: seq<Event>, script: seq<Event>)
    requires Talk(log) == script
    ensures !Deviates(log, script)
  {
    hide Talk;
    if log != [] {
      TalkOne(log[..|log| - 1], log[|log| - 1]);
      assert log == log[..|log| - 1] + [log[|log| - 1]];
    }
  }

  lemma DeviatesLater(log: seq<Event>, script: seq<Event>, longer: seq<Event>)
    requires Deviates(log, script) && script <= longer
    ensures Deviates(log, longer)
  {
    hide Talk;
  }

  lemma WaitsLater(target: Target, log: seq<Event>, script: seq<Event>, longer: seq<Event>)
    requires Waits(target, log, script) && script <= longer
    ensures Waits(target, log, longer)
  {
    hide Talk;
  }

  // ---------------------------------------------------------------------------------------
  // The code

  datatype Outcome = Executed | Reset | Hung

  /** The answer to a command with a time limit: a reset unless the expected byte arrives in time. */
  method Expect(uart: Uart, us: nat, expected: Byte) returns (ok: bool)
    requires expected != R && us == Patience(Talk(uart.log), Got(expected, false))
    modifies uart
    ensures NoExecute(old(uart.log), uart.log)
    ensures ok ==> Talk(uart.log) == Talk(old(uart.log)) + [Got(expected, false)]
    ensures !ok ==> Deviates(uart.log, Talk(old(uart.log)) + [Got(expected, false)])
    ensures Talk(old(uart.log)) <= Talk(uart.log)
  {
    hide Talk, Deviates;
    ghost var script := Talk(uart.log) + [Got(expected, false)];
    var readable := uart.IsReadableWithinUs(us);
    TalkOne(old(uart.log), Polled(us, readable));
    if !readable {
      DeviatesNow(old(uart.log), Polled(us, false), Got(expected, false), script);
      return false;
    }
    ghost var before := uart.log;
    var r := uart.Getc(false);
    TalkOne(before, Got(r.value, false));
    ok := r == Some(expected);
    if !ok {
      DeviatesNow(before, Got(r.value, false), Got(expected, false), script);
    }
  }

  method Knock(uart: Uart) returns (ok: bool, ghost sent: nat)
    modifies uart
    ensures NoExecute(old(uart.log), uart.log)
    ensures 1 <= sent <= 12
    ensures ok ==> Talk(uart.log) == Talk(old(uart.log)) + Knocks(sent) + [Got(N, false)]
    ensures !ok ==> Deviates(uart.log, Talk(old(uart.log)) + Knocks(sent) + [Got(N, false)])
    ensures !ok && sent < 12 ==> uart.log != [] && uart.log[|uart.log| - 1].Got?
  {
    hide Talk, Deviates;
    var knocks := 0;
    ghost var start := uart.log;
    assert Knocks(0) == [] && Talk(start) + [] == Talk(start);
    while true
      invariant 0 <= knocks <= 11
      invariant NoExecute(start, uart.log) && Talk(uart.log) == Talk(start) + Knocks(knocks)
      decreases 11 - knocks
    {
      SendKnock(uart, start, Talk(start) + Knocks(knocks));
      sent := knocks + 1;
      assert Talk(uart.log) == Talk(start) + Knocks(sent);
      ghost var before := uart.log;
      var readable := uart.IsReadableWithinUs(1000);
      TalkOne(before, Polled(1000, readable));
      if readable {
        before := uart.log;
        var r := uart.Getc(false);
        TalkOne(before, Got(r.value, false));
        ok := r == Some(N);
        if !ok {
          DeviatesNow(before, Got(r.value, false), Got(N, false), Talk(start) + Knocks(sent) + [Got(N, false)]);
        }
        return;
      }
      if knocks > 10 {
        DeviatesNow(before, Polled(1000, false), Got(N, false), Talk(start) + Knocks(sent) + [Got(N, false)]);
        ok := false;
        return;
      }
      knocks := knocks + 1;
    }
  }

  method SendKnock(uart: Uart, ghost start: seq<Event>, ghost talk: seq<Event>)
    requires NoExecute(start, uart.log) && Talk(uart.log) == talk
    modifies uart`log
    ensures NoExecute(start, uart.log) && Talk(uart.log) == talk + KnockOnce()
  {
    hide Talk;
    SendByte(uart, start, talk, 0x56, false);
    SendByte(uart, start, talk + [Sent(0x56, false)], 0xFF, false);
    SendByte(uart, start, talk + KnockOnce()[..2], 0x8B, false);
    SendByte(uart, start, talk + KnockOnce()[..3], 0xE4, false);
    SendByte(uart, start, talk + KnockOnce()[..4], N, false);
    assert talk + KnockOnce() == talk + KnockOnce()[..4] + [Sent(N, false)];
  }

  method SendByte(uart: Uart, ghost start: seq<Event>, ghost talk: seq<Event>, b: Byte, data: bool)
    requires NoExecute(start, uart.log) && Talk(uart.log) == talk && (b == X ==> data)
    modifies uart`log
    ensures NoExecute(start, uart.log) && Talk(uart.log) == talk + [Sent(b, data)]
  {
    TalkOne(uart.log, Sent(b, data));
    NoExecuteOne(start, uart.log, Sent(b, data));
    uart.Put(b, data);
  }

  /** One round of the write loop. */
  method WriteOne(uart: Uart, chunk: seq<Byte>, ghost start: seq<Event>, ghost talk: seq<Event>) returns (ok: bool)
    requires |chunk| == CHUNK && NoExecute(start, uart.log) && Talk(uart.log) == talk
    modifies uart
    ensures NoExecute(start, uart.log)
    ensures ok ==> Talk(uart.log) == talk + WriteChunk(chunk)
    ensures !ok ==> Deviates(uart.log, talk + WriteChunk(chunk))
  {
    hide Talk, NoExecute, Deviates;
    SendByte(uart, start, talk, W, false);
    ghost var said := talk + [Sent(W, false)];
    var i := 0;
    assert said + SendAll(chunk[..0]) == said;
    while i < CHUNK
      invariant 0 <= i <= CHUNK
      invariant NoExecute(start, uart.log) && Talk(uart.log) == said + SendAll(chunk[..i])
    {
      SendByte(uart, start, said + SendAll(chunk[..i]), chunk[i], true);
      assert SendAll(chunk[..i + 1]) == SendAll(chunk[..i]) + [Sent(chunk[i], true)];
      i := i + 1;
    }
    assert chunk[..CHUNK] == chunk;
    ghost var before := uart.log;
    ok := Expect(uart, 500, W);
    NoExecuteTrans(start, before, uart.log);
    assert talk + WriteChunk(chunk) == said + SendAll(chunk) + [Got(W, false)];
  }

  /** The write loop, from start_addr up to end_addr in steps of 32. */
  method WriteImage(uart: Uart, image: seq<Byte>) returns (ok: bool)
    requires WholeChunks(image)
    modifies uart
    ensures NoExecute(old(uart.log), uart.log)
    ensures ok ==> Talk(uart.log) == Talk(old(uart.log)) + WriteTalk(image)
    ensures !ok ==> Deviates(uart.log, Talk(old(uart.log)) + WriteTalk(image))
  {
    hide Talk, WriteChunk, WriteTalk, NoExecute, Deviates;
    ghost var start := uart.log;
    NothingSaid(start);
    var current := 0;
    EmptyImage(image, Talk(start));
    while current < |image|
      invariant 0 <= current <= |image| && current % CHUNK == 0
      invariant NoExecute(start, uart.log) && Talk(uart.log) == Talk(start) + WriteTalk(image[..current])
    {
      NextChunk(|image|, current);
      ghost var said := Talk(uart.log);
      ok := WriteOne(uart, image[current..current + CHUNK], start, Talk(uart.log));
      WriteTalkStep(image, current);
      assert said + WriteChunk(image[current..current + CHUNK]) == Talk(start) + WriteTalk(image[..current + CHUNK]);
      if !ok {
        WriteTalkPrefix(image, current + CHUNK);
        DeviatesLater(uart.log, Talk(start) + WriteTalk(image[..current + CHUNK]), Talk(start) + WriteTalk(image));
        return;
      }
      current := current + CHUNK;
    }
    ok := true;
  }

  lemma WriteTalkStep(image: seq<Byte>, k: nat)
    requires k % CHUNK == 0 && k + CHUNK <= |image|
    ensures WriteTalk(image[..k + CHUNK]) == WriteTalk(image[..k]) + WriteChunk(image[k..k + CHUNK])
  {
    var part := image[..k + CHUNK];
    assert part[..k] == image[..k] && part[k..] == image[k..k + CHUNK];
  }

  lemma {:induction false} WriteTalkPrefix(image: seq<Byte>, k: nat)
    requires WholeChunks(image) && k % CHUNK == 0 && k <= |image|
    ensures WriteTalk(image[..k]) <= WriteTalk(image)
    decreases |image| - k
  {
    hide WriteChunk, WriteTalk;
    if k == |image| {
      assert image[..k] == image;
    } else {
      NextChunk(|image|, k);
      WriteTalkStep(image, k);
      WriteTalkPrefix(image, k + CHUNK);
    }
  }

  lemma {:induction false} VerifyTalkPrefix(image: seq<Byte>, k: nat)
    requires WholeChunks(image) && k % CHUNK == 0 && k <= |image|
    ensures VerifyTalk(image[..k]) <= VerifyTalk(image)
    decreases |image| - k
  {
    hide VerifyChunk, VerifyTalk;
    if k == |image| {
      assert image[..k] == image;
    } else {
      NextChunk(|image|, k);
      VerifyTalkStep(image, k);
      VerifyTalkPrefix(image, k + CHUNK);
    }
  }

  lemma EmptyImage(image: seq<Byte>, talk: seq<Event>)
    ensures WriteTalk(image[..0]) == VerifyTalk(image[..0]) == [] && talk + [] == talk
    ensures image[..|image|] == image
  {
  }

  lemma LastChunk(image: seq<Byte>)
    requires WholeChunks(image) && image != []
    ensures var k := |image| - CHUNK;
            && k >= 0 && k % CHUNK == 0 && |image[k..]| == CHUNK
            && WriteTalk(image) == WriteTalk(image[..k]) + WriteChunk(image[k..])
            && VerifyTalk(image) == VerifyTalk(image[..k]) + VerifyChunk(image[k..])
  {
  }

  /** Chunks start at multiples of the chunk size. */
  lemma NextChunk(length: nat, current: nat)
    requires length % CHUNK == 0 && current % CHUNK == 0 && current < length
    ensures current + CHUNK <= length && (current + CHUNK) % CHUNK == 0
  {
  }

  lemma SplitEqual<T>(mem: seq<T>, image: seq<T>, k: nat)
    requires k <= |image| <= |mem| && mem[..k] == image[..k] && mem[k..|image|] == image[k..]
    ensures mem[..|image|] == image
  {
    assert mem[..|image|] == mem[..k] + mem[k..|image|] && image == image[..k] + image[k..];
  }

  lemma VerifyTalkStep(image: seq<Byte>, k: nat)
    requires k % CHUNK == 0 && k + CHUNK <= |image|
    ensures VerifyTalk(image[..k + CHUNK]) == VerifyTalk(image[..k]) + VerifyChunk(image[k..k + CHUNK])
  {
    var part := image[..k + CHUNK];
    assert part[..k] == image[..k] && part[k..] == image[k..k + CHUNK];
  }

  /** Reads back up to 32 bytes for as long as they arrive and agree with the chunk. */
  method ReadBack(uart: Uart, chunk: seq<Byte>, ghost start: seq<Event>, ghost talk: seq<Event>) returns (count: int)
    requires |chunk| == CHUNK && NoExecute(start, uart.log) && Talk(uart.log) == talk && uart.pending.Some?
    modifies uart
    ensures NoExecute(start, uart.log) && count <= CHUNK
    ensures count >= 0 ==> Talk(uart.log) == talk + GetAll(chunk[..count])
    ensures count == CHUNK ==> uart.log != [] && uart.log[|uart.log| - 1] == Polled(10, uart.pending.Some?)
    ensures count != CHUNK ==> Deviates(uart.log, talk + GetAll(chunk))
  {
    hide Talk, Deviates;
    count := 0;
    assert chunk[..0] == [] && talk + [] == talk;
    while true
      invariant 0 <= count <= CHUNK && NoExecute(start, uart.log)
      invariant Talk(uart.log) == talk + GetAll(chunk[..count]) && (count == 0 ==> uart.pending.Some?)
      decreases CHUNK - count
    {
      ghost var before := uart.log;
      var readable := uart.IsReadableWithinUs(10);
      TalkOne(before, Polled(10, readable));
      NoExecuteOne(start, before, Polled(10, readable));
      assert count < CHUNK ==> talk + GetAll(chunk[..count]) + [Got(chunk[count], true)] <= talk + GetAll(chunk);
      if !(readable && count < CHUNK) {
        if count < CHUNK {
          DeviatesNow(before, Polled(10, false), Got(chunk[count], true), talk + GetAll(chunk));
        }
        break;
      }
      before := uart.log;
      var r := uart.Getc(true);
      TalkOne(before, Got(r.value, true));
      NoExecuteOne(start, before, Got(r.value, true));
      if r.value != chunk[count] {
        DeviatesNow(before, Got(r.value, true), Got(chunk[count], true), talk + GetAll(chunk));
        return -1;
      }
      assert GetAll(chunk[..count + 1]) == GetAll(chunk[..count]) + [Got(chunk[count], true)];
      count := count + 1;
    }
  }

  /** One round of the verify loop. */
  method VerifyOne(uart: Uart, chunk: seq<Byte>, ghost start: seq<Event>, ghost talk: seq<Event>)
    returns (outcome: Outcome)
    requires |chunk| == CHUNK && NoExecute(start, uart.log) && Talk(uart.log) == talk
    modifies uart
    ensures NoExecute(start, uart.log)
    ensures outcome == Executed ==> Talk(uart.log) == talk + VerifyChunk(chunk)
    ensures outcome == Reset ==> Deviates(uart.log, talk + VerifyChunk(chunk))
    ensures outcome == Hung ==> Waits(uart.target, uart.log, talk + VerifyChunk(chunk))
  {
    hide Talk, NoExecute, Deviates;
    ghost var script := talk + VerifyChunk(chunk);
    assert script == talk + [Sent(R, false)] + GetAll(chunk) + [Got(R, false)];
    assert talk + [Sent(R, false)] + [Got(chunk[0], true)] <= script;
    SendByte(uart, start, talk, R, false);
    ghost var before := uart.log;
    var readable := uart.IsReadableWithinUs(500);
    TalkOne(before, Polled(500, readable));
    NoExecuteOne(start, before, Polled(500, readable));
    if !readable {
      DeviatesNow(before, Polled(500, false), Got(chunk[0], true), script);
      return Reset;
    }
    var i := ReadBack(uart, chunk, start, talk + [Sent(R, false)]);
    if i != CHUNK {
      DeviatesLater(uart.log, talk + [Sent(R, false)] + GetAll(chunk), script);
      return Reset;
    }
    assert chunk[..CHUNK] == chunk;
    before := uart.log;
    var r := uart.Getc(false);
    if r == None {
      return Hung;
    }
    TalkOne(before, Got(r.value, false));
    NoExecuteOne(start, before, Got(r.value, false));
    if r.value != R {
      DeviatesNow(before, Got(r.value, false), Got(R, false), script);
    }
    outcome := if r.value == R then Executed else Reset;
  }

  method VerifyImage(uart: Uart, image: seq<Byte>) returns (outcome: Outcome)
    requires WholeChunks(image)
    modifies uart
    ensures NoExecute(old(uart.log), uart.log)
    ensures outcome == Executed ==> Talk(uart.log) == Talk(old(uart.log)) + VerifyTalk(image)
    ensures outcome == Reset ==> Deviates(uart.log, Talk(old(uart.log)) + VerifyTalk(image))
    ensures outcome == Hung ==> Waits(uart.target, uart.log, Talk(old(uart.log)) + VerifyTalk(image))
  {
    hide Talk, VerifyChunk, VerifyTalk, NoExecute, Deviates, Waits;
    ghost var start := uart.log;
    NothingSaid(start);
    var current := 0;
    EmptyImage(image, Talk(start));
    while current < |image|
      invariant 0 <= current <= |image| && current % CHUNK == 0
      invariant NoExecute(start, uart.log) && Talk(uart.log) == Talk(start) + VerifyTalk(image[..current])
    {
      NextChunk(|image|, current);
      ghost var said := Talk(uart.log);
      outcome := VerifyOne(uart, image[current..current + CHUNK], start, Talk(uart.log));
      VerifyTalkStep(image, current);
      assert said + VerifyChunk(image[current..current + CHUNK]) == Talk(start) + VerifyTalk(image[..current + CHUNK]);
      if outcome != Executed {
        VerifyTalkPrefix(image, current + CHUNK);
        StoppedEarly(uart, outcome, Talk(start) + VerifyTalk(image[..current + CHUNK]),
                     Talk(start) + VerifyTalk(image));
        return;
      }
      current := current + CHUNK;
    }
    outcome := Executed;
  }

  /** Why a phase of the protocol was not completed. */
  lemma StoppedEarly(uart: Uart, outcome: Outcome, script: seq<Event>, longer: seq<Event>)
    requires script <= longer
    ensures outcome == Reset && Deviates(uart.log, script) ==> Deviates(uart.log, longer)
    ensures outcome == Hung && Waits(uart.target, uart.log, script) ==> Waits(uart.target, uart.log, longer)
  {
    hide Deviates, Waits;
    if outcome == Reset && Deviates(uart.log, script) {
      DeviatesLater(uart.log, script, longer);
    }
    if outcome == Hung && Waits(uart.target, uart.log, script) {
      WaitsLater(uart.target, uart.log, script, longer);
    }
  }

  lemma NothingSaid(log: seq<Event>)
    ensures NoExecute(log, log)
  {
  }

  /** The bytes of a partition, given by its first and last flash sector. */
  function Partition(flash: seq<Byte>, first: nat, last: nat): (image: seq<Byte>)
    requires (last + 1) * FLASH_SECTOR_SIZE <= |flash|
    ensures WholeChunks(image) && |image| == FLASH_SECTOR_SIZE * (if first <= last then last + 1 - first else 0)
    ensures forall k :: 0 <= k < |image| ==> image[k] == flash[first * FLASH_SECTOR_SIZE + k]
  {
    if first <= last then
      SectorMultiple(first, last);
      flash[first * FLASH_SECTOR_SIZE..(last + 1) * FLASH_SECTOR_SIZE]
    else []
  }

  lemma SectorMultiple(first: nat, last: nat)
    requires first <= last
    ensures first * FLASH_SECTOR_SIZE <= (last + 1) * FLASH_SECTOR_SIZE
    ensures ((last + 1) * FLASH_SECTOR_SIZE - first * FLASH_SECTOR_SIZE) % CHUNK == 0
  {
    assert (last + 1) * FLASH_SECTOR_SIZE - first * FLASH_SECTOR_SIZE == 32 * (128 * (last + 1 - first));
  }

  /** uart_boot. `executing` tells whether the execute command was sent. */
  method Boot(uart: Uart, flash: seq<Byte>, first: nat, last: nat)
    returns (outcome: Outcome, ghost executing: bool, ghost knocks: nat)
    requires uart.log == [] && (last + 1) * FLASH_SECTOR_SIZE <= |flash|
    modifies uart
    ensures executing <==> Sent(X, false) in uart.log
    ensures executing ==>
      1 <= knocks <= 12 && Script(knocks, Partition(flash, first, last)) + [Sent(X, false)] <= Talk(uart.log)
    ensures outcome == Executed ==> executing && Talk(uart.log) == WholeScript(knocks, Partition(flash, first, last))
    ensures outcome == Reset <==> Deviates(uart.log, WholeScript(knocks, Partition(flash, first, last)))
    ensures outcome == Hung ==> Waits(uart.target, uart.log, WholeScript(knocks, Partition(flash, first, last)))
  {
    hide Talk, Knocks, WriteTalk, VerifyTalk, Deviates, Waits;
    executing := false;
    var image := Partition(flash, first, last);
    assert Talk([]) == [] by {
      EmptyTalk();
    }
    var ok;
    ok, knocks := Knock(uart);
    ghost var script := Knocks(knocks) + [Got(N, false)];
    ghost var whole := WholeScript(knocks, image);
    assert [] + Knocks(knocks) + [Got(N, false)] == script <= whole;
    if !ok {
      DeviatesLater(uart.log, script, whole);
      return Reset, executing, knocks;
    }
    ghost var before := uart.log;
    ok := WriteImage(uart, image);
    NoExecuteTrans([], before, uart.log);
    script := script + WriteTalk(image);
    if !ok {
      DeviatesLater(uart.log, script, whole);
      return Reset, executing, knocks;
    }
    SendByte(uart, [], Talk(uart.log), C, false);
    before := uart.log;
    ok := Expect(uart, 500, C);
    NoExecuteTrans([], before, uart.log);
    assert script + [Sent(C, false)] + [Got(C, false)] == script + ClearTalk();
    script := script + ClearTalk();
    if !ok {
      DeviatesLater(uart.log, script, whole);
      return Reset, executing, knocks;
    }
    before := uart.log;
    outcome := VerifyImage(uart, image);
    NoExecuteTrans([], before, uart.log);
    script := script + VerifyTalk(image);
    if outcome != Executed {
      StoppedEarly(uart, outcome, script, whole);
      if outcome == Hung {
        WaitingIsNoDeviation(uart.target, uart.log, whole);
      }
      return outcome, executing, knocks;
    }
    outcome := Execute(uart, script);
    executing := true;
    assert script + [Sent(X, false)] + [Got(X, false)] == whole;
    if outcome == Executed {
      CompletionIsNoDeviation(uart.log, whole);
    }
  }

  /** Sends the execute command and checks its answer. */
  method Execute(uart: Uart, ghost script: seq<Event>) returns (outcome: Outcome)
    requires Talk(uart.log) == script
    modifies uart
    ensures Sent(X, false) in uart.log && script + [Sent(X, false)] <= Talk(uart.log)
    ensures outcome == Executed ==> Talk(uart.log) == script + [Sent(X, false)] + [Got(X, false)]
    ensures outcome == Reset ==> Deviates(uart.log, script + [Sent(X, false)] + [Got(X, false)])
    ensures outcome != Hung
  {
    hide Talk, Deviates;
    uart.Put(X, false);
    TalkOne(old(uart.log), Sent(X, false));
    assert uart.log[|old(uart.log)|] == Sent(X, false);
    var ok := Expect(uart, 500, X);
    assert uart.log[|old(uart.log)|] == Sent(X, false);
    outcome := if ok then Executed else Reset;
  }

  lemma EmptyTalk()
    ensures Talk([]) == []
  {
  }

  // ---------------------------------------------------------------------------------------
  // A target with a memory

  /** Memory, auto-incrementing pointer, payload bytes still expected, answers waiting to be sent, and how much of
      the knock has been heard. */
  datatype Chip = Chip(mem: seq<Byte>, ptr: nat, expecting: nat, out: seq<Byte>, knock: nat)

  /** The chip listens to commands once it has heard these four bytes in a row. */
  function Magic(): (magic: seq<Byte>)
    ensures |magic| == 4
  {
    [0x56, 0xFF, 0x8B, 0xE4]
  }

  /** Before any command. */
  predicate Fresh(chip: Chip) {
    chip.expecting == 0 && chip.out == [] && chip.knock <= 4
  }

  /** Listening for a command. */
  predicate Open(chip: Chip) {
    chip.expecting == 0 && chip.knock == 4
  }

  /** How a stored byte may be corrupted, depending on everything said so far. */
  type Corruption = (seq<Event>, Byte) -> Byte

  function Store(chip: Chip, b: Byte): Chip
    requires chip.expecting > 0
  {
    chip.(mem := if chip.ptr < |chip.mem| then chip.mem[chip.ptr := b] else chip.mem, ptr := chip.ptr + 1,
          expecting := chip.expecting - 1, out := if chip.expecting == 1 then chip.out + [0x77] else chip.out)
  }

  function ReadMem(mem: seq<Byte>, ptr: nat): seq<Byte> {
    if ptr + 32 <= |mem| then mem[ptr..ptr + 32] else []
  }

  function Unlock(chip: Chip, b: Byte): Chip
    requires chip.knock < 4
  {
    chip.(knock := if b == Magic()[chip.knock] then chip.knock + 1 else if b == Magic()[0] then 1 else 0)
  }

  /** The commands are the letters w, c, r, x and n, each answered with itself when it is done; blocks have 32 bytes. */
  function Receive(chip: Chip, b: Byte, stored: Byte): Chip {
    if chip.knock < 4 then Unlock(chip, b)
    else if chip.expecting > 0 then Store(chip, stored)
    else if b == 0x77 then chip.(expecting := 32)
    else if b == 0x63 then chip.(ptr := 0, out := chip.out + [b])
    else if b == 0x72 then chip.(ptr := chip.ptr + 32, out := chip.out + ReadMem(chip.mem, chip.ptr) + [b])
    else if b == 0x78 || b == 0x6E then chip.(out := chip.out + [b])
    else chip
  }

  function Step(noise: Corruption, chip: Chip, before: seq<Event>, e: Event): Chip {
    match e
    case Sent(b, _) => Receive(chip, b, noise(before, b))
    case Got(_, _) => if chip.out == [] then chip else chip.(out := chip.out[1..])
    case Polled(_, _) => chip
  }

  function After(noise: Corruption, start: Chip, talk: seq<Event>): Chip {
    if talk == [] then start else
      var before := talk[..|talk| - 1];
      Step(noise, After(noise, start, before), before, talk[|talk| - 1])
  }

  /** Whatever was received is what the chip had to say next. */
  ghost predicate Faithful(noise: Corruption, start: Chip, talk: seq<Event>) {
    forall i :: 0 <= i < |talk| && talk[i].Got? ==>
      var out := After(noise, start, talk[..i]).out; out != [] && out[0] == talk[i].byte
  }

  lemma AfterOne(noise: Corruption, start: Chip, talk: seq<Event>, e: Event)
    ensures After(noise, start, talk + [e]) == Step(noise, After(noise, start, talk), talk, e)
  {
    assert (talk + [e])[..|talk|] == talk;
  }

  lemma FaithfulGot(noise: Corruption, start: Chip, talk: seq<Event>, e: Event, rest: seq<Event>)
    requires e.Got? && Faithful(noise, start, talk + [e] + rest)
    ensures var chip := After(noise, start, talk);
            && chip.out != [] && chip.out[0] == e.byte
            && After(noise, start, talk + [e]) == chip.(out := chip.out[1..])
  {
    var all := talk + [e] + rest;
    assert all[..|talk|] == talk && all[|talk|] == e;
    AfterOne(noise, start, talk, e);
  }

  /** The chip owes at most answers to earlier knocks. */
  ghost predicate OnlyKnockAnswers(out: seq<Byte>) {
    forall i :: 0 <= i < |out| ==> out[i] == N
  }

  lemma {:induction false} AfterKnocks(noise: Corruption, start: Chip, n: nat)
    requires Fresh(start)
    ensures var chip := After(noise, start, Knocks(n));
            && chip == start.(out := chip.out, knock := if n == 0 then start.knock else 4)
            && OnlyKnockAnswers(chip.out) && (n == 0 ==> chip.out == [])
  {
    hide After;
    if n == 0 {
      AfterNothing(noise, start);
    } else {
      AfterKnocks(noise, start, n - 1);
      AfterOneKnock(noise, start, Knocks(n - 1));
    }
  }

  /** The bytes of a knock open the chip, wherever it was in hearing one, and the command behind them is answered. */
  lemma AfterOneKnock(noise: Corruption, start: Chip, talk: seq<Event>)
    requires After(noise, start, talk).expecting == 0 && After(noise, start, talk).knock <= 4
    ensures var chip := After(noise, start, talk);
            After(noise, start, talk + KnockOnce()) == chip.(out := chip.out + [N], knock := 4)
  {
    hide After, Receive;
    var e := KnockOnce();
    var chip := After(noise, start, talk);
    var t1 := talk + [e[0]];
    var t2 := t1 + [e[1]];
    var t3 := t2 + [e[2]];
    var t4 := t3 + [e[3]];
    AfterOne(noise, start, talk, e[0]);
    AfterOne(noise, start, t1, e[1]);
    AfterOne(noise, start, t2, e[2]);
    AfterOne(noise, start, t3, e[3]);
    AfterOne(noise, start, t4, e[4]);
    assert talk + e == t4 + [e[4]];
    HearsKnock(chip, noise(talk, 0x56), noise(t1, 0xFF), noise(t2, 0x8B), noise(t3, 0xE4), noise(t4, 0x6E));
  }

  /** Whatever noise there is for stored bytes. */
  lemma HearsKnock(chip: Chip, s0: Byte, s1: Byte, s2: Byte, s3: Byte, s4: Byte)
    requires chip.expecting == 0 && chip.knock <= 4
    ensures Receive(Receive(Receive(Receive(Receive(chip, 0x56, s0), 0xFF, s1), 0x8B, s2), 0xE4, s3), 0x6E, s4)
         == chip.(out := chip.out + [N], knock := 4)
  {
  }

  lemma AfterNothing(noise: Corruption, start: Chip)
    ensures After(noise, start, []) == start
  {
  }

  lemma {:induction false} AfterSends(noise: Corruption, start: Chip, talk: seq<Event>, chunk: seq<Byte>, n: nat)
    requires n <= |chunk| && After(noise, start, talk).expecting == |chunk| > 0 && After(noise, start, talk).knock == 4
    ensures var chip, next := After(noise, start, talk), After(noise, start, talk + SendAll(chunk[..n]));
            && next.expecting == |chunk| - n && next.knock == 4 && |next.mem| == |chip.mem| && next.ptr == chip.ptr + n
            && next.out == chip.out + (if n == |chunk| then [W] else [])
  {
    hide After;
    if n == 0 {
      assert talk + SendAll(chunk[..0]) == talk;
    } else {
      AfterSends(noise, start, talk, chunk, n - 1);
      AfterOne(noise, start, talk + SendAll(chunk[..n - 1]), Sent(chunk[n - 1], true));
      assert talk + SendAll(chunk[..n]) == talk + SendAll(chunk[..n - 1]) + [Sent(chunk[n - 1], true)];
    }
  }

  /** A write that is answered as expected leaves nothing owed. */
  lemma AfterWriteChunk(noise: Corruption, start: Chip, talk: seq<Event>, chunk: seq<Byte>, rest: seq<Event>)
    requires |chunk| == CHUNK && Faithful(noise, start, talk + WriteChunk(chunk) + rest)
    requires var chip := After(noise, start, talk); Open(chip) && OnlyKnockAnswers(chip.out)
    ensures var chip, next := After(noise, start, talk), After(noise, start, talk + WriteChunk(chunk));
            Open(next) && next.out == [] && |next.mem| == |chip.mem|
  {
    hide After, Faithful;
    var w := talk + [Sent(W, false)];
    AfterOne(noise, start, talk, Sent(W, false));
    AfterSends(noise, start, w, chunk, CHUNK);
    assert chunk[..CHUNK] == chunk;
    assert talk + WriteChunk(chunk) == w + SendAll(chunk) + [Got(W, false)];
    FaithfulGot(noise, start, w + SendAll(chunk), Got(W, false), rest);
  }

  lemma {:induction false} AfterWrite(noise: Corruption, start: Chip, talk: seq<Event>, image: seq<Byte>,
                                      rest: seq<Event>)
    requires WholeChunks(image) && Faithful(noise, start, talk + WriteTalk(image) + rest)
    requires var chip := After(noise, start, talk); Open(chip) && OnlyKnockAnswers(chip.out)
    ensures var chip, next := After(noise, start, talk), After(noise, start, talk + WriteTalk(image));
            Open(next) && OnlyKnockAnswers(next.out) && |next.mem| == |chip.mem|
    decreases |image|
  {
    hide After, Faithful, WriteChunk, WriteTalk;
    if image == [] {
      EmptyImage(image, talk);
      assert image == image[..0];
    } else {
      LastChunk(image);
      var k := |image| - CHUNK;
      var before, chunk := image[..k], image[k..];
      var w, c := WriteTalk(before), WriteChunk(chunk);
      assert talk + WriteTalk(image) + rest == talk + w + (c + rest);
      AfterWrite(noise, start, talk, before, c + rest);
      assert talk + WriteTalk(image) + rest == (talk + w) + c + rest;
      AfterWriteChunk(noise, start, talk + w, chunk, rest);
      assert talk + WriteTalk(image) == talk + w + c;
    }
  }

  lemma AfterClear(noise: Corruption, start: Chip, talk: seq<Event>, rest: seq<Event>)
    requires Faithful(noise, start, talk + ClearTalk() + rest)
    requires var chip := After(noise, start, talk); Open(chip) && OnlyKnockAnswers(chip.out)
    ensures var chip := After(noise, start, talk);
            After(noise, start, talk + ClearTalk()) == chip.(ptr := 0, out := [])
  {
    hide After, Faithful;
    AfterOne(noise, start, talk, Sent(C, false));
    assert talk + ClearTalk() == talk + [Sent(C, false)] + [Got(C, false)];
    FaithfulGot(noise, start, talk + [Sent(C, false)], Got(C, false), rest);
  }

  lemma {:induction false} AfterGets(noise: Corruption, start: Chip, talk: seq<Event>, chunk: seq<Byte>, n: nat,
                                     rest: seq<Event>)
    requires n <= |chunk| && Faithful(noise, start, talk + GetAll(chunk) + rest)
    ensures var chip := After(noise, start, talk);
            && n <= |chip.out| && chip.out[..n] == chunk[..n]
            && After(noise, start, talk + GetAll(chunk[..n])) == chip.(out := chip.out[n..])
  {
    hide After, Faithful;
    if n == 0 {
      assert talk + GetAll(chunk[..0]) == talk;
    } else {
      AfterGets(noise, start, talk, chunk, n - 1, rest);
      var b := chunk[n - 1];
      var t := talk + GetAll(chunk[..n - 1]);
      assert talk + GetAll(chunk) + rest == t + [Got(b, true)] + (GetAll(chunk)[n..] + rest);
      FaithfulGot(noise, start, t, Got(b, true), GetAll(chunk)[n..] + rest);
      assert talk + GetAll(chunk[..n]) == t + [Got(b, true)];
    }
  }

  lemma AfterVerifyChunk(noise: Corruption, start: Chip, talk: seq<Event>, chunk: seq<Byte>, rest: seq<Event>)
    requires |chunk| == CHUNK && Faithful(noise, start, talk + VerifyChunk(chunk) + rest)
    requires var chip := After(noise, start, talk);
             Open(chip) && chip.out == [] && chip.ptr + CHUNK <= |chip.mem|
    ensures var chip := After(noise, start, talk);
            && After(noise, start, talk + VerifyChunk(chunk)) == chip.(ptr := chip.ptr + CHUNK)
            && chip.mem[chip.ptr..chip.ptr + CHUNK] == chunk
  {
    hide After, Faithful;
    var r := talk + [Sent(R, false)];
    AfterOne(noise, start, talk, Sent(R, false));
    assert talk + VerifyChunk(chunk) + rest == r + GetAll(chunk) + ([Got(R, false)] + rest);
    AfterGets(noise, start, r, chunk, CHUNK, [Got(R, false)] + rest);
    assert chunk[..CHUNK] == chunk;
    assert talk + VerifyChunk(chunk) + rest == (r + GetAll(chunk)) + [Got(R, false)] + rest;
    FaithfulGot(noise, start, r + GetAll(chunk), Got(R, false), rest);
    assert talk + VerifyChunk(chunk) == r + GetAll(chunk) + [Got(R, false)];
    var chip := After(noise, start, talk);
    assert After(noise, start, r).out[..CHUNK] == chip.mem[chip.ptr..chip.ptr + CHUNK];
  }

  lemma {:induction false} AfterVerify(noise: Corruption, start: Chip, talk: seq<Event>, image: seq<Byte>,
                                       rest: seq<Event>)
    requires WholeChunks(image) && Faithful(noise, start, talk + VerifyTalk(image) + rest)
    requires var chip := After(noise, start, talk);
             Open(chip) && chip.out == [] && chip.ptr == 0 && |image| <= |chip.mem|
    ensures var chip := After(noise, start, talk);
            && After(noise, start, talk + VerifyTalk(image)) == chip.(ptr := |image|)
            && chip.mem[..|image|] == image
    decreases |image|
  {
    hide After, Faithful, VerifyChunk, VerifyTalk;
    if image == [] {
      EmptyImage(image, talk);
      assert image == image[..0];
    } else {
      LastChunk(image);
      var k := |image| - CHUNK;
      var before, chunk := image[..k], image[k..];
      var v, c := VerifyTalk(before), VerifyChunk(chunk);
      assert talk + VerifyTalk(image) + rest == talk + v + (c + rest);
      AfterVerify(noise, start, talk, before, c + rest);
      assert talk + VerifyTalk(image) + rest == (talk + v) + c + rest;
      AfterVerifyChunk(noise, start, talk + v, chunk, rest);
      assert talk + VerifyTalk(image) == talk + v + c;
      SplitEqual(After(noise, start, talk).mem, image, k);
    }
  }

  /** Whatever a faulty line does to the bytes being written, and however late the answers are: once the
      execute command is sent to a chip that reads back its memory, that memory holds the partition. */
  lemma ExecutesOnlyTheImage(noise: Corruption, start: Chip, knocks: nat, image: seq<Byte>, talk: seq<Event>)
    requires WholeChunks(image) && Fresh(start) && |image| <= |start.mem|
    requires Script(knocks, image) <= talk && Faithful(noise, start, talk)
    ensures |image| <= |After(noise, start, Script(knocks, image)).mem|
    ensures After(noise, start, Script(knocks, image)).mem[..|image|] == image
  {
    hide After, Faithful, WriteTalk, VerifyTalk, Knocks;
    var k, n := Knocks(knocks), [Got(N, false)];
    var w, c, v := WriteTalk(image), ClearTalk(), VerifyTalk(image);
    var rest := talk[|Script(knocks, image)|..];
    assert talk == k + n + w + c + v + rest;
    AfterKnocks(noise, start, knocks);
    assert talk == k + [Got(N, false)] + (w + c + v + rest);
    FaithfulGot(noise, start, k, Got(N, false), w + c + v + rest);
    assert talk == (k + n) + w + (c + v + rest);
    AfterWrite(noise, start, k + n, image, c + v + rest);
    assert talk == (k + n + w) + c + (v + rest);
    AfterClear(noise, start, k + n + w, v + rest);
    AfterVerify(noise, start, k + n + w + c, image, rest);
  }

  /** uart_boot against such a chip: once the execute command is on the line, the chip's memory, when it was sent,
      held the partition. */
  method BootChip(uart: Uart, flash: seq<Byte>, first: nat, last: nat, ghost noise: Corruption, ghost start: Chip)
    returns (outcome: Outcome, ghost script: seq<Event>)
    requires uart.log == [] && (last + 1) * FLASH_SECTOR_SIZE <= |flash|
    requires Fresh(start) && |Partition(flash, first, last)| <= |start.mem|
    modifies uart
    ensures Sent(X, false) in uart.log ==> script + [Sent(X, false)] <= Talk(uart.log)
    ensures Sent(X, false) in uart.log && Faithful(noise, start, Talk(uart.log)) ==>
      Partition(flash, first, last) <= After(noise, start, script).mem
    ensures outcome == Executed ==> Sent(X, false) in uart.log
  {
    hide Talk, After, Faithful, Script;
    ghost var executing, knocks;
    outcome, executing, knocks := Boot(uart, flash, first, last);
    ghost var image := Partition(flash, first, last);
    script := Script(knocks, image);
    if executing && Faithful(noise, start, Talk(uart.log)) {
      ExecutesOnlyTheImage(noise, start, knocks, image, Talk(uart.log));
    }
  }
}
