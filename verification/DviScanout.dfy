/** The scanline interrupt of hstx/dvi_out_hstx_encoder/dvi_out_hstx_encoder.c: two DMA channels take
    turns sending blocks of words to the command expander, and the interrupt reloads the channel
    that has just finished. */
module DviScanout {

  const H_FRONT_PORCH := 16
  const H_SYNC_WIDTH := 96
  const H_BACK_PORCH := 48
  const H_ACTIVE_PIXELS := 640
  const V_FRONT_PORCH := 10
  const V_SYNC_WIDTH := 2
  const V_BACK_PORCH := 33
  const V_ACTIVE_LINES := 480
  const V_TOTAL_LINES := V_FRONT_PORCH + V_SYNC_WIDTH + V_BACK_PORCH + V_ACTIVE_LINES

  const CMD_RAW_REPEAT := 1
  const CMD_TMDS := 2
  const CMD_NOP := 15

  const TMDS_CTRL_00 := 0x354
  const TMDS_CTRL_01 := 0x0AB
  const TMDS_CTRL_10 := 0x154
  const TMDS_CTRL_11 := 0x2AB

  /** The opcode sits above a 12-bit count. */
  function Command(op: nat, count: nat): nat
    requires op < 16 && count < 4096
  {
    op * 4096 + count
  }

  /** Three lanes of ten bits; the syncs travel on lane 0. */
  function SyncWord(vsync: nat, hsync: nat): nat
    requires vsync <= 1 && hsync <= 1
  {
    var lane0 := if vsync == 0 then (if hsync == 0 then TMDS_CTRL_00 else TMDS_CTRL_01)
                 else (if hsync == 0 then TMDS_CTRL_10 else TMDS_CTRL_11);
    lane0 + TMDS_CTRL_00 * 1024 + TMDS_CTRL_00 * 1048576
  }

  function VblankLineVsyncOff(): (list: seq<nat>)
    ensures |list| == 7
  {
    [Command(CMD_RAW_REPEAT, H_FRONT_PORCH), SyncWord(1, 1),
     Command(CMD_RAW_REPEAT, H_SYNC_WIDTH), SyncWord(1, 0),
     Command(CMD_RAW_REPEAT, H_BACK_PORCH + H_ACTIVE_PIXELS), SyncWord(1, 1),
     Command(CMD_NOP, 0)]
  }

  function VblankLineVsyncOn(): (list: seq<nat>)
    ensures |list| == 7
  {
    [Command(CMD_RAW_REPEAT, H_FRONT_PORCH), SyncWord(0, 1),
     Command(CMD_RAW_REPEAT, H_SYNC_WIDTH), SyncWord(0, 0),
     Command(CMD_RAW_REPEAT, H_BACK_PORCH + H_ACTIVE_PIXELS), SyncWord(0, 1),
     Command(CMD_NOP, 0)]
  }

  function VactiveLine(): (list: seq<nat>)
    ensures |list| == 9
  {
    [Command(CMD_RAW_REPEAT, H_FRONT_PORCH), SyncWord(1, 1), Command(CMD_NOP, 0),
     Command(CMD_RAW_REPEAT, H_SYNC_WIDTH), SyncWord(1, 0), Command(CMD_NOP, 0),
     Command(CMD_RAW_REPEAT, H_BACK_PORCH), SyncWord(1, 1),
     Command(CMD_TMDS, H_ACTIVE_PIXELS)]
  }

  // ---------------------------------------------------------------------------------------
  // The interrupt and the channels

  datatype Address = VsyncOffList | VsyncOnList | VactiveList | Framebuf(offset: nat)

  datatype Channel = Channel(readAddr: Address, transferCount: nat)

  type Framebuffer = f: seq<nat> | |f| == V_ACTIVE_LINES * H_ACTIVE_PIXELS && forall k :: 0 <= k < |f| ==> f[k] < 256
    witness seq(V_ACTIVE_LINES * H_ACTIVE_PIXELS, _ => 0)

  /** The little-endian word at a byte offset. */
  function WordAt(f: Framebuffer, offset: nat): nat
    requires offset + 4 <= |f|
  {
    f[offset] + 256 * f[offset + 1] + 65536 * f[offset + 2] + 16777216 * f[offset + 3]
  }

  function WordsAt(f: Framebuffer, offset: nat, count: nat): (words: seq<nat>)
    requires offset + 4 * count <= |f|
    ensures |words| == count
    decreases count
  {
    if count == 0 then [] else [WordAt(f, offset)] + WordsAt(f, offset + 4, count - 1)
  }

  /** The transfer stays inside the array it reads from. */
  predicate InBounds(ch: Channel) {
    match ch.readAddr
    case VactiveList => ch.transferCount <= 9
    case Framebuf(offset) => offset + 4 * ch.transferCount <= V_ACTIVE_LINES * H_ACTIVE_PIXELS
    case _ => ch.transferCount <= 7
  }

  /** The words a channel sends. */
  function Contents(f: Framebuffer, ch: Channel): seq<nat>
    requires InBounds(ch)
  {
    match ch.readAddr
    case VsyncOffList => VblankLineVsyncOff()[..ch.transferCount]
    case VsyncOnList => VblankLineVsyncOn()[..ch.transferCount]
    case VactiveList => VactiveLine()[..ch.transferCount]
    case Framebuf(offset) => WordsAt(f, offset, ch.transferCount)
  }

  /** The handler's globals and the two channels' registers; which channel is transferring; whether
      the other one's completion interrupt is waiting; and the words sent so far. */
  datatype State = State(dmaPong: bool, vScanline: nat, cmdlistPosted: bool, ping: Channel, pong: Channel,
                         playingPong: bool, irqPending: bool, sent: seq<nat>)

  const INITIAL := Channel(VsyncOffList, 7)

  function Init(): State {
    State(false, 2, false, INITIAL, INITIAL, false, false, [])
  }

  /** What the interrupt loads for a scanline. */
  function NextBlock(vScanline: nat, cmdlistPosted: bool): Channel {
    if V_FRONT_PORCH <= vScanline < V_FRONT_PORCH + V_SYNC_WIDTH then Channel(VsyncOnList, 7)
    else if vScanline < V_FRONT_PORCH + V_SYNC_WIDTH + V_BACK_PORCH then Channel(VsyncOffList, 7)
    else if !cmdlistPosted then Channel(VactiveList, 9)
    else Channel(Framebuf((vScanline - (V_TOTAL_LINES - V_ACTIVE_LINES)) * H_ACTIVE_PIXELS), H_ACTIVE_PIXELS / 4)
  }

  predicate IsVblank(vScanline: nat) {
    vScanline < V_TOTAL_LINES - V_ACTIVE_LINES
  }

  /** After a vertical-blank line, or an active line's pixels, comes the next line. */
  function Handled(s: State): State {
    var block := NextBlock(s.vScanline, s.cmdlistPosted);
    var posted := if IsVblank(s.vScanline) then s.cmdlistPosted else !s.cmdlistPosted;
    s.(dmaPong := !s.dmaPong,
       ping := if s.dmaPong then s.ping else block,
       pong := if s.dmaPong then block else s.pong,
       cmdlistPosted := posted,
       vScanline := if posted then s.vScanline else (s.vScanline + 1) % V_TOTAL_LINES,
       irqPending := false)
  }

  class Scanout {
    var dmaPong: bool
    var vScanline: nat
    var vactiveCmdlistPosted: bool
    var ping: Channel
    var pong: Channel
    ghost var playingPong: bool
    ghost var irqPending: bool
    ghost var sent: seq<nat>

    ghost function View(): State
      reads this
    {
      State(dmaPong, vScanline, vactiveCmdlistPosted, ping, pong, playingPong, irqPending, sent)
    }

    constructor ()
      ensures View() == Init()
    {
      dmaPong, vScanline, vactiveCmdlistPosted := false, 2, false;
      ping, pong := Channel(VsyncOffList, 7), Channel(VsyncOffList, 7);
      playingPong, irqPending, sent := false, false, [];
    }

    method DmaIrqHandler()
      requires irqPending
      modifies this
      ensures View() == Handled(old(View()))
    {
      irqPending := false;
      var chNum := if dmaPong then 1 else 0;
      dmaPong := !dmaPong;
      var ch: Channel;
      if vScanline >= V_FRONT_PORCH && vScanline < V_FRONT_PORCH + V_SYNC_WIDTH {
        ch := Channel(VsyncOnList, 7);
      } else if vScanline < V_FRONT_PORCH + V_SYNC_WIDTH + V_BACK_PORCH {
        ch := Channel(VsyncOffList, 7);
      } else if !vactiveCmdlistPosted {
        ch := Channel(VactiveList, 9);
        vactiveCmdlistPosted := true;
      } else {
        ch := Channel(Framebuf((vScanline - (V_TOTAL_LINES - V_ACTIVE_LINES)) * H_ACTIVE_PIXELS), H_ACTIVE_PIXELS / 4);
        vactiveCmdlistPosted := false;
      }
      if chNum == 0 {
        ping := ch;
      } else {
        pong := ch;
      }
      if !vactiveCmdlistPosted {
        vScanline := (vScanline + 1) % V_TOTAL_LINES;
      }
    }
  }

  // ---------------------------------------------------------------------------------------
  // Runs

  /** Finish: the transferring channel ends, chains to the other one and raises its interrupt. The
      interrupt is served before the other channel ends too. */
  datatype Event = Finish | Irq

  predicate Enabled(s: State, e: Event) {
    match e
    case Finish => !s.irqPending && InBounds(if s.playingPong then s.pong else s.ping)
    case Irq => s.irqPending
  }

  function Apply(f: Framebuffer, s: State, e: Event): State
    requires Enabled(s, e)
  {
    match e
    case Finish => s.(sent := s.sent + Contents(f, if s.playingPong then s.pong else s.ping),
                      playingPong := !s.playingPong, irqPending := true)
    case Irq => Handled(s)
  }

  predicate Possible(f: Framebuffer, s: State, events: seq<Event>)
    decreases |events|
  {
    events == [] || (Enabled(s, events[0]) && Possible(f, Apply(f, s, events[0]), events[1..]))
  }

  function Run(f: Framebuffer, s: State, events: seq<Event>): State
    requires Possible(f, s, events)
    decreases |events|
  {
    if events == [] then s else Run(f, Apply(f, s, events[0]), events[1..])
  }

  // ---------------------------------------------------------------------------------------
  // The intended stream

  function RowWords(f: Framebuffer, row: nat): seq<nat>
    requires row < V_ACTIVE_LINES
  {
    WordsAt(f, row * H_ACTIVE_PIXELS, H_ACTIVE_PIXELS / 4)
  }

  /** One scanline: its command list and, in the active period, its row of pixels. */
  function LineWords(f: Framebuffer, v: nat): seq<nat>
    requires v < V_TOTAL_LINES
  {
    if v == 10 || v == 11 then VblankLineVsyncOn()
    else if v < 45 then VblankLineVsyncOff()
    else VactiveLine() + RowWords(f, v - 45)
  }

  /** The first `lines` scanlines since power-up. */
  function Stream(f: Framebuffer, lines: nat): seq<nat> {
    if lines == 0 then [] else Stream(f, lines - 1) + LineWords(f, (lines - 1) % V_TOTAL_LINES)
  }

  /** The words posted when the next line to post is `line`, its command list being posted already if half. */
  function Posted(f: Framebuffer, line: nat, half: bool): seq<nat> {
    Stream(f, line) + (if half then VactiveLine() else [])
  }

  ghost predicate Inv(f: Framebuffer, s: State, line: nat) {
    var playing, other := if s.playingPong then s.pong else s.ping, if s.playingPong then s.ping else s.pong;
    && s.vScanline == line % V_TOTAL_LINES
    && (s.cmdlistPosted ==> !IsVblank(s.vScanline))
    && InBounds(playing) && InBounds(other) && playing.transferCount >= 7 && other.transferCount >= 7
    && s.dmaPong == (s.playingPong != s.irqPending)
    && s.sent + Contents(f, playing) + (if s.irqPending then [] else Contents(f, other))
         == Posted(f, line, s.cmdlistPosted)
  }

  lemma InitInv(f: Framebuffer)
    ensures Inv(f, Init(), 2)
  {
    assert Stream(f, 1) == [] + VblankLineVsyncOff();
    assert Stream(f, 2) == Stream(f, 1) + VblankLineVsyncOff();
  }

  lemma FinishKeepsInv(f: Framebuffer, s: State, line: nat)
    requires Inv(f, s, line) && Enabled(s, Finish)
    ensures Inv(f, Apply(f, s, Finish), line)
    ensures |Apply(f, s, Finish).sent| >= |s.sent| + 7
  {
    hide Posted, Contents;
    ContentsLength(f, if s.playingPong then s.pong else s.ping);
  }

  lemma ContentsLength(f: Framebuffer, ch: Channel)
    requires InBounds(ch)
    ensures |Contents(f, ch)| == ch.transferCount
  {
  }

  function Finishes(events: seq<Event>): nat {
    if events == [] then 0 else (if events[0] == Finish then 1 else 0) + Finishes(events[1..])
  }

  /** The block that the interrupt loads is the next piece of the intended stream. */
  lemma NextBlockExtends(f: Framebuffer, line: nat, half: bool)
    requires half ==> !IsVblank(line % V_TOTAL_LINES)
    ensures var v := line % V_TOTAL_LINES;
            var block := NextBlock(v, half);
            && InBounds(block) && block.transferCount >= 7
            && (IsVblank(v) || half ==> Posted(f, line, half) + Contents(f, block) == Posted(f, line + 1, false))
            && (!IsVblank(v) && !half ==> Posted(f, line, false) + Contents(f, block) == Posted(f, line, true))
  {
    hide Contents, LineWords, IsVblank;
    var v := line % V_TOTAL_LINES;
    assert Stream(f, line + 1) == Stream(f, line) + LineWords(f, v);
    BlockOfLine(f, v);
  }

  /** A scanline is what the interrupt loads for it: one block, or a list and a row of pixels. */
  lemma BlockOfLine(f: Framebuffer, v: nat)
    requires v < V_TOTAL_LINES
    ensures forall half :: (half ==> !IsVblank(v)) ==>
      InBounds(NextBlock(v, half)) && NextBlock(v, half).transferCount >= 7
    ensures IsVblank(v) ==> LineWords(f, v) == Contents(f, NextBlock(v, false))
    ensures !IsVblank(v) ==> LineWords(f, v) == VactiveLine() + Contents(f, NextBlock(v, true))
    ensures !IsVblank(v) ==> Contents(f, NextBlock(v, false)) == VactiveLine()
  {
    hide VactiveLine, VblankLineVsyncOff, VblankLineVsyncOn, WordsAt;
    if !IsVblank(v) {
      RowInside(v - 45);
    }
  }

  lemma RowInside(row: nat)
    requires row < V_ACTIVE_LINES
    ensures row * H_ACTIVE_PIXELS + 4 * (H_ACTIVE_PIXELS / 4) <= V_ACTIVE_LINES * H_ACTIVE_PIXELS
  {
  }

  lemma NextScanline(line: nat)
    ensures (line % V_TOTAL_LINES + 1) % V_TOTAL_LINES == (line + 1) % V_TOTAL_LINES
  {
  }

  function LineAfter(s: State, line: nat): nat {
    if IsVblank(s.vScanline) || s.cmdlistPosted then line + 1 else line
  }

  lemma IrqKeepsInv(f: Framebuffer, s: State, line: nat)
    requires Inv(f, s, line) && Enabled(s, Irq)
    ensures Inv(f, Apply(f, s, Irq), LineAfter(s, line)) && Apply(f, s, Irq).sent == s.sent
  {
    hide Posted, Contents, NextBlock;
    NextBlockExtends(f, line, s.cmdlistPosted);
    NextScanline(line);
  }

  lemma {:induction false} RunKeepsInv(f: Framebuffer, s: State, events: seq<Event>, line: nat) returns (last: nat)
    requires Inv(f, s, line) && Possible(f, s, events)
    ensures last >= line && Inv(f, Run(f, s, events), last)
    ensures |Run(f, s, events).sent| >= |s.sent| + 7 * Finishes(events)
    decreases |events|
  {
    hide Inv, Apply;
    if events == [] {
      last := line;
    } else if events[0] == Finish {
      FinishKeepsInv(f, s, line);
      last := RunKeepsInv(f, Apply(f, s, Finish), events[1..], line);
    } else {
      IrqKeepsInv(f, s, line);
      last := RunKeepsInv(f, Apply(f, s, Irq), events[1..], LineAfter(s, line));
    }
  }

  lemma PostedIsPrefix(f: Framebuffer, line: nat, half: bool)
    requires half ==> !IsVblank(line % V_TOTAL_LINES)
    ensures Posted(f, line, half) <= Stream(f, line + 1)
  {
    assert Stream(f, line + 1) == Stream(f, line) + LineWords(f, line % V_TOTAL_LINES);
  }

  /** Whatever the interrupt has caused to be sent is a prefix of the intended stream; no transfer
      leaves its array; every completion adds at least one full list; and the channel it
      reloads is never the one that is transferring. */
  lemma SentIsIntended(f: Framebuffer, events: seq<Event>)
    requires Possible(f, Init(), events)
    ensures var s := Run(f, Init(), events);
            && (exists lines: nat :: s.sent <= Stream(f, lines))
            && InBounds(s.ping) && InBounds(s.pong)
            && (s.irqPending ==> s.dmaPong != s.playingPong)
            && |s.sent| >= 7 * Finishes(events)
            && (Enabled(s, Finish) || Enabled(s, Irq))
  {
    hide Stream, Posted, Contents;
    InitInv(f);
    var line := RunKeepsInv(f, Init(), events, 2);
    PostedIsPrefix(f, line, Run(f, Init(), events).cmdlistPosted);
  }

  // ---------------------------------------------------------------------------------------
  // The command expander

  datatype Symbol = Control(word: nat) | Pixel(byte: nat)

  /** Expecting a command; a word to repeat; pixel words for so many pixels; or lost. */
  datatype Expander = Expecting | Raw(repeats: nat) | Tmds(pixels: nat) | Lost

  function Repeat(w: nat, n: nat): (r: seq<Symbol>)
    ensures |r| == n
  {
    seq(n, _ => Control(w))
  }

  /** The four 8-bit chunks of a pixel word, shifted out by eight bits at a time. */
  function Chunks(w: nat): (r: seq<Symbol>)
    ensures |r| == 4
  {
    [Pixel(w % 256), Pixel(w / 256 % 256), Pixel(w / 256 / 256 % 256), Pixel(w / 256 / 256 / 256 % 256)]
  }

  /** A command is an opcode, 1 to repeat a raw word, 2 for pixels and 15 for nothing, above a count of 12 bits. */
  function Expand(x: Expander, w: nat): (Expander, seq<Symbol>) {
    match x
    case Expecting =>
      var op, count := w / 4096 % 16, w % 4096;
      if op == 1 then (Raw(count), [])
      else if op == 2 then (Tmds(count), [])
      else if op == 15 then (Expecting, [])
      else (Lost, [])
    case Raw(n) => (Expecting, Repeat(w, n))
    case Tmds(n) => if n > 4 then (Tmds(n - 4), Chunks(w)) else (Expecting, Chunks(w)[..n])
    case Lost => (Lost, [])
  }

  function ExpandAll(x: Expander, words: seq<nat>): (Expander, seq<Symbol>)
    decreases |words|
  {
    if words == [] then (x, []) else
      var (y, symbols) := Expand(x, words[0]);
      var (z, rest) := ExpandAll(y, words[1..]);
      (z, symbols + rest)
  }

  lemma {:induction false} ExpandAppend(x: Expander, a: seq<nat>, b: seq<nat>)
    ensures var (y, s) := ExpandAll(x, a);
            var (z, t) := ExpandAll(y, b);
            ExpandAll(x, a + b) == (z, s + t)
    decreases |a|
  {
    hide Expand;
    if a == [] {
      assert a + b == b;
      var (z, t) := ExpandAll(x, b);
      assert [] + t == t;
    } else {
      var (y, s) := Expand(x, a[0]);
      ExpandAppend(y, a[1..], b);
      assert (a + b)[1..] == a[1..] + b;
      var (w, s') := ExpandAll(y, a[1..]);
      var (z, t) := ExpandAll(w, b);
      assert (s + s') + t == s + (s' + t);
    }
  }

  lemma ExpandOne(x: Expander, w: nat)
    ensures ExpandAll(x, [w]) == Expand(x, w)
  {
    hide Expand;
    var (y, s) := Expand(x, w);
    assert [w][1..] == [] && ExpandAll(y, []) == (y, []);
    assert s + [] == s;
  }

  // ---------------------------------------------------------------------------------------
  // The picture

  /** The symbol of pixel clock c of scanline v: sync pulses of 96 clocks after a front porch of 16,
      vertical sync on lines 10 and 11, and the picture in the last 640 clocks of the last 480 lines. */
  function Ideal(f: Framebuffer, v: nat, c: nat): Symbol
    requires v < 525 && c < 800
  {
    var vsync := if v == 10 || v == 11 then 0 else 1;
    if v >= 45 && c >= 160 then Pixel(f[(v - 45) * 640 + (c - 160)])
    else if 16 <= c < 112 then Control(SyncWord(vsync, 0))
    else Control(SyncWord(vsync, 1))
  }

  function IdealLine(f: Framebuffer, v: nat): (r: seq<Symbol>)
    requires v < 525
    ensures |r| == 800
  {
    seq(800, c requires 0 <= c < 800 => Ideal(f, v, c))
  }

  function Pixels(f: Framebuffer, offset: nat, count: nat): (r: seq<Symbol>)
    requires offset + count <= |f|
    ensures |r| == count
  {
    seq(count, k requires 0 <= k < count => Pixel(f[offset + k]))
  }

  lemma WordChunks(a: nat, b: nat, c: nat, d: nat)
    requires a < 256 && b < 256 && c < 256 && d < 256
    ensures Chunks(a + 256 * b + 65536 * c + 16777216 * d) == [Pixel(a), Pixel(b), Pixel(c), Pixel(d)]
  {
    ByteShift(a, b + 256 * c + 65536 * d);
    ByteShift(b, c + 256 * d);
    ByteShift(c, d);
    ByteShift(d, 0);
  }

  lemma ByteShift(low: nat, high: nat)
    requires low < 256
    ensures (low + 256 * high) / 256 == high && (low + 256 * high) % 256 == low
  {
  }

  lemma {:induction false} ExpandPixels(f: Framebuffer, offset: nat, count: nat)
    requires count > 0 && offset + 4 * count <= |f|
    ensures ExpandAll(Tmds(4 * count), WordsAt(f, offset, count)) == (Expecting, Pixels(f, offset, 4 * count))
    decreases count
  {
    hide Chunks, ExpandAll;
    WordChunks(f[offset], f[offset + 1], f[offset + 2], f[offset + 3]);
    var words := WordsAt(f, offset, count);
    assert words == [words[0]] + WordsAt(f, offset + 4, count - 1);
    assert Chunks(words[0]) == Pixels(f, offset, 4);
    ExpandOne(Tmds(4 * count), words[0]);
    if count == 1 {
      assert Chunks(words[0])[..4] == Chunks(words[0]);
      assert words == [words[0]];
    } else {
      ExpandAppend(Tmds(4 * count), [words[0]], WordsAt(f, offset + 4, count - 1));
      ExpandPixels(f, offset + 4, count - 1);
      assert Pixels(f, offset, 4) + Pixels(f, offset + 4, 4 * (count - 1)) == Pixels(f, offset, 4 * count);
    }
  }

  lemma ExpandPair(op: nat, n: nat, w: nat)
    requires op == CMD_RAW_REPEAT && n < 4096
    ensures ExpandAll(Expecting, [Command(op, n), w]) == (Expecting, Repeat(w, n))
  {
    hide ExpandAll, Repeat;
    ExpandOne(Expecting, Command(op, n));
    ExpandOne(Raw(n), w);
    ExpandAppend(Expecting, [Command(op, n)], [w]);
    assert [Command(op, n)] + [w] == [Command(op, n), w];
    assert [] + Repeat(w, n) == Repeat(w, n);
  }

  lemma ExpandNop()
    ensures ExpandAll(Expecting, [Command(CMD_NOP, 0)]) == (Expecting, [])
  {
    ExpandOne(Expecting, Command(CMD_NOP, 0));
  }

  lemma ExpandTmds()
    ensures ExpandAll(Expecting, [Command(CMD_TMDS, H_ACTIVE_PIXELS)]) == (Tmds(640), [])
  {
    ExpandOne(Expecting, Command(CMD_TMDS, H_ACTIVE_PIXELS));
  }

  lemma VblankSymbols(f: Framebuffer, v: nat)
    requires v < 45
    ensures ExpandAll(Expecting, LineWords(f, v)) == (Expecting, IdealLine(f, v))
  {
    hide Command, SyncWord, ExpandAll;
    var vsync := if v == 10 || v == 11 then 0 else 1;
    var a := [Command(CMD_RAW_REPEAT, 16), SyncWord(vsync, 1)];
    var b := [Command(CMD_RAW_REPEAT, 96), SyncWord(vsync, 0)];
    var c := [Command(CMD_RAW_REPEAT, 688), SyncWord(vsync, 1)];
    var d := [Command(CMD_NOP, 0)];
    assert LineWords(f, v) == a + (b + (c + d));
    ExpandPair(CMD_RAW_REPEAT, 16, SyncWord(vsync, 1));
    ExpandPair(CMD_RAW_REPEAT, 96, SyncWord(vsync, 0));
    ExpandPair(CMD_RAW_REPEAT, 688, SyncWord(vsync, 1));
    ExpandNop();
    ExpandAppend(Expecting, c, d);
    ExpandAppend(Expecting, b, c + d);
    ExpandAppend(Expecting, a, b + (c + d));
    assert Repeat(SyncWord(vsync, 1), 16) + (Repeat(SyncWord(vsync, 0), 96) + (Repeat(SyncWord(vsync, 1), 688) + []))
           == IdealLine(f, v);
  }

  lemma ActiveSymbols(f: Framebuffer, v: nat)
    requires 45 <= v < 525
    ensures ExpandAll(Expecting, LineWords(f, v)) == (Expecting, IdealLine(f, v))
  {
    hide Command, SyncWord, ExpandAll, WordsAt, IdealLine, Pixels, Repeat, RowWords;
    var row := RowWords(f, v - 45);
    assert LineWords(f, v) == VactiveLine() + row;
    assert VactiveLine() == VactiveLine()[..8] + [Command(CMD_TMDS, 640)];
    assert LineWords(f, v) == VactiveLine()[..8] + ([Command(CMD_TMDS, 640)] + row);
    ActivePorch();
    ExpandTmds();
    ActiveRow(f, v);
    ExpandAppend(Tmds(640), [], row);
    ExpandAppend(Expecting, [Command(CMD_TMDS, 640)], row);
    ExpandAppend(Expecting, VactiveLine()[..8], [Command(CMD_TMDS, 640)] + row);
    ActiveLineParts(f, v);
    assert [] + Pixels(f, (v - 45) * 640, 640) == Pixels(f, (v - 45) * 640, 640);
  }

  function PorchSymbols(): (r: seq<Symbol>)
    ensures |r| == 160
  {
    Repeat(SyncWord(1, 1), 16) + Repeat(SyncWord(1, 0), 96) + Repeat(SyncWord(1, 1), 48)
  }

  lemma ActiveRow(f: Framebuffer, v: nat)
    requires 45 <= v < 525
    ensures (v - 45) * 640 + 640 <= |f|
    ensures ExpandAll(Tmds(640), RowWords(f, v - 45)) == (Expecting, Pixels(f, (v - 45) * 640, 640))
  {
    hide ExpandAll, WordsAt, Pixels;
    RowInside(v - 45);
    ExpandPixels(f, (v - 45) * 640, 160);
  }

  lemma ActiveLineParts(f: Framebuffer, v: nat)
    requires 45 <= v < 525
    ensures (v - 45) * 640 + 640 <= |f|
    ensures IdealLine(f, v) == PorchSymbols() + Pixels(f, (v - 45) * 640, 640)
  {
    hide SyncWord;
  }

  lemma ActivePorch()
    ensures ExpandAll(Expecting, VactiveLine()[..8]) == (Expecting, PorchSymbols())
  {
    hide Command, SyncWord, ExpandAll, Repeat;
    var nop := [Command(CMD_NOP, 0)];
    var a := [Command(CMD_RAW_REPEAT, 16), SyncWord(1, 1)];
    var b := [Command(CMD_RAW_REPEAT, 96), SyncWord(1, 0)];
    var c := [Command(CMD_RAW_REPEAT, 48), SyncWord(1, 1)];
    assert VactiveLine()[..8] == a + (nop + (b + (nop + c)));
    ExpandPair(CMD_RAW_REPEAT, 16, SyncWord(1, 1));
    ExpandPair(CMD_RAW_REPEAT, 96, SyncWord(1, 0));
    ExpandPair(CMD_RAW_REPEAT, 48, SyncWord(1, 1));
    ExpandNop();
    ExpandAppend(Expecting, nop, c);
    ExpandAppend(Expecting, b, nop + c);
    ExpandAppend(Expecting, nop, b + (nop + c));
    ExpandAppend(Expecting, a, nop + (b + (nop + c)));
    var x, y, z := Repeat(SyncWord(1, 1), 16), Repeat(SyncWord(1, 0), 96), Repeat(SyncWord(1, 1), 48);
    assert x + ([] + (y + ([] + z))) == x + y + z;
  }

  lemma {:induction false} StreamSymbols(f: Framebuffer, lines: nat)
    ensures var (x, symbols) := ExpandAll(Expecting, Stream(f, lines));
            && x == Expecting && |symbols| == 800 * lines
            && forall t :: 0 <= t < 800 * lines ==> symbols[t] == Ideal(f, t / 800 % 525, t % 800)
  {
    hide ExpandAll, LineWords, Ideal;
    if lines == 0 {
      ExpandNothing();
    } else {
      StreamSymbols(f, lines - 1);
      var v := (lines - 1) % 525;
      if v < 45 {
        VblankSymbols(f, v);
      } else {
        ActiveSymbols(f, v);
      }
      ExpandAppend(Expecting, Stream(f, lines - 1), LineWords(f, v));
      var symbols := ExpandAll(Expecting, Stream(f, lines)).1;
      forall t | 0 <= t < 800 * lines
        ensures symbols[t] == Ideal(f, t / 800 % 525, t % 800)
      {
        if t >= 800 * (lines - 1) {
          assert t / 800 == lines - 1 && t % 800 == t - 800 * (lines - 1);
        }
      }
    }
  }

  lemma ExpandNothing()
    ensures ExpandAll(Expecting, []) == (Expecting, [])
  {
  }

  lemma {:induction false} LostForever(words: seq<nat>)
    ensures ExpandAll(Lost, words) == (Lost, [])
  {
    if words != [] {
      LostForever(words[1..]);
      assert Expand(Lost, words[0]) == (Lost, []);
      assert ExpandAll(Lost, words).1 == [] + [];
    }
  }

  /** In every run of the interrupt, the expander never loses its place, and at every pixel clock it
      puts out the symbol that the picture calls for: 800 clocks a line, 525 lines a frame. */
  lemma PictureIsCorrect(f: Framebuffer, events: seq<Event>)
    requires Possible(f, Init(), events)
    ensures var (x, symbols) := ExpandAll(Expecting, Run(f, Init(), events).sent);
            && x != Lost
            && forall t :: 0 <= t < |symbols| ==> symbols[t] == Ideal(f, t / 800 % 525, t % 800)
  {
    hide ExpandAll, Stream, Ideal, Run, Possible;
    SentIsIntended(f, events);
    var sent := Run(f, Init(), events).sent;
    var lines: nat :| sent <= Stream(f, lines);
    StreamSymbols(f, lines);
    var rest := Stream(f, lines)[|sent|..];
    assert Stream(f, lines) == sent + rest;
    ExpandAppend(Expecting, sent, rest);
    var (x, symbols) := ExpandAll(Expecting, sent);
    if x == Lost {
      LostForever(rest);
    }
    var all := ExpandAll(Expecting, Stream(f, lines)).1;
    assert symbols <= all;
  }

  // ---------------------------------------------------------------------------------------
  // What a monitor sees

  /** The ten bits of a lane, in the order in which they are sent. */
  function LaneBits(word: nat, lane: nat): (bits: seq<bool>)
    requires lane < 3
    ensures |bits| == 10
  {
    TenBits(if lane == 0 then word % 1024 else if lane == 1 then word / 1024 % 1024 else word / 1048576 % 1024)
  }

  function TenBits(v: nat): (bits: seq<bool>)
    ensures |bits| == 10
  {
    [v % 2 == 1, v / 2 % 2 == 1, v / 4 % 2 == 1, v / 8 % 2 == 1, v / 16 % 2 == 1,
     v / 32 % 2 == 1, v / 64 % 2 == 1, v / 128 % 2 == 1, v / 256 % 2 == 1, v / 512 % 2 == 1]
  }

  function BitsOf(digits: string): seq<bool> {
    seq(|digits|, i requires 0 <= i < |digits| => digits[i] == '1')
  }

  /** The two control bits that a lane carries in the blanking period. */
  datatype ControlBits = ControlBits(c1: bool, c0: bool) | NoControl

  /** The control characters of the TMDS encoding, first bit first. */
  function DecodeControl(bits: seq<bool>): ControlBits {
    if bits == BitsOf("0010101011") then ControlBits(false, false)
    else if bits == BitsOf("1101010100") then ControlBits(false, true)
    else if bits == BitsOf("0010101010") then ControlBits(true, false)
    else if bits == BitsOf("1101010101") then ControlBits(true, true)
    else NoControl
  }

  lemma ControlCodes()
    ensures DecodeControl(TenBits(TMDS_CTRL_00)) == ControlBits(false, false)
    ensures DecodeControl(TenBits(TMDS_CTRL_01)) == ControlBits(false, true)
    ensures DecodeControl(TenBits(TMDS_CTRL_10)) == ControlBits(true, false)
    ensures DecodeControl(TenBits(TMDS_CTRL_11)) == ControlBits(true, true)
  {
    hide TenBits, BitsOf;
    CodeStrings();
    CodeValues();
  }

  lemma CodeValues()
    ensures var t, f := true, false;
            && TenBits(TMDS_CTRL_00) == [f, f, t, f, t, f, t, f, t, t]
            && TenBits(TMDS_CTRL_01) == [t, t, f, t, f, t, f, t, f, f]
            && TenBits(TMDS_CTRL_10) == [f, f, t, f, t, f, t, f, t, f]
            && TenBits(TMDS_CTRL_11) == [t, t, f, t, f, t, f, t, f, t]
  {
  }

  lemma CodeStrings()
    ensures var t, f := true, false;
            && BitsOf("0010101011") == [f, f, t, f, t, f, t, f, t, t]
            && BitsOf("1101010100") == [t, t, f, t, f, t, f, t, f, f]
            && BitsOf("0010101010") == [f, f, t, f, t, f, t, f, t, f]
            && BitsOf("1101010101") == [t, t, f, t, f, t, f, t, f, t]
    ensures BitsOf("0010101011")[0] == BitsOf("0010101010")[0] == false && BitsOf("0010101010")[9] == false
    ensures BitsOf("1101010100")[0] == BitsOf("1101010101")[0] == true && BitsOf("1101010100")[9] == false
    ensures BitsOf("0010101011")[9] == BitsOf("1101010101")[9] == true
  {
  }

  lemma SyncWordLanes(vsync: nat, hsync: nat)
    requires vsync <= 1 && hsync <= 1
    ensures var w := SyncWord(vsync, hsync);
            && w % 1024 == (if vsync == 0 then (if hsync == 0 then TMDS_CTRL_00 else TMDS_CTRL_01)
                            else (if hsync == 0 then TMDS_CTRL_10 else TMDS_CTRL_11))
            && w / 1024 % 1024 == w / 1048576 % 1024 == TMDS_CTRL_00
  {
  }

  /** On lane 0 these are vertical and horizontal sync. */
  lemma SyncWordDecoded(vsync: nat, hsync: nat)
    requires vsync <= 1 && hsync <= 1
    ensures var w := SyncWord(vsync, hsync);
            && DecodeControl(LaneBits(w, 0)) == ControlBits(vsync == 1, hsync == 1)
            && DecodeControl(LaneBits(w, 1)) == DecodeControl(LaneBits(w, 2)) == ControlBits(false, false)
  {
    hide DecodeControl, TenBits, SyncWord;
    SyncWordLanes(vsync, hsync);
    ControlCodes();
  }

  /** In every run, at every pixel clock: a pixel of the frame buffer in the last 640 clocks of the last 480 lines;
      and otherwise control characters on all lanes, with horizontal sync low from clock 16 to 111, vertical sync
      low on lines 10 and 11, and nothing on lanes 1 and 2. */
  lemma MonitorSeesPicture(f: Framebuffer, events: seq<Event>)
    requires Possible(f, Init(), events)
    ensures var symbols := ExpandAll(Expecting, Run(f, Init(), events).sent).1;
            forall t :: 0 <= t < |symbols| ==>
              var line, clock := t / 800 % 525, t % 800;
              if line >= 45 && clock >= 160 then symbols[t] == Pixel(f[(line - 45) * 640 + (clock - 160)])
              else
                && symbols[t].Control?
                && DecodeControl(LaneBits(symbols[t].word, 0))
                     == ControlBits(!(10 <= line <= 11), !(16 <= clock <= 111))
                && DecodeControl(LaneBits(symbols[t].word, 1)) == ControlBits(false, false)
                && DecodeControl(LaneBits(symbols[t].word, 2)) == ControlBits(false, false)
  {
    hide ExpandAll, Run, Possible, DecodeControl, LaneBits, SyncWord;
    PictureIsCorrect(f, events);
    SyncWordDecoded(0, 0);
    SyncWordDecoded(0, 1);
    SyncWordDecoded(1, 0);
    SyncWordDecoded(1, 1);
  }
}
