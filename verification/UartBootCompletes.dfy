/** The other direction for bootloaders/uart/uart_boot.c: a chip that stores what it is sent and reads it
    back can follow the whole script exactly if it has heard one knock; then only a late answer makes the
    loader give it up. The answers to further knocks are taken for the answer to the first command. */
module UartBootCompletes {
  import opened UartBoot

  /** Bytes are stored as they are sent. */
  ghost predicate Exact(noise: Corruption) {
    forall talk: seq<Event>, b: Byte :: noise(talk, b) == b
  }

  lemma FaithfulOne(noise: Corruption, start: Chip, talk: seq<Event>, e: Event)
    requires Faithful(noise, start, talk)
    requires e.Got? ==> var out := After(noise, start, talk).out; out != [] && out[0] == e.byte
    ensures Faithful(noise, start, talk + [e])
    ensures After(noise, start, talk + [e]) == Step(noise, After(noise, start, talk), talk, e)
  {
    hide After;
    AfterOne(noise, start, talk, e);
    var all := talk + [e];
    forall i | 0 <= i < |all| && all[i].Got?
      ensures var out := After(noise, start, all[..i]).out; out != [] && out[0] == all[i].byte
    {
      assert all[..i] == talk[..i];
      assert talk[..|talk|] == talk;
    }
  }

  /** mem with the chunk stored at p. */
  function Stored(mem: seq<Byte>, p: nat, chunk: seq<Byte>): (r: seq<Byte>)
    requires p + |chunk| <= |mem|
    ensures |r| == |mem|
  {
    mem[..p] + chunk + mem[p + |chunk|..]
  }

  lemma {:induction false} Sends(noise: Corruption, start: Chip, talk: seq<Event>, chunk: seq<Byte>, n: nat)
    requires Exact(noise) && Faithful(noise, start, talk) && n <= |chunk|
    requires var c := After(noise, start, talk);
             c.expecting == |chunk| > 0 && c.knock == 4 && c.ptr + |chunk| <= |c.mem|
    ensures var c, t := After(noise, start, talk), talk + SendAll(chunk[..n]);
            && Faithful(noise, start, t)
            && After(noise, start, t) == Chip(Stored(c.mem, c.ptr, chunk[..n]), c.ptr + n, |chunk| - n,
                                              c.out + (if n == |chunk| then [W] else []), 4)
  {
    hide After, Faithful;
    var c := After(noise, start, talk);
    if n == 0 {
      assert talk + SendAll(chunk[..0]) == talk && Stored(c.mem, c.ptr, chunk[..0]) == c.mem;
    } else {
      Sends(noise, start, talk, chunk, n - 1);
      var t, b := talk + SendAll(chunk[..n - 1]), chunk[n - 1];
      FaithfulOne(noise, start, t, Sent(b, true));
      assert talk + SendAll(chunk[..n]) == t + [Sent(b, true)];
      assert noise(t, b) == b;
      assert Stored(c.mem, c.ptr, chunk[..n - 1])[c.ptr + n - 1 := b] == Stored(c.mem, c.ptr, chunk[..n]);
    }
  }

  lemma WritesChunk(noise: Corruption, start: Chip, talk: seq<Event>, chunk: seq<Byte>)
    requires Exact(noise) && Faithful(noise, start, talk) && |chunk| == CHUNK
    requires var c := After(noise, start, talk); Open(c) && c.out == [] && c.ptr + CHUNK <= |c.mem|
    ensures var c, t := After(noise, start, talk), talk + WriteChunk(chunk);
            && Faithful(noise, start, t)
            && After(noise, start, t) == Chip(Stored(c.mem, c.ptr, chunk), c.ptr + CHUNK, 0, [], 4)
  {
    hide After, Faithful, Stored;
    FaithfulOne(noise, start, talk, Sent(W, false));
    var w := talk + [Sent(W, false)];
    Sends(noise, start, w, chunk, CHUNK);
    assert chunk[..CHUNK] == chunk;
    FaithfulOne(noise, start, w + SendAll(chunk), Got(W, false));
    assert talk + WriteChunk(chunk) == w + SendAll(chunk) + [Got(W, false)];
  }

  lemma {:induction false} WritesImage(noise: Corruption, start: Chip, talk: seq<Event>, image: seq<Byte>)
    requires Exact(noise) && Faithful(noise, start, talk) && WholeChunks(image)
    requires var c := After(noise, start, talk); Open(c) && c.out == [] && c.ptr == 0 && |image| <= |c.mem|
    ensures var c, t := After(noise, start, talk), talk + WriteTalk(image);
            && Faithful(noise, start, t)
            && After(noise, start, t) == Chip(Stored(c.mem, 0, image), |image|, 0, [], 4)
    decreases |image|
  {
    hide After, Faithful, WriteChunk, WriteTalk;
    var mem := After(noise, start, talk).mem;
    if image == [] {
      EmptyImage(image, talk);
      assert image == image[..0] && Stored(mem, 0, image) == mem;
    } else {
      LastChunk(image);
      var k := |image| - CHUNK;
      var before, chunk := image[..k], image[k..];
      WritesImage(noise, start, talk, before);
      WritesChunk(noise, start, talk + WriteTalk(before), chunk);
      assert talk + WriteTalk(image) == talk + WriteTalk(before) + WriteChunk(chunk);
      assert Stored(Stored(mem, 0, before), k, chunk) == Stored(mem, 0, image);
    }
  }

  lemma {:induction false} Gets(noise: Corruption, start: Chip, talk: seq<Event>, chunk: seq<Byte>, n: nat)
    requires Faithful(noise, start, talk) && n <= |chunk| && chunk <= After(noise, start, talk).out
    ensures var c, t := After(noise, start, talk), talk + GetAll(chunk[..n]);
            && Faithful(noise, start, t) && After(noise, start, t) == c.(out := c.out[n..])
  {
    hide After, Faithful;
    if n == 0 {
      assert talk + GetAll(chunk[..0]) == talk;
    } else {
      Gets(noise, start, talk, chunk, n - 1);
      var t, b := talk + GetAll(chunk[..n - 1]), chunk[n - 1];
      FaithfulOne(noise, start, t, Got(b, true));
      assert talk + GetAll(chunk[..n]) == t + [Got(b, true)];
    }
  }

  lemma VerifiesChunk(noise: Corruption, start: Chip, talk: seq<Event>, chunk: seq<Byte>)
    requires Faithful(noise, start, talk) && |chunk| == CHUNK
    requires var c := After(noise, start, talk);
             Open(c) && c.out == [] && c.ptr + CHUNK <= |c.mem| && c.mem[c.ptr..c.ptr + CHUNK] == chunk
    ensures var c, t := After(noise, start, talk), talk + VerifyChunk(chunk);
            Faithful(noise, start, t) && After(noise, start, t) == c.(ptr := c.ptr + CHUNK)
  {
    hide After, Faithful;
    FaithfulOne(noise, start, talk, Sent(R, false));
    var r := talk + [Sent(R, false)];
    Gets(noise, start, r, chunk, CHUNK);
    assert chunk[..CHUNK] == chunk;
    FaithfulOne(noise, start, r + GetAll(chunk), Got(R, false));
    assert talk + VerifyChunk(chunk) == r + GetAll(chunk) + [Got(R, false)];
  }

  lemma {:induction false} VerifiesImage(noise: Corruption, start: Chip, talk: seq<Event>, image: seq<Byte>)
    requires Faithful(noise, start, talk) && WholeChunks(image)
    requires var c := After(noise, start, talk); Open(c) && c.out == [] && c.ptr == 0 && image <= c.mem
    ensures var c, t := After(noise, start, talk), talk + VerifyTalk(image);
            Faithful(noise, start, t) && After(noise, start, t) == c.(ptr := |image|)
    decreases |image|
  {
    hide After, Faithful, VerifyChunk, VerifyTalk;
    if image == [] {
      EmptyImage(image, talk);
      assert image == image[..0];
    } else {
      LastChunk(image);
      var k := |image| - CHUNK;
      VerifiesImage(noise, start, talk, image[..k]);
      VerifiesChunk(noise, start, talk + VerifyTalk(image[..k]), image[k..]);
      assert talk + VerifyTalk(image) == talk + VerifyTalk(image[..k]) + VerifyChunk(image[k..]);
    }
  }

  function Answers(n: nat): (out: seq<Byte>)
    ensures |out| == n
  {
    seq(n, _ => N)
  }

  /** Every knock is answered. */
  lemma {:induction false} KnocksAnswered(noise: Corruption, start: Chip, n: nat)
    requires Fresh(start)
    ensures Faithful(noise, start, Knocks(n))
    ensures After(noise, start, Knocks(n)) == start.(out := Answers(n), knock := if n == 0 then start.knock else 4)
  {
    hide After, Faithful;
    if n == 0 {
      NothingYet(noise, start);
      AfterNothing(noise, start);
    } else {
      KnocksAnswered(noise, start, n - 1);
      AfterOneKnock(noise, start, Knocks(n - 1));
      KnockAsksNothing(noise, start, Knocks(n - 1));
      assert Answers(n) == Answers(n - 1) + [N];
    }
  }

  lemma KnockAsksNothing(noise: Corruption, start: Chip, talk: seq<Event>)
    requires Faithful(noise, start, talk)
    ensures Faithful(noise, start, talk + KnockOnce())
  {
    hide After, Faithful;
    var e := KnockOnce();
    FaithfulOne(noise, start, talk, e[0]);
    FaithfulOne(noise, start, talk + [e[0]], e[1]);
    FaithfulOne(noise, start, talk + [e[0]] + [e[1]], e[2]);
    FaithfulOne(noise, start, talk + [e[0]] + [e[1]] + [e[2]], e[3]);
    FaithfulOne(noise, start, talk + [e[0]] + [e[1]] + [e[2]] + [e[3]], e[4]);
    assert talk + e == talk + [e[0]] + [e[1]] + [e[2]] + [e[3]] + [e[4]];
  }

  /** The loader reads one of the answers. */
  function Knocked(n: nat): seq<Event> {
    Knocks(n) + [Got(N, false)]
  }

  lemma AnswersKnock(noise: Corruption, start: Chip, n: nat)
    requires Fresh(start) && n > 0
    ensures Faithful(noise, start, Knocked(n))
    ensures After(noise, start, Knocked(n)) == start.(out := Answers(n - 1), knock := 4)
  {
    hide After, Faithful, Knocks;
    KnocksAnswered(noise, start, n);
    FaithfulOne(noise, start, Knocks(n), Got(N, false));
  }

  lemma NothingYet(noise: Corruption, start: Chip)
    ensures Faithful(noise, start, [])
  {
  }

  /** After one knock the chip can answer everything as scripted, and then holds the image. */
  lemma FollowsScript(noise: Corruption, start: Chip, image: seq<Byte>)
    requires Exact(noise) && WholeChunks(image)
    requires Fresh(start) && start.ptr == 0 && |image| <= |start.mem|
    ensures Faithful(noise, start, WholeScript(1, image))
    ensures image <= After(noise, start, WholeScript(1, image)).mem
  {
    hide After, Faithful, WriteTalk, VerifyTalk, Knocks;
    var t0 := Knocked(1);
    AnswersKnock(noise, start, 1);
    WritesImage(noise, start, t0, image);
    var t1 := t0 + WriteTalk(image);
    FaithfulOne(noise, start, t1, Sent(C, false));
    FaithfulOne(noise, start, t1 + [Sent(C, false)], Got(C, false));
    var t2 := t1 + [Sent(C, false)] + [Got(C, false)];
    VerifiesImage(noise, start, t2, image);
    var t3 := t2 + VerifyTalk(image);
    FaithfulOne(noise, start, t3, Sent(X, false));
    FaithfulOne(noise, start, t3 + [Sent(X, false)], Got(X, false));
    assert WholeScript(1, image) == t3 + [Sent(X, false)] + [Got(X, false)];
  }

  /** What the chip says next is determined by what has been said. */
  lemma SameAnswer(noise: Corruption, start: Chip, s: seq<Event>, t: seq<Event>, n: nat)
    requires n < |s| && n < |t| && s[..n] == t[..n] && s[n].Got? && t[n].Got?
    requires Faithful(noise, start, s) && Faithful(noise, start, t)
    ensures s[n].byte == t[n].byte
  {
    hide After;
  }

  lemma TalkLast(log: seq<Event>)
    requires log != [] && !log[|log| - 1].Polled?
    ensures var said := Talk(log[..|log| - 1]);
            |Talk(log)| == |said| + 1 && Talk(log)[..|said|] == said && Talk(log)[|said|] == log[|log| - 1]
  {
  }

  // ---------------------------------------------------------------------------------------
  // More than one knock heard

  /** The first command after the knock, up to its acknowledgement. */
  function FirstCommand(image: seq<Byte>): seq<Event>
    requires WholeChunks(image)
  {
    if image == [] then [Sent(C, false)] else [Sent(W, false)] + SendAll(image[..CHUNK])
  }

  function FirstAcknowledgement(image: seq<Byte>): Byte {
    if image == [] then C else W
  }

  lemma ScriptStart(n: nat, image: seq<Byte>)
    requires WholeChunks(image)
    ensures Knocked(n) + FirstCommand(image) + [Got(FirstAcknowledgement(image), false)] <= WholeScript(n, image)
  {
    hide Knocks, WriteTalk, VerifyTalk;
    if image == [] {
      EmptyImage(image, []);
      assert image == image[..0];
    } else {
      WriteTalkStep(image, 0);
      WriteTalkPrefix(image, CHUNK);
      EmptyImage(image, []);
    }
  }

  lemma KnocksAreSent(n: nat)
    ensures |Knocks(n)| == 5 * n && forall i :: 0 <= i < |Knocks(n)| ==> Knocks(n)[i].Sent?
  {
  }

  /** What waits to be read after the first command: the other answers to the knocks come first. */
  lemma AfterFirstCommand(noise: Corruption, start: Chip, n: nat, image: seq<Byte>)
    requires Fresh(start) && n > 0 && WholeChunks(image)
    ensures After(noise, start, Knocked(n) + FirstCommand(image)).out == Answers(n - 1) + [FirstAcknowledgement(image)]
  {
    hide After, Knocked;
    AnswersKnock(noise, start, n);
    if image == [] {
      AfterOne(noise, start, Knocked(n), Sent(C, false));
    } else {
      var w, chunk := Knocked(n) + [Sent(W, false)], image[..CHUNK];
      AfterOne(noise, start, Knocked(n), Sent(W, false));
      AfterSends(noise, start, w, chunk, CHUNK);
      assert chunk[..CHUNK] == chunk;
      assert Knocked(n) + FirstCommand(image) == w + SendAll(chunk);
    }
  }

  lemma AnswerAt(noise: Corruption, start: Chip, s: seq<Event>, t: seq<Event>)
    requires |t| < |s| && s[..|t|] == t && s[|t|].Got? && Faithful(noise, start, s)
    ensures var out := After(noise, start, t).out; out != [] && out[0] == s[|t|].byte
  {
    hide After;
  }

  /** With more than one knock answered, the script cannot be followed. */
  lemma FollowsScriptExactly(noise: Corruption, start: Chip, n: nat, image: seq<Byte>)
    requires Exact(noise) && WholeChunks(image) && n > 0
    requires Fresh(start) && start.ptr == 0 && |image| <= |start.mem|
    ensures Faithful(noise, start, WholeScript(n, image)) <==> n == 1
  {
    hide After, Faithful, WholeScript, Knocked, FirstCommand;
    if n == 1 {
      FollowsScript(noise, start, image);
    } else if Faithful(noise, start, WholeScript(n, image)) {
      ScriptStart(n, image);
      AfterFirstCommand(noise, start, n, image);
      AnswerAt(noise, start, WholeScript(n, image), Knocked(n) + FirstCommand(image));
    }
  }

  /** Up to the first acknowledgement the script waits for an answer once, after the knocks. */
  lemma FirstAnswers(n: nat, image: seq<Byte>, m: nat)
    requires WholeChunks(image) && m < |Knocked(n) + FirstCommand(image)|
    ensures (Knocked(n) + FirstCommand(image))[m].Got? <==> m == |Knocks(n)|
    ensures (Knocked(n) + FirstCommand(image))[..|Knocks(n)|] == Knocks(n)
    ensures (Knocked(n) + FirstCommand(image))[|Knocks(n)|] == Got(N, false)
  {
    hide Knocks;
    KnocksAreSent(n);
  }

  /** So a wrong answer after more than one knock is the answer to the second one, read in place of the first
      acknowledgement. */
  lemma QueuedAnswerResets(noise: Corruption, start: Chip, n: nat, image: seq<Byte>, said: seq<Event>, e: Event)
    requires WholeChunks(image) && n > 1 && Fresh(start)
    requires |said| < |WholeScript(n, image)| && said == WholeScript(n, image)[..|said|]
    requires e.Got? && Faithful(noise, start, said + [e])
    requires WholeScript(n, image)[|said|].Got? && e.byte != WholeScript(n, image)[|said|].byte
    ensures said == Knocked(n) + FirstCommand(image) && e.byte == N
  {
    hide After, Faithful, WholeScript, Knocked, FirstCommand, Knocks;
    var script, first, talk := WholeScript(n, image), Knocked(n) + FirstCommand(image), said + [e];
    var k := |Knocks(n)|;
    ScriptStart(n, image);
    AfterFirstCommand(noise, start, n, image);
    assert script[..|first|] == first && script[|first|] == Got(FirstAcknowledgement(image), false);
    if |said| < |first| {
      FirstAnswers(n, image, |said|);
      assert |said| == k && said == first[..k];
      KnocksAnswered(noise, start, n);
      AnswerAt(noise, start, talk, said);
    } else {
      if |said| > |first| {
        assert talk[..|first|] == first && talk[|first|] == script[|first|];
      } else {
        assert said == first && talk[..|first|] == first;
      }
      AnswerAt(noise, start, talk, first);
    }
  }

  /** The loader gives up on such a chip for being late, or, if it has heard more than one knock, for the answer to
      the second one. */
  lemma ResetReasons(noise: Corruption, start: Chip, n: nat, image: seq<Byte>, log: seq<Event>)
    requires Exact(noise) && WholeChunks(image) && n > 0
    requires Fresh(start) && start.ptr == 0 && |image| <= |start.mem|
    requires Faithful(noise, start, Talk(log)) && Deviates(log, WholeScript(n, image))
    ensures (log[|log| - 1].Polled? && !log[|log| - 1].readable)
         || (n > 1 && log[|log| - 1].Got? && log[|log| - 1].byte == N
             && Talk(log) == Knocked(n) + FirstCommand(image) + [log[|log| - 1]])
  {
    hide After, Faithful, WholeScript, Talk, Knocked, FirstCommand;
    if log[|log| - 1].Got? {
      TalkLast(log);
      var said := Talk(log[..|log| - 1]);
      if n == 1 {
        FollowsScript(noise, start, image);
        SameAnswer(noise, start, Talk(log), WholeScript(1, image), |said|);
      } else {
        assert Talk(log) == said + [log[|log| - 1]];
        QueuedAnswerResets(noise, start, n, image, said, log[|log| - 1]);
      }
    }
  }
}
