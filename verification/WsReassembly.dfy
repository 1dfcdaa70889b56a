/** Fragment reassembly: from the frames of a message stream, or from its bytes cut up in any way,
    repeated recvmsg calls yield the messages. */
module WsReassembly {
  import opened Bytes
  import opened Wrappers
  import opened HybiCodec
  import opened WsConnection
  import opened WsReceive

  // ----- what a client may send -----

  predicate IsControl(f: Frame) {
    f.opcode == PING || f.opcode == PONG
  }

  /** A masked frame that is a ping, a pong (unfragmented), or a piece of a binary message. */
  predicate Acceptable(f: Frame) {
    f.masked && (if IsControl(f) then f.fin else f.opcode == CONTINUATION || f.opcode == BINARY)
  }

  /** A piece of message data: which opcode it carries, whether it is the last, and its bytes. */
  datatype Piece = Piece(opcode: nat, fin: bool, data: seq<byte>)

  /** The data frames among fs, in order. */
  function DataOf(fs: seq<Frame>): seq<Piece> {
    if fs == [] then []
    else (if IsControl(fs[0]) then [] else [Piece(fs[0].opcode, fs[0].fin, fs[0].payload)]) + DataOf(fs[1..])
  }

  /** The payloads of the pings among fs, in order. */
  function PingsOf(fs: seq<Frame>): seq<Payload> {
    if fs == [] then []
    else (if fs[0].opcode == PING then [fs[0].payload] else []) + PingsOf(fs[1..])
  }

  function PongsIn(log: seq<Queued>): seq<Payload> {
    if log == [] then []
    else PongsIn(log[..|log| - 1]) + (if log[|log| - 1].opcode == PONG then [log[|log| - 1].payload] else [])
  }

  /** The frames that finish a message whose earlier fragments have been sent. */
  function Continuations(rest: seq<seq<byte>>): seq<Piece> {
    if rest == [] then []
    else [Piece(CONTINUATION, |rest| == 1, rest[0])] + Continuations(rest[1..])
  }

  /** One message cut into at least one fragment (RFC 6455, section 5.4). */
  type Fragments = m: seq<seq<byte>> | m != [] witness [[]]

  function Fragmented(m: Fragments): seq<Piece> {
    [Piece(BINARY, |m| == 1, m[0])] + Continuations(m[1..])
  }

  function Stream(msgs: seq<Fragments>): seq<Piece> {
    if msgs == [] then [] else Fragmented(msgs[0]) + Stream(msgs[1..])
  }

  /** An empty first fragment leaves no trace in _partial_msg, so the message is lost. */
  predicate Remembered(m: Fragments) {
    |m| == 1 || m[0] != []
  }

  function Delivered(msgs: seq<Fragments>): seq<seq<byte>> {
    if msgs == [] then []
    else (if Remembered(msgs[0]) then [Concat(msgs[0])] else []) + Delivered(msgs[1..])
  }

  function Originals(msgs: seq<Fragments>): seq<seq<byte>> {
    if msgs == [] then [] else [Concat(msgs[0])] + Originals(msgs[1..])
  }

  // ----- how the caller drives the endpoint -----

  /** The caller's loop: recvmsg for as long as frames are pending. */
  function DeliverPending(c: Conn, validUtf8: seq<byte> -> bool): (Conn, seq<seq<byte>>)
    decreases |c.recvQueue|
  {
    if c.recvQueue == [] then (c, [])
    else
      var (d, r) := RecvMsg(c, [], validUtf8);
      if |d.recvQueue| >= |c.recvQueue| then (d, [])
      else if r.Message? then
        var (e, ms) := DeliverPending(d, validUtf8);
        (e, [r.data] + ms)
      else (d, [])
  }

  /** Frames handled one at a time, collecting the messages they complete. */
  function Absorb(c: Core, fs: seq<Frame>, validUtf8: seq<byte> -> bool): (Core, seq<seq<byte>>)
    decreases |fs|
  {
    if fs == [] then (c, [])
    else
      var (d, r) := StepFrame(c, fs[0], validUtf8);
      var (e, ms) := Absorb(d, fs[1..], validUtf8);
      (e, (if r.Message? then [r.data] else []) + ms)
  }

  /** A connection whose peer has not closed it and whose socket takes everything it is given. */
  predicate Healthy(c: Core) {
    c.open && !c.receivedClose && c.plan == [] && c.sendBuffer == [] && c.previous.None?
  }

  lemma SendingSucceeds(c: Core, opcode: nat, msg: Payload)
    requires Healthy(c)
    ensures SendFrame(c, opcode, msg).1 == Done && Healthy(SendFrame(c, opcode, msg).0)
    ensures SendFrame(c, opcode, msg).0.log == c.log + [Queued(opcode, msg)]
    ensures SendFrame(c, opcode, msg).0.sentClose == c.sentClose
    ensures SendFrame(c, opcode, msg).0.partialMsg == c.partialMsg
  {
    hide Encode;
    EncodeIsNonEmpty(opcode, msg);
  }

  lemma EncodeIsNonEmpty(opcode: nat, msg: Payload)
    ensures |Encode(opcode, msg, None, true)| >= 2
  {
    EncodeLength(opcode, msg, None, true);
  }

  lemma PongAppended(log: seq<Queued>, q: Queued)
    ensures PongsIn(log + [q]) == PongsIn(log) + (if q.opcode == PONG then [q.payload] else [])
  {
    assert (log + [q])[..|log|] == log;
  }

  lemma FailGoesOn(c: Core, code: nat, reason: string)
    requires Healthy(c) && |reason| < 100 && code < 0x1_0000
    ensures var (d, r) := Fail(c, code, reason);
            r == Continue && Healthy(d) && PongsIn(d.log) == PongsIn(c.log) && d.partialMsg == c.partialMsg
  {
    hide SendFrame, PongsIn, ClosePayload;
    ShortFits(Ascii(reason));
    if !c.sentClose {
      var p := ClosePayload(Some(code), Some(Ascii(reason)));
      var c1 := c.(closeCode := Some(1000)).(sentClose := true);
      SendingSucceeds(c1, CLOSE, p);
      PongAppended(c.log, Queued(CLOSE, p));
    } else {
      assert Flush(c) == (c, Done);
    }
  }

  /** What one acceptable frame does to a healthy connection. */
  lemma StepAcceptable(c: Core, f: Frame, validUtf8: seq<byte> -> bool)
    requires Healthy(c) && Acceptable(f)
    ensures var (d, r) := StepFrame(c, f, validUtf8);
            && Healthy(d)
            && (r == Continue || r.Message?)
            && PongsIn(d.log) == PongsIn(c.log) + (if f.opcode == PING then [f.payload] else [])
            && d.partialMsg == (if IsControl(f) then c.partialMsg
                                else if f.opcode == CONTINUATION
                                then (if c.partialMsg == [] || f.fin then [] else c.partialMsg + f.payload)
                                else if c.partialMsg != [] then c.partialMsg
                                else if f.fin then [] else f.payload)
            && r == (if IsControl(f) || !f.fin then Continue
                     else if f.opcode == CONTINUATION
                     then (if c.partialMsg == [] then Continue else Message(c.partialMsg + f.payload))
                     else if c.partialMsg != [] then Continue else Message(f.payload))
  {
    hide SendFrame, PongsIn, Fail;
    if f.opcode == PING {
      SendingSucceeds(c, PONG, f.payload);
      PongAppended(c.log, Queued(PONG, f.payload));
    } else {
      FailGoesOn(c, 1002, "Procotol error: Unexpected continuation frame");
      FailGoesOn(c, 1002, "Procotol error: Unexpected new frame");
    }
  }

  // ----- the theorem on frames -----

  predicate AllAcceptable(fs: seq<Frame>) {
    forall f <- fs :: Acceptable(f)
  }

  /** The message under way, if its beginning was remembered. */
  function UnderWay(partialMsg: seq<byte>, rest: seq<seq<byte>>): seq<seq<byte>> {
    if rest != [] && partialMsg != [] then [partialMsg + Concat(rest)] else []
  }

  lemma ControlStep(c: Core, fs: seq<Frame>)
    requires fs != [] && AllAcceptable(fs)
    ensures Acceptable(fs[0]) && AllAcceptable(fs[1..])
    ensures IsControl(fs[0]) ==> DataOf(fs) == DataOf(fs[1..])
    ensures !IsControl(fs[0]) ==>
              DataOf(fs) == [Piece(fs[0].opcode, fs[0].fin, fs[0].payload)] + DataOf(fs[1..])
              && DataOf(fs)[0] == Piece(fs[0].opcode, fs[0].fin, fs[0].payload) && DataOf(fs)[1..] == DataOf(fs[1..])
  {
    assert fs[0] in fs;
    assert forall f <- fs[1..] :: f in fs;
  }

  /** Frames that carry the rest of one message and then whole messages, with control frames anywhere
      in between, deliver exactly the remembered messages and answer every ping. */
  lemma {:induction false} AbsorbDelivers(c: Core, fs: seq<Frame>, rest: seq<seq<byte>>, msgs: seq<Fragments>,
                                          validUtf8: seq<byte> -> bool)
    requires Healthy(c) && AllAcceptable(fs)
    requires DataOf(fs) == Continuations(rest) + Stream(msgs)
    requires rest == [] ==> c.partialMsg == []
    ensures var (d, ms) := Absorb(c, fs, validUtf8);
            && Healthy(d) && d.partialMsg == []
            && ms == UnderWay(c.partialMsg, rest) + Delivered(msgs)
            && PongsIn(d.log) == PongsIn(c.log) + PingsOf(fs)
    decreases |fs|
  {
    hide StepFrame, PongsIn, Healthy, Acceptable, AllAcceptable, UnderWay, Concat;
    if fs == [] {
      NothingLeft(c.partialMsg, rest, msgs);
      assert PongsIn(c.log) + [] == PongsIn(c.log);
    } else {
      hide Continuations, Stream, Delivered, DataOf;
      ControlStep(c, fs);
      var f := fs[0];
      var (d, r) := StepFrame(c, f, validUtf8);
      StepAcceptable(c, f, validUtf8);
      var done := if r.Message? then [r.data] else [];
      var pong := if f.opcode == PING then [f.payload] else [];
      ConcatAssoc(PongsIn(c.log), pong, PingsOf(fs[1..]));
      if IsControl(f) {
        AbsorbDelivers(d, fs[1..], rest, msgs, validUtf8);
        ConcatAssoc(done, UnderWay(c.partialMsg, rest), Delivered(msgs));
      } else if rest != [] {
        ContinuationsStep(rest, msgs);
        AbsorbDelivers(d, fs[1..], rest[1..], msgs, validUtf8);
        UnderWayStep(c.partialMsg, rest);
        ConcatAssoc(done, UnderWay(d.partialMsg, rest[1..]), Delivered(msgs));
      } else {
        SomethingLeft(c.partialMsg, msgs);
        StreamStep(msgs);
        var m := msgs[0];
        AbsorbDelivers(d, fs[1..], m[1..], msgs[1..], validUtf8);
        DeliveredStep(msgs);
        ConcatAssoc(done, UnderWay(d.partialMsg, m[1..]), Delivered(msgs[1..]));
      }
    }
  }

  lemma NothingLeft(partialMsg: seq<byte>, rest: seq<seq<byte>>, msgs: seq<Fragments>)
    requires Continuations(rest) + Stream(msgs) == []
    ensures rest == [] && msgs == [] && UnderWay(partialMsg, rest) + Delivered(msgs) == [] && DataOf([]) == []
  {
    assert |Continuations(rest)| + |Stream(msgs)| == 0;
  }

  lemma SomethingLeft(partialMsg: seq<byte>, msgs: seq<Fragments>)
    ensures UnderWay(partialMsg, []) + Delivered(msgs) == Delivered(msgs)
    ensures Continuations([]) + Stream(msgs) == Stream(msgs)
    ensures Stream(msgs) != [] ==> msgs != []
  {
  }

  lemma ContinuationsStep(rest: seq<seq<byte>>, msgs: seq<Fragments>)
    requires rest != []
    ensures var ds := Continuations(rest) + Stream(msgs);
            ds[0] == Piece(CONTINUATION, |rest| == 1, rest[0]) && ds[1..] == Continuations(rest[1..]) + Stream(msgs)
  {
    hide Stream;
    ConcatAssoc([Piece(CONTINUATION, |rest| == 1, rest[0])], Continuations(rest[1..]), Stream(msgs));
  }

  lemma StreamStep(msgs: seq<Fragments>)
    requires msgs != []
    ensures Stream(msgs)[0] == Piece(BINARY, |msgs[0]| == 1, msgs[0][0])
    ensures Stream(msgs)[1..] == Continuations(msgs[0][1..]) + Stream(msgs[1..])
  {
    var first := Piece(BINARY, |msgs[0]| == 1, msgs[0][0]);
    assert Stream(msgs) == Fragmented(msgs[0]) + Stream(msgs[1..]) && Fragmented(msgs[0]) == [first] + Continuations(msgs[0][1..]);
    hide Stream, Fragmented, Continuations;
    ConcatAssoc([first], Continuations(msgs[0][1..]), Stream(msgs[1..]));
  }

  lemma UnderWayStep(partialMsg: seq<byte>, rest: seq<seq<byte>>)
    requires rest != []
    ensures partialMsg == [] ==> UnderWay(partialMsg, rest) == UnderWay([], rest[1..]) == []
    ensures |rest| == 1 && partialMsg != [] ==> UnderWay(partialMsg, rest) == [partialMsg + rest[0]] + UnderWay([], rest[1..])
    ensures |rest| > 1 && partialMsg != [] ==> UnderWay(partialMsg + rest[0], rest[1..]) == UnderWay(partialMsg, rest)
  {
    if |rest| == 1 {
      assert Concat(rest[1..]) == [];
      assert Concat(rest) == rest[0];
    }
    assert partialMsg + rest[0] + Concat(rest[1..]) == partialMsg + Concat(rest);
  }

  lemma DeliveredStep(msgs: seq<Fragments>)
    requires msgs != []
    ensures var m := msgs[0];
            && (|m| == 1 ==> Delivered(msgs) == [m[0]] + UnderWay([], m[1..]) + Delivered(msgs[1..]))
            && (|m| > 1 ==> Delivered(msgs) == UnderWay(m[0], m[1..]) + Delivered(msgs[1..]))
  {
    if |msgs[0]| == 1 {
      assert Concat(msgs[0][1..]) == [];
      assert Concat(msgs[0]) == msgs[0][0];
    }
  }

  // ----- the caller's loop is that fold -----

  lemma {:induction false} QueueIsFold(c: Conn, validUtf8: seq<byte> -> bool)
    requires Healthy(c.core) && AllAcceptable(c.recvQueue)
    ensures var (k, ms) := Absorb(c.core, c.recvQueue, validUtf8);
            DeliverPending(c, validUtf8) == (Conn(c.recvBuffer, [], k), ms)
    decreases |c.recvQueue|
  {
    hide StepFrame;
    if c.recvQueue != [] {
      ProcessQueueIsFold(c, validUtf8);
      var (d, r) := ProcessQueue(c, validUtf8);
      assert RecvMsg(c, [], validUtf8) == (d, r);
      if r.Message? {
        QueueIsFold(d, validUtf8);
      }
    }
  }

  /** One recvmsg call consumes frames up to the first one that completes a message. */
  lemma {:induction false} ProcessQueueIsFold(c: Conn, validUtf8: seq<byte> -> bool)
    requires Healthy(c.core) && AllAcceptable(c.recvQueue) && c.recvQueue != []
    ensures var (d, r) := ProcessQueue(c, validUtf8);
            var whole := Absorb(c.core, c.recvQueue, validUtf8);
            && Healthy(d.core) && AllAcceptable(d.recvQueue) && |d.recvQueue| < |c.recvQueue|
            && d.recvBuffer == c.recvBuffer
            && if r.Message? then
                 var later := Absorb(d.core, d.recvQueue, validUtf8);
                 whole == (later.0, [r.data] + later.1)
               else r == Raise(WantRead) && d.recvQueue == [] && whole == (d.core, [])
    decreases |c.recvQueue|
  {
    hide StepFrame;
    var f := c.recvQueue[0];
    ControlStep(c.core, c.recvQueue);
    StepAcceptable(c.core, f, validUtf8);
    var (k, r1) := StepFrame(c.core, f, validUtf8);
    var c1 := c.(recvQueue := c.recvQueue[1..], core := k);
    var later := Absorb(k, c1.recvQueue, validUtf8);
    assert [] + later.1 == later.1;
    if r1 == Continue {
      if c1.recvQueue == [] {
        assert later == (k, []);
        assert ProcessQueue(c1, validUtf8) == (c1, Raise(WantRead));
      } else {
        ProcessQueueIsFold(c1, validUtf8);
      }
    }
  }
}
