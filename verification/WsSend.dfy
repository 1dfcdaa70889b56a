/** What the endpoint puts on the wire, over every run of calls and every behaviour of the socket. */
module WsSend {
  import opened Bytes
  import opened Wrappers
  import opened HybiCodec
  import opened WsConnection

  /** The byte stream the queued frames stand for. */
  function WireImage(log: seq<Queued>): seq<byte> {
    if log == [] then []
    else WireImage(log[..|log| - 1]) + Encode(log[|log| - 1].opcode, log[|log| - 1].payload, None, true)
  }

  /** After a close frame neither a binary frame nor a second close frame is queued. */
  ghost predicate CloseIsLast(log: seq<Queued>) {
    forall i, j :: 0 <= i < j < |log| && log[i].opcode == CLOSE ==> log[j].opcode != CLOSE && log[j].opcode != BINARY
  }

  ghost predicate SendInv(c: Core) {
    && c.wire + c.sendBuffer == WireImage(c.log)
    && CloseIsLast(c.log)
    && (forall q <- c.log :: q.opcode == CLOSE ==> c.sentClose)
  }

  /** The log only grows, and the bytes on the wire are never taken back. */
  ghost predicate Extends(c: Core, d: Core) {
    c.log <= d.log && c.wire <= d.wire && (c.sentClose ==> d.sentClose)
  }

  lemma {:induction false} FlushKeeps(c: Core)
    requires SendInv(c)
    ensures SendInv(Flush(c).0) && Extends(c, Flush(c).0) && Flush(c).0.log == c.log
    ensures Flush(c).1 == Done ==> Flush(c).0.sendBuffer == []
    ensures Flush(c).1 == WantWrite ==> Flush(c).0.sendBuffer != [] && |Flush(c).0.plan| < |c.plan|
  {
    hide WireImage, CloseIsLast;
    if c.sendBuffer != [] && c.open {
      var n := if c.plan == [] then |c.sendBuffer| else if c.plan[0].Accept? then c.plan[0].n else 0;
      var sent := if n <= |c.sendBuffer| then n else |c.sendBuffer|;
      assert c.sendBuffer == c.sendBuffer[..sent] + c.sendBuffer[sent..];
      assert c.wire + c.sendBuffer[..sent] + c.sendBuffer[sent..] == c.wire + c.sendBuffer;
    }
  }

  lemma {:induction false} SendFrameKeeps(c: Core, opcode: nat, msg: Payload)
    requires SendInv(c)
    requires opcode == CLOSE ==> c.sentClose && forall q <- c.log :: q.opcode != CLOSE
    requires opcode == BINARY ==> !c.sentClose
    ensures var d := SendFrame(c, opcode, msg).0;
            SendInv(d) && Extends(c, d) && d.log == c.log + [Queued(opcode, msg)]
    ensures SendFrame(c, opcode, msg).1 == Done ==> SendFrame(c, opcode, msg).0.sendBuffer == []
    ensures SendFrame(c, opcode, msg).1 == WantWrite ==> |SendFrame(c, opcode, msg).0.plan| < |c.plan|
  {
    hide Encode, Flush, CloseIsLast, WireImage;
    var bytes := Encode(opcode, msg, None, true);
    var log := c.log + [Queued(opcode, msg)];
    ImageSnoc(c.log, Queued(opcode, msg));
    LastOfLog(c.log, Queued(opcode, msg), c.sentClose);
    assert c.wire + (c.sendBuffer + bytes) == c.wire + c.sendBuffer + bytes;
    FlushKeeps(c.(sendBuffer := c.sendBuffer + bytes, log := log));
  }

  lemma ImageSnoc(log: seq<Queued>, q: Queued)
    ensures WireImage(log + [q]) == WireImage(log) + Encode(q.opcode, q.payload, None, true)
  {
    assert (log + [q])[..|log|] == log;
  }

  lemma LastOfLog(log: seq<Queued>, q: Queued, sentClose: bool)
    requires CloseIsLast(log) && forall x <- log :: x.opcode == CLOSE ==> sentClose
    requires q.opcode == CLOSE ==> sentClose && forall x <- log :: x.opcode != CLOSE
    requires q.opcode == BINARY ==> !sentClose
    ensures CloseIsLast(log + [q]) && forall x <- log + [q] :: x.opcode == CLOSE ==> sentClose
  {
  }

  lemma {:induction false} QueueOrRetryKeeps(c: Core, opcode: nat, msg: Payload)
    requires SendInv(c)
    requires opcode != CLOSE && (opcode == BINARY ==> !c.sentClose)
    ensures var d := QueueOrRetry(c, opcode, msg).0; SendInv(d) && Extends(c, d)
    ensures QueueOrRetry(c, opcode, msg).1 == Done ==> QueueOrRetry(c, opcode, msg).0.sendBuffer == []
  {
    hide Flush, SendFrame, WireImage;
    if c.previous.Some? {
      FlushKeeps(c);
    } else {
      SendFrameKeeps(c, opcode, msg);
    }
  }

  lemma {:induction false} SendMsgKeeps(c: Core, msg: Payload)
    requires SendInv(c)
    ensures SendInv(SendMsg(c, msg).0) && Extends(c, SendMsg(c, msg).0)
  {
    hide QueueOrRetry, WireImage, CloseIsLast;
    if !c.sentClose {
      QueueOrRetryKeeps(c, BINARY, msg);
    }
  }

  lemma {:induction false} ShutdownKeeps(c: Core, code: Option<int>, reason: Option<Reason>)
    requires SendInv(c)
    ensures var d := Shutdown(c, code, reason).0; SendInv(d) && Extends(c, d) && d.sentClose
  {
    hide Flush, SendFrame, WireImage, ClosePayload;
    if c.sentClose {
      FlushKeeps(c);
    } else if CodeFits(code) {
      var c1 := if c.receivedClose then c else c.(closeCode := Some(1000));
      SendFrameKeeps(c1.(sentClose := true), CLOSE, ClosePayload(code, reason));
    }
  }

  lemma {:induction false} CloseKeeps(c: Core, code: Option<int>, reason: Option<Reason>)
    requires SendInv(c)
    ensures var d := Close(c, code, reason).0; SendInv(d) && Extends(c, d) && d.sentClose
  {
    hide Shutdown, WireImage, CloseIsLast;
    ShutdownKeeps(c, code, reason);
  }

  /** With a willing socket, close fails exactly if the socket is gone already, or if flushing the close
      frame makes it go: once the peer has closed, the flush closes the socket, and close does so again. */
  lemma CloseDoneIff(c: Core, code: Option<int>, reason: Option<Reason>)
    requires c.plan == [] && CodeFits(code)
    ensures Close(c, code, reason).1 == Done <==>
            c.open && !(c.receivedClose && (!c.sentClose || c.sendBuffer != []))
  {
    hide Encode, ClosePayload;
    EncodeLength(CLOSE, ClosePayload(code, reason), None, true);
  }

  lemma {:induction false} FailKeeps(c: Core, code: nat, reason: string)
    requires SendInv(c) && |reason| < 100
    ensures var d := Fail(c, code, reason).0; SendInv(d) && Extends(c, d)
  {
    hide Shutdown, WireImage, SendInv;
    ShortFits(Ascii(reason));
    ShutdownKeeps(c, Some(code), Some(Ascii(reason)));
  }

  lemma {:induction false} StepCloseKeeps(c: Core, f: Frame, validUtf8: seq<byte> -> bool)
    requires SendInv(c)
    ensures var d := StepClose(c, f, validUtf8).0; SendInv(d) && Extends(c, d)
  {
    hide Shutdown, WireImage, CloseIsLast, Fail;
    var c1 := c.(receivedClose := true);
    assert SendInv(c1);
    FailKeeps(c1, 1003, "Unsupported: Fragmented close");
    FailKeeps(c1, 1002, "Procotol error: Invalid UTF-8 in close");
    var c2 := c1.(closeCode := if |f.payload| >= 2 then CodeOf(f.payload) else Some(1005));
    assert SendInv(c2);
    ShutdownKeeps(c2, CodeOf(f.payload), ReasonOf(f.payload));
  }

  lemma {:induction false} StepFrameKeeps(c: Core, f: Frame, validUtf8: seq<byte> -> bool)
    requires SendInv(c)
    ensures var d := StepFrame(c, f, validUtf8).0; SendInv(d) && Extends(c, d)
  {
    hide WireImage, CloseIsLast, Fail, QueueOrRetry, StepClose;
    FailKeeps(c, 1002, "Procotol error: Frame not masked");
    FailKeeps(c, 1002, "Procotol error: Unexpected continuation frame");
    FailKeeps(c, 1003, "Unsupported: Text frames are not supported");
    FailKeeps(c, 1002, "Procotol error: Unexpected new frame");
    FailKeeps(c, 1003, "Unsupported: Fragmented ping");
    FailKeeps(c, 1003, "Unsupported: Fragmented pong");
    FailKeeps(c, 1003, "Unsupported: Unknown opcode 0x0" + [HexDigit(f.opcode % 16)]);
    StepCloseKeeps(c, f, validUtf8);
    QueueOrRetryKeeps(c, PONG, f.payload);
  }

  lemma {:induction false} ProcessQueueKeeps(c: Conn, validUtf8: seq<byte> -> bool)
    requires SendInv(c.core)
    ensures var d := ProcessQueue(c, validUtf8).0.core; SendInv(d) && Extends(c.core, d)
    decreases |c.recvQueue|
  {
    hide SendInv, StepFrame;
    if c.recvQueue != [] {
      var (k, r) := StepFrame(c.core, c.recvQueue[0], validUtf8);
      StepFrameKeeps(c.core, c.recvQueue[0], validUtf8);
      if r == Continue {
        ProcessQueueKeeps(c.(recvQueue := c.recvQueue[1..], core := k), validUtf8);
      }
    }
  }

  lemma {:induction false} RecvMsgKeeps(c: Conn, answers: seq<RecvAnswer>, validUtf8: seq<byte> -> bool)
    requires SendInv(c.core)
    ensures var d := RecvMsg(c, answers, validUtf8).0.core; SendInv(d) && Extends(c.core, d)
  {
    hide WireImage, CloseIsLast, Flush, ProcessQueue, Drain;
    if c.core.receivedClose {
      FlushKeeps(c.core);
    } else if c.recvQueue != [] {
      ProcessQueueKeeps(c, validUtf8);
    } else {
      RecvKeeps(c, answers);
      var (c1, r) := RecvFrames(c, answers);
      if r.GotData? {
        ProcessQueueKeeps(c1, validUtf8);
      }
    }
  }

  lemma {:induction false} RecvKeeps(c: Conn, answers: seq<RecvAnswer>)
    ensures Recv(c, answers).0.core == c.core
    decreases |answers|
  {
    if c.core.open && answers != [] && answers[0].Received? && answers[0].data != [] && answers[0].more {
      RecvKeeps(c.(recvBuffer := c.recvBuffer + answers[0].data), answers[1..]);
    }
  }

  // ----- runs -----

  datatype Call =
    | CallSendMsg(msg: Payload)
    | CallPing(data: Payload)
    | CallPong(data: Payload)
    | CallShutdown(code: Option<int>, reason: Option<Reason>)
    | CallClose(code: Option<int>, reason: Option<Reason>)
    | CallRecvMsg(answers: seq<RecvAnswer>)

  function Apply(c: Conn, call: Call, validUtf8: seq<byte> -> bool): Conn {
    match call
    case CallSendMsg(msg) => c.(core := SendMsg(c.core, msg).0)
    case CallPing(data) => c.(core := Ping(c.core, data).0)
    case CallPong(data) => c.(core := Pong(c.core, data).0)
    case CallShutdown(code, reason) => c.(core := Shutdown(c.core, code, reason).0)
    case CallClose(code, reason) => c.(core := Close(c.core, code, reason).0)
    case CallRecvMsg(answers) => RecvMsg(c, answers, validUtf8).0
  }

  function Run(c: Conn, calls: seq<Call>, validUtf8: seq<byte> -> bool): Conn
    decreases |calls|
  {
    if calls == [] then c else Run(Apply(c, calls[0], validUtf8), calls[1..], validUtf8)
  }

  lemma {:induction false} ApplyKeeps(c: Conn, call: Call, validUtf8: seq<byte> -> bool)
    requires SendInv(c.core)
    ensures SendInv(Apply(c, call, validUtf8).core) && Extends(c.core, Apply(c, call, validUtf8).core)
  {
    hide SendInv, QueueOrRetry, SendMsg, Shutdown, Close, RecvMsg;
    match call
    case CallSendMsg(msg) => SendMsgKeeps(c.core, msg);
    case CallPing(data) => QueueOrRetryKeeps(c.core, PING, data);
    case CallPong(data) => QueueOrRetryKeeps(c.core, PONG, data);
    case CallShutdown(code, reason) => ShutdownKeeps(c.core, code, reason);
    case CallClose(code, reason) => CloseKeeps(c.core, code, reason);
    case CallRecvMsg(answers) => RecvMsgKeeps(c, answers, validUtf8);
  }

  /** Send-stream integrity: at every point of every run, the bytes the socket has taken followed by
      the send buffer are the queued frames in order; at most one close frame is queued, no binary
      frame follows it, and nothing queued or sent is ever dropped. */
  lemma {:induction false} SendStreamIntegrity(c: Conn, calls: seq<Call>, validUtf8: seq<byte> -> bool)
    requires SendInv(c.core)
    ensures SendInv(Run(c, calls, validUtf8).core) && Extends(c.core, Run(c, calls, validUtf8).core)
    decreases |calls|
  {
    hide SendInv, Apply;
    if calls != [] {
      ApplyKeeps(c, calls[0], validUtf8);
      SendStreamIntegrity(Apply(c, calls[0], validUtf8), calls[1..], validUtf8);
    }
  }

  // ----- retrying -----

  /** The caller's duty: call sendmsg again with the same message for as long as it wants to write. */
  function SendUntilDone(c: Core, msg: Payload): (Core, Outcome, nat)
    requires SendInv(c)
    decreases |c.plan|
  {
    var (d, o, n) := SendMsg(c, msg);
    if o == WantWrite then
      RetryProgress(c, msg);
      SendMsgKeeps(c, msg);
      SendUntilDone(d, msg)
    else (d, o, n)
  }

  lemma RetryProgress(c: Core, msg: Payload)
    requires SendInv(c)
    ensures var (d, o, n) := SendMsg(c, msg);
            o == WantWrite ==> |d.plan| < |c.plan| && d.previous == Some(msg) && d.sentClose == c.sentClose
    ensures var (d, o, n) := SendMsg(c, msg);
            !c.sentClose && c.previous == Some(msg) ==> d.log == c.log && (o == Done ==> n == |msg| && d.sendBuffer == [])
    ensures var (d, o, n) := SendMsg(c, msg);
            !c.sentClose && c.previous.None? ==>
              d.log == c.log + [Queued(BINARY, msg)] && (o == Done ==> n == |msg| && d.sendBuffer == [])
  {
    hide WireImage, CloseIsLast, Encode;
    FlushKeeps(c);
    FlushFrame(c);
    if !c.sentClose && c.previous.None? {
      SendFrameKeeps(c, BINARY, msg);
      FlushFrame(c.(sendBuffer := c.sendBuffer + Encode(BINARY, msg, None, true), log := c.log + [Queued(BINARY, msg)]));
    }
  }

  lemma FlushFrame(c: Core)
    ensures var d := Flush(c).0; d.previous == c.previous && d.sentClose == c.sentClose
  {
  }

  lemma {:induction false} RetryQueuesNothing(c: Core, msg: Payload)
    requires SendInv(c) && !c.sentClose && c.previous == Some(msg)
    ensures var (d, o, n) := SendUntilDone(c, msg);
            d.log == c.log && (o == Done ==> n == |msg| && d.sendBuffer == [] && d.wire == WireImage(d.log))
    decreases |c.plan|
  {
    hide WireImage, CloseIsLast, Flush, SendMsg;
    var (d, o, n) := SendMsg(c, msg);
    RetryProgress(c, msg);
    SendMsgKeeps(c, msg);
    assert d.sendBuffer == [] ==> d.wire + d.sendBuffer == d.wire;
    if o == WantWrite {
      RetryQueuesNothing(d, msg);
    }
  }

  /** However often the socket blocks, a message sent with retries is queued exactly once, and when
      sendmsg finally returns, every queued byte has been taken by the socket. */
  lemma {:induction false} SentExactlyOnce(c: Core, msg: Payload)
    requires SendInv(c) && !c.sentClose && c.previous.None?
    ensures var (d, o, n) := SendUntilDone(c, msg);
            d.log == c.log + [Queued(BINARY, msg)]
            && (o == Done ==> n == |msg| && d.wire == WireImage(c.log + [Queued(BINARY, msg)]))
  {
    hide WireImage, CloseIsLast, Flush, SendMsg;
    var (d, o, n) := SendMsg(c, msg);
    RetryProgress(c, msg);
    SendMsgKeeps(c, msg);
    assert d.sendBuffer == [] ==> d.wire + d.sendBuffer == d.wire;
    if o == WantWrite {
      RetryQueuesNothing(d, msg);
    }
  }
}
