/** How each call on an endpoint ends, for every state of the connection and every answer of the socket. */
module WsOutcomes {
  import opened Bytes
  import opened Wrappers
  import opened HybiCodec
  import opened WsConnection

  /** How many bytes of the send buffer the socket takes. */
  function TakenNow(c: Core): (n: nat)
    ensures n <= |c.sendBuffer|
  {
    if !c.open then 0
    else if c.plan == [] then |c.sendBuffer|
    else match c.plan[0]
      case Accept(n) => if n < |c.sendBuffer| then n else |c.sendBuffer|
      case SendWouldBlock => 0
      case SendFailed => 0
  }

  predicate FailsNow(c: Core) {
    c.open && c.plan != [] && c.plan[0].SendFailed?
  }

  /** One flush: what the socket takes leaves the front of the buffer for the wire, and the flush is done exactly
      if that is all. Only then, and only once both sides have closed, does the socket go. */
  lemma {:induction false} FlushTakes(c: Core)
    ensures var (d, o) := Flush(c);
            var n := TakenNow(c);
            && d.wire == c.wire + c.sendBuffer[..n] && d.sendBuffer == c.sendBuffer[n..]
            && (o == Done <==> n == |c.sendBuffer| && !(FailsNow(c) && c.sendBuffer != []))
            && (o == NoSocket <==> c.sendBuffer != [] && !c.open)
            && (o == SocketError <==> c.sendBuffer != [] && FailsNow(c))
            && (o == WantWrite <==> n < |c.sendBuffer| && c.open && !FailsNow(c))
            && (d.open <==> c.open && !(o == Done && c.sendBuffer != [] && c.receivedClose && c.sentClose))
            && d.plan == (if c.sendBuffer == [] || !c.open || c.plan == [] then c.plan else c.plan[1..])
            && d.log == c.log && d.previous == c.previous && d.closeCode == c.closeCode && d.partialMsg == c.partialMsg
            && d.sentClose == c.sentClose && d.receivedClose == c.receivedClose
  {
    assert c.sendBuffer[..0] == [] && c.wire + [] == c.wire && c.sendBuffer[0..] == c.sendBuffer;
  }

  /** sendmsg returns the length of the message if it is all sent, and 0 once a close frame has been queued; it
      raises ValueError exactly for a message other than the pending one, and then nothing has changed. */
  lemma {:induction false} SendMsgEnds(c: Core, msg: Payload)
    ensures var (d, o, n) := SendMsg(c, msg);
            && (c.sentClose ==> d == c && o == Done && n == 0)
            && (!c.sentClose ==> n == if o == Done then |msg| else 0)
            && (!c.sentClose && o == Done ==> d.sendBuffer == [] && d.previous.None?)
            && (o == BadValue <==> !c.sentClose && c.previous.Some? && c.previous.value != msg)
            && (o == BadValue ==> d == c)
  {
    hide Encode, Flush;
    FlushTakes(c);
    FlushTakes(c.(sendBuffer := c.sendBuffer + Encode(BINARY, msg, None, true), log := c.log + [Queued(BINARY, msg)]));
  }

  /** shutdown keeps the code of a peer that closed first, and gives 1000 otherwise. A code of more than 16 bits
      raises, with the close frame marked as sent though none is queued. */
  lemma {:induction false} ShutdownEnds(c: Core, code: Option<int>, reason: Option<Reason>)
    ensures var (d, o) := Shutdown(c, code, reason);
            var wide := code.Some? && !(0 <= code.value <= 65535);
            && d.sentClose && d.receivedClose == c.receivedClose
            && d.closeCode == (if c.sentClose || c.receivedClose then c.closeCode else Some(1000))
            && (o == BadCode <==> !c.sentClose && wide)
            && (o == BadCode ==> d.log == c.log && d.sendBuffer == c.sendBuffer && d.open == c.open)
            && |d.log| == |c.log| + (if c.sentClose || wide then 0 else 1)
  {
    hide Encode, Flush, ClosePayload;
    FlushTakes(c);
    if CodeFits(code) {
      var p := ClosePayload(code, reason);
      var c1 := (if c.receivedClose then c else c.(closeCode := Some(1000))).(sentClose := true);
      FlushTakes(c1.(sendBuffer := c.sendBuffer + Encode(CLOSE, p, None, true), log := c.log + [Queued(CLOSE, p)]));
    }
  }

  /** close raises what its shutdown raises, and then leaves the socket as the shutdown left it; otherwise the
      socket is gone afterwards, and close complains exactly if it was gone already. */
  lemma {:induction false} CloseEndsAll(c: Core, code: Option<int>, reason: Option<Reason>)
    ensures var (d, o) := Shutdown(c, code, reason);
            var (e, p) := Close(c, code, reason);
            && (o != Done ==> e == d && p == o)
            && (o == Done ==> e == d.(open := false) && p == if d.open then Done else NoSocket)
  {
    hide Shutdown;
  }

  /** The peer hangs up: without a close code before, the connection counts as closed abnormally by both sides;
      in any case the socket goes, and what had arrived stays undecoded. */
  lemma {:induction false} HangUp(c: Conn, answers: seq<RecvAnswer>)
    requires Recv(c, answers).1 == Eof
    ensures var a := Recv(c, answers).0.core;
            var (d, r) := RecvFrames(c, answers);
            && r == Eof && !d.core.open && a == c.core
            && d.core == (if c.core.closeCode.None?
                          then c.core.(open := false, closeCode := Some(1006), sentClose := true, receivedClose := true)
                          else c.core.(open := false))
            && d.recvQueue == c.recvQueue && c.recvBuffer <= d.recvBuffer
  {
    RecvKeepsCore(c, answers);
  }

  lemma {:induction false} RecvKeepsCore(c: Conn, answers: seq<RecvAnswer>)
    ensures var (d, r) := Recv(c, answers);
            && d.core == c.core && d.recvQueue == c.recvQueue && c.recvBuffer <= d.recvBuffer
            && (r == Eof || r == GotData ==> c.core.open)
    decreases |answers|
  {
    if c.core.open && answers != [] && answers[0].Received? && answers[0].data != [] && answers[0].more {
      RecvKeepsCore(c.(recvBuffer := c.recvBuffer + answers[0].data), answers[1..]);
    }
  }

  /** Once the peer has closed, recvmsg reads nothing any more: it flushes, and reports the end exactly when that is done. */
  lemma {:induction false} RecvAfterClose(c: Conn, answers: seq<RecvAnswer>, validUtf8: seq<byte> -> bool)
    requires c.core.receivedClose
    ensures var (d, r) := RecvMsg(c, answers, validUtf8);
            && d.recvBuffer == c.recvBuffer && d.recvQueue == c.recvQueue && d.core == Flush(c.core).0
            && d.core.sendBuffer == c.core.sendBuffer[TakenNow(c.core)..]
            && r == (if Flush(c.core).1 == Done then Closed else Raise(Flush(c.core).1))
            && (r == Closed ==> d.core.sendBuffer == [])
  {
    FlushTakes(c.core);
    hide Flush;
  }

  /** A close frame that answers ours: the socket goes, or is found gone. */
  lemma {:induction false} CloseConfirmed(c: Core, f: Frame, validUtf8: seq<byte> -> bool)
    requires f.masked && f.opcode == 8 && c.sentClose && !c.receivedClose
    ensures StepFrame(c, f, validUtf8)
            == (c.(receivedClose := true, open := false), if c.open then Closed else Raise(NoSocket))
  {
  }

  /** A shutdown after the peer's close that is done has sent everything and closed the socket. */
  lemma {:induction false} ShutdownDoneIsOver(c: Core, code: Option<int>, reason: Option<Reason>)
    requires c.receivedClose && !c.sentClose
    ensures var (d, o) := Shutdown(c, code, reason); o == Done ==> d.sendBuffer == [] && !d.open && d.sentClose && d.receivedClose
  {
    hide Encode, Flush, ClosePayload;
    if CodeFits(code) {
      var p := ClosePayload(code, reason);
      EncodeLength(CLOSE, p, None, true);
      var c1 := c.(sentClose := true, sendBuffer := c.sendBuffer + Encode(CLOSE, p, None, true), log := c.log + [Queued(CLOSE, p)]);
      FlushTakes(c1);
    }
  }

  /** Whatever the socket does, a frame is reported as the end of the connection only when both sides have closed,
      the socket is gone, and, unless our close frame was the first, everything has been sent. */
  lemma {:induction false} ClosedMeansOver(c: Core, f: Frame, validUtf8: seq<byte> -> bool)
    ensures var (d, r) := StepFrame(c, f, validUtf8);
            r == Closed ==> f.masked && f.opcode == 8 && d.receivedClose && d.sentClose && !d.open && (c.sentClose || d.sendBuffer == [])
  {
    hide Shutdown, QueueOrRetry, Ascii;
    if f.masked && f.opcode == 8 && !c.receivedClose && !c.sentClose {
      var c2 := c.(receivedClose := true).(closeCode := if |f.payload| >= 2 then CodeOf(f.payload) else Some(1005));
      ReplyRepeats(f.payload);
      ShutdownDoneIsOver(c2, CodeOf(f.payload), ReasonOf(f.payload));
    }
  }
}
