/** The endpoint itself: a class whose methods update its fields as the original's do, each proved
    against the state machine in WsConnection. */
module WebSocketClass {
  import opened Bytes
  import opened Wrappers
  import opened HybiCodec
  import opened WsConnection
  import WsReassembly
  import WsSend

  class WebSocket {
    var partialMsg: seq<byte>
    var recvBuffer: seq<byte>
    var recvQueue: seq<Frame>
    var sendBuffer: seq<byte>
    var previousSendmsg: Option<Payload>
    var sentClose: bool
    var receivedClose: bool
    var closeCode: Option<nat>
    var socketOpen: bool

    // The environment: the socket's coming answers to send, and the UTF-8 codec.
    var plan: seq<SendAnswer>
    const validUtf8: seq<byte> -> bool

    // History: the bytes the socket has taken and the frames queued.
    ghost var wire: seq<byte>
    ghost var log: seq<Queued>

    ghost function Core(): Core
      reads this
    {
      WsConnection.Core.Core(partialMsg, sendBuffer, previousSendmsg, sentClose, receivedClose, closeCode, socketOpen, wire, plan, log)
    }

    ghost function State(): Conn
      reads this
    {
      Conn(recvBuffer, recvQueue, Core())
    }

    /** A new endpoint has no socket yet. */
    constructor (plan: seq<SendAnswer>, validUtf8: seq<byte> -> bool)
      ensures recvBuffer == [] && recvQueue == [] && partialMsg == [] && sendBuffer == []
      ensures previousSendmsg == None && !sentClose && !receivedClose && closeCode == None && !socketOpen
      ensures wire == [] && log == [] && this.plan == plan && this.validUtf8 == validUtf8
      ensures WsSend.SendInv(Core())
    {
      partialMsg, recvBuffer, recvQueue, sendBuffer := [], [], [], [];
      previousSendmsg, sentClose, receivedClose, closeCode, socketOpen := None, false, false, None, false;
      wire, log := [], [];
      this.plan, this.validUtf8 := plan, validUtf8;
    }

    /** accept and connect set the socket; the handshake that follows is not modelled. */
    method Attach()
      modifies `socketOpen
      ensures State() == old(State()).(core := old(Core()).(open := true))
      ensures sendBuffer == [] && previousSendmsg == None && !receivedClose && plan == [] ==> WsReassembly.Healthy(Core())
    {
      socketOpen := true;
    }

    method CloseNow() returns (o: Outcome)
      modifies this
      ensures (Core(), o) == CloseSocket(old(Core()))
      ensures recvBuffer == old(recvBuffer) && recvQueue == old(recvQueue)
    {
      if socketOpen {
        socketOpen := false;
        o := Done;
      } else {
        o := NoSocket;
      }
    }

    /** One send on the socket: the answer, and how many bytes it took. */
    method SocketSend(buf: seq<byte>) returns (answer: SendAnswer, sent: nat)
      modifies `plan, `wire
      ensures plan == if old(plan) == [] then [] else old(plan)[1..]
      ensures answer == if old(plan) == [] then Accept(|buf|) else old(plan)[0]
      ensures sent == (if !answer.Accept? then 0 else if answer.n <= |buf| then answer.n else |buf|)
      ensures wire == old(wire) + buf[..sent]
    {
      answer := if plan == [] then Accept(|buf|) else plan[0];
      plan := if plan == [] then [] else plan[1..];
      sent := if !answer.Accept? then 0 else if answer.n <= |buf| then answer.n else |buf|;
      wire := wire + buf[..sent];
    }

    method FlushBuffer() returns (o: Outcome)
      modifies this
      ensures (Core(), o) == Flush(old(Core()))
      ensures recvBuffer == old(recvBuffer) && recvQueue == old(recvQueue)
    {
      if sendBuffer == [] {
        return Done;
      }
      if !socketOpen {
        return NoSocket;
      }
      var answer, sent := SocketSend(sendBuffer);
      match answer
      case SendWouldBlock => assert wire == old(wire); return WantWrite;
      case SendFailed => assert wire == old(wire); return SocketError;
      case Accept(_) =>
        sendBuffer := sendBuffer[sent..];
        if sendBuffer != [] {
          return WantWrite;
        }
        if receivedClose && sentClose {
          o := CloseNow();
          return;
        }
        return Done;
    }

    method SendOneFrame(opcode: nat, msg: Payload) returns (o: Outcome)
      modifies this
      ensures (Core(), o) == SendFrame(old(Core()), opcode, msg)
      ensures recvBuffer == old(recvBuffer) && recvQueue == old(recvQueue)
    {
      sendBuffer := sendBuffer + Encode(opcode, msg, None, true);
      log := log + [Queued(opcode, msg)];
      o := FlushBuffer();
    }

    method SendControl(opcode: nat, data: Payload) returns (o: Outcome)
      modifies this
      ensures (Core(), o) == QueueOrRetry(old(Core()), opcode, data)
      ensures recvBuffer == old(recvBuffer) && recvQueue == old(recvQueue)
    {
      if previousSendmsg.Some? {
        if previousSendmsg.value != data {
          return BadValue;
        }
        o := FlushBuffer();
        if o == Done {
          previousSendmsg := None;
        }
        return;
      }
      o := SendOneFrame(opcode, data);
      if o == WantWrite {
        previousSendmsg := Some(data);
      }
    }

    method Sendmsg(msg: Payload) returns (o: Outcome, n: nat)
      modifies this
      ensures (Core(), o, n) == SendMsg(old(Core()), msg)
      ensures recvBuffer == old(recvBuffer) && recvQueue == old(recvQueue)
    {
      if sentClose {
        return Done, 0;
      }
      o := SendControl(BINARY, msg);
      n := if o == Done then |msg| else 0;
    }

    method SendShutdown(code: Option<int>, reason: Option<Reason>) returns (o: Outcome)
      modifies this
      ensures (Core(), o) == Shutdown(old(Core()), code, reason)
      ensures recvBuffer == old(recvBuffer) && recvQueue == old(recvQueue)
    {
      if sentClose {
        o := FlushBuffer();
        return;
      }
      if !receivedClose {
        closeCode := Some(1000);
      }
      sentClose := true;
      var msg: seq<byte> := [];
      if code.Some? {
        if !(0 <= code.value < 0x1_0000) {
          return BadCode;
        }
        msg := msg + ToBigEndian(code.value, 2);
        assert msg == ToBigEndian(code.value, 2);
        if reason.Some? {
          msg := msg + reason.value;
        }
      }
      assert msg == ClosePayload(code, reason);
      o := SendOneFrame(CLOSE, msg);
    }

    method Close(code: Option<int>, reason: Option<Reason>) returns (o: Outcome)
      modifies this
      ensures (Core(), o) == WsConnection.Close(old(Core()), code, reason)
      ensures recvBuffer == old(recvBuffer) && recvQueue == old(recvQueue)
    {
      o := SendShutdown(code, reason);
      if o == Done {
        o := CloseNow();
      }
    }

    method ProtocolFailure(code: nat, reason: string) returns (r: FrameResult)
      requires |reason| < 100
      modifies this
      ensures (Core(), r) == Fail(old(Core()), code, reason)
      ensures recvBuffer == old(recvBuffer) && recvQueue == old(recvQueue)
    {
      ShortFits(Ascii(reason));
      var o := SendShutdown(Some(code), Some(Ascii(reason)));
      r := if o == Done then Continue else Raise(o);
    }

    /** Reads until the socket holds no more decrypted data. `answers` is what the socket answers. */
    method ReadSocket(answers: seq<RecvAnswer>) returns (r: RecvResult)
      modifies this
      ensures (State(), r) == Recv(old(State()), answers)
    {
      var i := 0;
      while true
        invariant 0 <= i <= |answers|
        invariant Recv(State(), answers[i..]) == Recv(old(State()), answers)
        decreases |answers| - i
      {
        if !socketOpen {
          return RecvRaised(NoSocket);
        }
        if i == |answers| || answers[i].RecvWouldBlock? {
          return RecvRaised(WantRead);
        }
        if answers[i].RecvFailed? {
          return RecvRaised(SocketError);
        }
        if answers[i].data == [] {
          return Eof;
        }
        recvBuffer := recvBuffer + answers[i].data;
        if !answers[i].more {
          return GotData;
        }
        i := i + 1;
      }
    }

    /** Moves every complete frame from the buffer to the queue. */
    method DecodeFrames()
      modifies `recvBuffer, `recvQueue
      ensures recvQueue == old(recvQueue) + Drain(old(recvBuffer)).0
      ensures recvBuffer == Drain(old(recvBuffer)).1
    {
      hide Decode;
      while true
        invariant recvQueue + Drain(recvBuffer).0 == old(recvQueue) + Drain(old(recvBuffer)).0
        invariant Drain(recvBuffer).1 == Drain(old(recvBuffer)).1
        decreases |recvBuffer|
      {
        var decoded := Decode(recvBuffer);
        if decoded.None? {
          assert Drain(recvBuffer) == ([], recvBuffer);
          assert recvQueue + [] == recvQueue;
          break;
        }
        var f := decoded.value;
        FrameIsAtLeastTwoBytes(recvBuffer);
        ghost var later := Drain(recvBuffer[f.length..]).0;
        assert recvQueue + ([f] + later) == recvQueue + [f] + later;
        recvBuffer := recvBuffer[f.length..];
        recvQueue := recvQueue + [f];
      }
    }

    method ReceiveFrames(answers: seq<RecvAnswer>) returns (r: RecvResult)
      modifies this
      ensures (State(), r) == RecvFrames(old(State()), answers)
    {
      hide Drain;
      r := ReadSocket(answers);
      match r
      case RecvRaised(_) =>
      case Eof =>
        if closeCode.None? {
          closeCode := Some(1006);
          sentClose, receivedClose := true, true;
        }
        var o := CloseNow();
        r := if o == Done then Eof else RecvRaised(o);
      case GotData =>
        DecodeFrames();
    }

    method HandleClose(f: Frame) returns (r: FrameResult)
      modifies this
      ensures (Core(), r) == StepClose(old(Core()), f, validUtf8)
      ensures recvBuffer == old(recvBuffer) && recvQueue == old(recvQueue)
    {
      if receivedClose {
        return Continue;
      }
      receivedClose := true;
      var o;
      if sentClose {
        o := CloseNow();
        return if o == Done then Closed else Raise(o);
      }
      if !f.fin {
        r := ProtocolFailure(1003, "Unsupported: Fragmented close");
        return;
      }
      if |f.payload| > 2 && !validUtf8(f.payload[2..]) {
        r := ProtocolFailure(1002, "Procotol error: Invalid UTF-8 in close");
        return;
      }
      closeCode := if |f.payload| >= 2 then CodeOf(f.payload) else Some(1005);
      o := SendShutdown(CodeOf(f.payload), ReasonOf(f.payload));
      return if o == Done then Closed else Raise(o);
    }

    method HandleFrame(f: Frame) returns (r: FrameResult)
      modifies this
      ensures (Core(), r) == StepFrame(old(Core()), f, validUtf8)
      ensures recvBuffer == old(recvBuffer) && recvQueue == old(recvQueue)
    {
      hide Fail, StepClose, QueueOrRetry;
      if !f.masked {
        r := ProtocolFailure(1002, "Procotol error: Frame not masked");
      } else if f.opcode == CONTINUATION {
        if partialMsg == [] {
          r := ProtocolFailure(1002, "Procotol error: Unexpected continuation frame");
          return;
        }
        partialMsg := partialMsg + f.payload;
        if f.fin {
          r := Message(partialMsg);
          partialMsg := [];
        } else {
          r := Continue;
        }
      } else if f.opcode == TEXT {
        r := ProtocolFailure(1003, "Unsupported: Text frames are not supported");
      } else if f.opcode == BINARY {
        if partialMsg != [] {
          r := ProtocolFailure(1002, "Procotol error: Unexpected new frame");
        } else if f.fin {
          r := Message(f.payload);
        } else {
          partialMsg := f.payload;
          r := Continue;
        }
      } else if f.opcode == CLOSE {
        r := HandleClose(f);
      } else if f.opcode == PING {
        if !f.fin {
          r := ProtocolFailure(1003, "Unsupported: Fragmented ping");
        } else {
          var o := SendControl(PONG, f.payload);
          r := if o == Done then Continue else Raise(o);
        }
      } else if f.opcode == PONG {
        if !f.fin {
          r := ProtocolFailure(1003, "Unsupported: Fragmented pong");
        } else {
          r := Continue;
        }
      } else {
        r := ProtocolFailure(1003, "Unsupported: Unknown opcode 0x0" + [HexDigit(f.opcode % 16)]);
      }
    }

    method ProcessFrames() returns (r: FrameResult)
      modifies this
      ensures (State(), r) == ProcessQueue(old(State()), validUtf8)
    {
      hide StepFrame;
      while recvQueue != []
        invariant ProcessQueue(State(), validUtf8) == ProcessQueue(old(State()), validUtf8)
        decreases |recvQueue|
      {
        var f := recvQueue[0];
        recvQueue := recvQueue[1..];
        r := HandleFrame(f);
        if r != Continue {
          return;
        }
      }
      r := Raise(WantRead);
    }

    method Recvmsg(answers: seq<RecvAnswer>) returns (r: FrameResult)
      modifies this
      ensures (State(), r) == RecvMsg(old(State()), answers, validUtf8)
    {
      hide ProcessQueue, RecvFrames, Flush;
      if receivedClose {
        var o := FlushBuffer();
        return if o == Done then Closed else Raise(o);
      }
      if recvQueue != [] {
        r := ProcessFrames();
        return;
      }
      var got := ReceiveFrames(answers);
      match got
      case Eof => r := Closed;
      case RecvRaised(o) => r := Raise(o);
      case GotData => r := ProcessFrames();
    }
  }
}
