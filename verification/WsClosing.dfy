/** Receiving up to the end of a connection: streams with protocol violations and close frames, cut up in
    any way, and the one kind of close behind which the cut matters. */
module WsClosing {
  import opened Bytes
  import opened Wrappers
  import opened HybiCodec
  import opened WsConnection
  import opened WsReceive
  import opened WsReassembly
  import opened WsEndToEnd

  // ----- one frame -----

  predicate IsClose(f: Frame) {
    f.masked && f.opcode == CLOSE
  }

  /** A close frame that is answered as such: it is whole, and its reason is UTF-8. After a close frame of our
      own neither is looked at. */
  predicate WellFormed(c: Core, f: Frame, validUtf8: seq<byte> -> bool) {
    c.sentClose || (f.fin && (|f.payload| > 2 ==> validUtf8(f.payload[2..])))
  }

  /** The peer has closed and nothing is left to send. */
  predicate Over(c: Core) {
    c.receivedClose && c.sentClose && !c.open && c.sendBuffer == [] && c.previous.None?
  }

  lemma {:induction false} FlushCloses(c: Core)
    requires c.open && c.receivedClose && c.sentClose && c.plan == [] && c.sendBuffer != []
    ensures var (d, o) := Flush(c);
            o == Done && d == c.(open := false, sendBuffer := [], wire := d.wire)
  {
    assert c.sendBuffer[|c.sendBuffer|..] == [];
  }

  lemma {:induction false} ShutdownCloses(c: Core, code: Option<int>, reason: Option<Reason>)
    requires Healthy(c.(receivedClose := false)) && c.receivedClose && !c.sentClose && CodeFits(code)
    ensures var (d, o) := Shutdown(c, code, reason);
            o == Done && Over(d) && d.partialMsg == c.partialMsg
  {
    hide Encode, ClosePayload, Flush;
    var payload := ClosePayload(code, reason);
    EncodeIsNonEmpty(CLOSE, payload);
    var c1 := c.(sentClose := true);
    FlushCloses(c1.(sendBuffer := c.sendBuffer + Encode(CLOSE, payload, None, true), log := c.log + [Queued(CLOSE, payload)]));
  }

  /** A close frame ends the connection; whether recvmsg says so at once depends on its being well-formed. */
  lemma {:induction false} CloseEnds(c: Core, f: Frame, validUtf8: seq<byte> -> bool)
    requires Healthy(c) && IsClose(f)
    ensures var (d, r) := StepFrame(c, f, validUtf8);
            && Over(d) && d.partialMsg == c.partialMsg
            && r == if WellFormed(c, f, validUtf8) then Closed else Continue
  {
    hide Shutdown;
    var c1 := c.(receivedClose := true);
    if !c.sentClose {
      ShortFits(Ascii("Unsupported: Fragmented close"));
      ShortFits(Ascii("Procotol error: Invalid UTF-8 in close"));
      ShutdownCloses(c1, Some(1003), Some(Ascii("Unsupported: Fragmented close")));
      ShutdownCloses(c1, Some(1002), Some(Ascii("Procotol error: Invalid UTF-8 in close")));
      var c2 := c1.(closeCode := if |f.payload| >= 2 then CodeOf(f.payload) else Some(1005));
      ReplyRepeats(f.payload);
      ShutdownCloses(c2, CodeOf(f.payload), ReasonOf(f.payload));
    }
  }

  /** Any other frame, a violation of the protocol included, leaves the connection going. */
  lemma {:induction false} OthersGoOn(c: Core, f: Frame, validUtf8: seq<byte> -> bool)
    requires Healthy(c) && !IsClose(f)
    ensures var (d, r) := StepFrame(c, f, validUtf8); Healthy(d) && (r == Continue || r.Message?)
  {
    hide Fail, SendFrame;
    FailGoesOn(c, 1002, "Procotol error: Frame not masked");
    FailGoesOn(c, 1002, "Procotol error: Unexpected continuation frame");
    FailGoesOn(c, 1003, "Unsupported: Text frames are not supported");
    FailGoesOn(c, 1002, "Procotol error: Unexpected new frame");
    FailGoesOn(c, 1003, "Unsupported: Fragmented ping");
    FailGoesOn(c, 1003, "Unsupported: Fragmented pong");
    FailGoesOn(c, 1003, "Unsupported: Unknown opcode 0x0" + [HexDigit(f.opcode % 16)]);
    SendingSucceeds(c, PONG, f.payload);
  }

  // ----- many frames -----

  /** Frames handled one at a time up to the close frame, collecting the messages they complete. */
  function Fold(c: Core, fs: seq<Frame>, validUtf8: seq<byte> -> bool): (Core, seq<seq<byte>>)
    decreases |fs|
  {
    if fs == [] || c.receivedClose then (c, [])
    else
      var (d, r) := StepFrame(c, fs[0], validUtf8);
      var (e, ms) := Fold(d, fs[1..], validUtf8);
      (e, (if r.Message? then [r.data] else []) + ms)
  }

  /** The first close frame, if there is one, is well-formed. */
  predicate ClosesWell(c: Core, fs: seq<Frame>, validUtf8: seq<byte> -> bool)
    decreases |fs|
  {
    fs == [] || c.receivedClose || (
      && (IsClose(fs[0]) ==> WellFormed(c, fs[0], validUtf8))
      && ClosesWell(StepFrame(c, fs[0], validUtf8).0, fs[1..], validUtf8))
  }

  lemma {:induction false} NoMessages()
    ensures var none: seq<seq<byte>> := []; none + none == none && none + none + none == none
  {
  }

  lemma {:induction false} FoldAppend(c: Core, a: seq<Frame>, b: seq<Frame>, validUtf8: seq<byte> -> bool)
    ensures var (d, ms) := Fold(c, a, validUtf8);
            var (e, later) := Fold(d, b, validUtf8);
            Fold(c, a + b, validUtf8) == (e, ms + later)
    ensures ClosesWell(c, a + b, validUtf8) <==> ClosesWell(c, a, validUtf8) && ClosesWell(Fold(c, a, validUtf8).0, b, validUtf8)
    decreases |a|
  {
    hide StepFrame, WellFormed;
    if a == [] {
      assert a + b == b;
      ConcatAssoc([], [], Fold(c, b, validUtf8).1);
    } else if !c.receivedClose {
      assert (a + b)[0] == a[0] && (a + b)[1..] == a[1..] + b;
      var (d, r) := StepFrame(c, a[0], validUtf8);
      FoldAppend(d, a[1..], b, validUtf8);
      var (e, ms) := Fold(d, a[1..], validUtf8);
      ConcatAssoc(if r.Message? then [r.data] else [], ms, Fold(e, b, validUtf8).1);
    } else {
      assert Fold(c, b, validUtf8) == (c, []);
      assert (a + b) != [] && Fold(c, a + b, validUtf8) == (c, []);
      NoMessages();
    }
  }

  lemma {:induction false} FoldEnds(c: Core, fs: seq<Frame>, validUtf8: seq<byte> -> bool)
    requires Healthy(c) || Over(c)
    ensures Healthy(Fold(c, fs, validUtf8).0) || Over(Fold(c, fs, validUtf8).0)
    decreases |fs|
  {
    hide StepFrame, WellFormed;
    if fs != [] && !c.receivedClose {
      if IsClose(fs[0]) {
        CloseEnds(c, fs[0], validUtf8);
      } else {
        OthersGoOn(c, fs[0], validUtf8);
      }
      FoldEnds(StepFrame(c, fs[0], validUtf8).0, fs[1..], validUtf8);
    }
  }

  /** What one run through the queue leads to. */
  ghost predicate Through(c: Conn, d: Conn, r: FrameResult, validUtf8: seq<byte> -> bool) {
    var whole := Fold(c.core, c.recvQueue, validUtf8);
    && d.recvBuffer == c.recvBuffer && |d.recvQueue| < |c.recvQueue|
    && if r.Message? then
         var later := Fold(d.core, d.recvQueue, validUtf8);
         Healthy(d.core) && ClosesWell(d.core, d.recvQueue, validUtf8) && whole == (later.0, [r.data] + later.1)
       else if r == Closed then Over(d.core) && whole == (d.core, [])
       else r == Raise(WantRead) && Healthy(d.core) && d.recvQueue == [] && whole == (d.core, [])
  }

  lemma {:induction false} QueueStep(c: Conn, validUtf8: seq<byte> -> bool)
    requires Healthy(c.core) && c.recvQueue != [] && ClosesWell(c.core, c.recvQueue, validUtf8)
    ensures var (d, r) := ProcessQueue(c, validUtf8); Through(c, d, r, validUtf8)
    decreases |c.recvQueue|
  {
    hide StepFrame, WellFormed;
    var f := c.recvQueue[0];
    var (k, r1) := StepFrame(c.core, f, validUtf8);
    var c1 := c.(recvQueue := c.recvQueue[1..], core := k);
    var later := Fold(k, c1.recvQueue, validUtf8);
    assert [] + later.1 == later.1;
    if IsClose(f) {
      CloseEnds(c.core, f, validUtf8);
      assert later == (k, []);
    } else {
      OthersGoOn(c.core, f, validUtf8);
      if r1 == Continue {
        if c1.recvQueue == [] {
          assert later == (k, []);
          assert ProcessQueue(c1, validUtf8) == (c1, Raise(WantRead));
        } else {
          QueueStep(c1, validUtf8);
        }
      }
    }
  }

  lemma {:induction false} OverRests(c: Conn, answers: seq<RecvAnswer>, validUtf8: seq<byte> -> bool)
    requires Over(c.core)
    ensures RecvMsg(c, answers, validUtf8) == (c, Closed)
    ensures DeliverPending(c, validUtf8) == (c, [])
  {
    assert RecvMsg(c, [], validUtf8) == (c, Closed);
  }

  lemma {:induction false} PendingIsFold(c: Conn, validUtf8: seq<byte> -> bool)
    requires Healthy(c.core) && ClosesWell(c.core, c.recvQueue, validUtf8)
    ensures var (k, ms) := Fold(c.core, c.recvQueue, validUtf8);
            var (d, got) := DeliverPending(c, validUtf8);
            && d.core == k && got == ms && d.recvBuffer == c.recvBuffer && (Healthy(k) ==> d.recvQueue == [])
    decreases |c.recvQueue|
  {
    hide StepFrame, WellFormed, ClosesWell, Fold, ProcessQueue;
    if c.recvQueue == [] {
      assert Fold(c.core, [], validUtf8) == (c.core, []) by { FoldNothing(c.core, validUtf8); }
    } else {
      QueueStep(c, validUtf8);
      var (d, r) := ProcessQueue(c, validUtf8);
      assert RecvMsg(c, [], validUtf8) == (d, r);
      if r.Message? {
        PendingIsFold(d, validUtf8);
      }
    }
  }

  lemma {:induction false} FoldNothing(c: Core, validUtf8: seq<byte> -> bool)
    ensures Fold(c, [], validUtf8) == (c, []) && ClosesWell(c, [], validUtf8)
  {
  }

  /** One read and the calls that follow it. */
  lemma {:induction false} ReadIsFold(c: Conn, data: seq<byte>, validUtf8: seq<byte> -> bool)
    requires Healthy(c.core) && c.recvQueue == [] && data != []
    requires ClosesWell(c.core, Drain(c.recvBuffer + data).0, validUtf8)
    ensures var (fs, rest) := Drain(c.recvBuffer + data);
            var (c1, r) := RecvMsg(c, OneRead(data), validUtf8);
            var (c2, ms) := DeliverPending(c1, validUtf8);
            var (k, all) := Fold(c.core, fs, validUtf8);
            && c2.core == k && c2.recvBuffer == rest && (Healthy(k) ==> c2.recvQueue == [])
            && (if r.Message? then [r.data] else []) + ms == all
  {
    hide Drain, StepFrame, WellFormed, ClosesWell, Fold, ProcessQueue;
    var (fs, rest) := Drain(c.recvBuffer + data);
    var cq := Conn(rest, fs, c.core);
    assert Recv(c, OneRead(data)) == (c.(recvBuffer := c.recvBuffer + data), GotData);
    assert c.recvQueue + fs == fs;
    assert RecvFrames(c, OneRead(data)) == (cq, GotData);
    var (c1, r) := ProcessQueue(cq, validUtf8);
    assert RecvMsg(c, OneRead(data), validUtf8) == (c1, r);
    if fs != [] {
      QueueStep(cq, validUtf8);
      if r == Closed {
        OverRests(c1, [], validUtf8);
      } else {
        FoldNothing(c1.core, validUtf8);
        PendingIsFold(c1, validUtf8);
        assert r == Raise(WantRead) ==> Fold(c1.core, c1.recvQueue, validUtf8) == (c1.core, []);
      }
    } else {
      FoldNothing(c.core, validUtf8);
      assert (c1, r) == (cq, Raise(WantRead)) by { EmptyQueue(cq, validUtf8); }
    }
  }

  lemma {:induction false} EmptyQueue(c: Conn, validUtf8: seq<byte> -> bool)
    requires c.recvQueue == []
    ensures ProcessQueue(c, validUtf8) == (c, Raise(WantRead)) && DeliverPending(c, validUtf8) == (c, [])
  {
  }

  lemma {:induction false} OverPumps(c: Conn, cut: seq<seq<byte>>, validUtf8: seq<byte> -> bool)
    requires Over(c.core)
    ensures Pump(c, cut, validUtf8) == (c, [])
    decreases |cut|
  {
    if cut != [] {
      NoMessages();
      OverRests(c, OneRead(cut[0]), validUtf8);
      OverPumps(c, cut[1..], validUtf8);
    }
  }

  /** Every stream of frames, violations included, whose first close frame is well-formed: reading it and
      returning messages call by call is the fold over its frames, for every cut. */
  lemma {:induction false} PumpFolds(c: Conn, cut: seq<seq<byte>>, validUtf8: seq<byte> -> bool)
    requires Healthy(c.core) && c.recvQueue == [] && Decode(c.recvBuffer).None?
    requires forall d <- cut :: d != []
    requires ClosesWell(c.core, Drain(c.recvBuffer + Concat(cut)).0, validUtf8)
    ensures var (k, ms) := Fold(c.core, Drain(c.recvBuffer + Concat(cut)).0, validUtf8);
            Pump(c, cut, validUtf8).0.core == k && Pump(c, cut, validUtf8).1 == ms
    decreases |cut|
  {
    hide Decode, Drain, RecvMsg, Fold, ClosesWell, DeliverPending;
    if cut == [] {
      NothingToDrain(c);
      FoldNothing(c.core, validUtf8);
    } else {
      var data, tail := cut[0], Concat(cut[1..]);
      assert data in cut && forall d <- cut[1..] :: d in cut;
      assert c.recvBuffer + Concat(cut) == c.recvBuffer + data + tail;
      DrainAppend(c.recvBuffer + data, tail);
      DrainIsExhaustive(c.recvBuffer + data);
      var (f1, r1) := Drain(c.recvBuffer + data);
      var f2 := Drain(r1 + tail).0;
      FoldAppend(c.core, f1, f2, validUtf8);
      ReadIsFold(c, data, validUtf8);
      FoldEnds(c.core, f1, validUtf8);
      var k := Fold(c.core, f1, validUtf8).0;
      var c2 := DeliverPending(RecvMsg(c, OneRead(data), validUtf8).0, validUtf8).0;
      if Over(k) {
        OverPumps(c2, cut[1..], validUtf8);
        assert Fold(k, f2, validUtf8) == (k, []) by { OverFolds(k, f2, validUtf8); }
      } else {
        PumpFolds(c2, cut[1..], validUtf8);
      }
    }
  }

  lemma {:induction false} OverFolds(c: Core, fs: seq<Frame>, validUtf8: seq<byte> -> bool)
    requires Over(c)
    ensures Fold(c, fs, validUtf8) == (c, [])
  {
  }

  /** Two cuts of one such stream deliver the same messages and leave the same connection behind: what was
      queued and sent, the close code, the message under way, the state of the socket. */
  lemma {:induction false} CutsAgreeToTheEnd(c: Conn, cutA: seq<seq<byte>>, cutB: seq<seq<byte>>, validUtf8: seq<byte> -> bool)
    requires Healthy(c.core) && c.recvQueue == [] && Decode(c.recvBuffer).None?
    requires (forall d <- cutA :: d != []) && (forall d <- cutB :: d != []) && Concat(cutA) == Concat(cutB)
    requires ClosesWell(c.core, Drain(c.recvBuffer + Concat(cutA)).0, validUtf8)
    ensures Pump(c, cutA, validUtf8).1 == Pump(c, cutB, validUtf8).1
    ensures Pump(c, cutA, validUtf8).0.core == Pump(c, cutB, validUtf8).0.core
  {
    hide Decode, Drain, Fold, ClosesWell, Pump;
    PumpFolds(c, cutA, validUtf8);
    PumpFolds(c, cutB, validUtf8);
  }

  // ----- behind a malformed close frame -----

  /** Behind a close frame the caller never hears of, frames of the same read are still handled: whether one
      of them completes a message before a ping trips over the closed socket. */
  predicate CompletesBehind(partialMsg: seq<byte>, fs: seq<Frame>)
    decreases |fs|
  {
    fs != [] && (
      var f, rest := fs[0], fs[1..];
      if f.masked && f.opcode == CONTINUATION && partialMsg != [] then f.fin || CompletesBehind(partialMsg + f.payload, rest)
      else if f.masked && f.opcode == BINARY && partialMsg == [] then f.fin || CompletesBehind(f.payload, rest)
      else if f.masked && f.opcode == PING && f.fin then false
      else CompletesBehind(partialMsg, rest))
  }

  lemma {:induction false} OverFlushes(c: Core)
    requires Over(c)
    ensures forall code: Option<int>, reason: Option<Reason> :: Shutdown(c, code, reason) == (c, Done)
  {
  }

  lemma {:induction false} StepBehind(c: Core, f: Frame, validUtf8: seq<byte> -> bool)
    requires Over(c)
    ensures var (d, r) := StepFrame(c, f, validUtf8);
            if f.masked && f.opcode == CONTINUATION && c.partialMsg != [] then
              if f.fin then r.Message? && Over(d) else r == Continue && d == c.(partialMsg := c.partialMsg + f.payload)
            else if f.masked && f.opcode == BINARY && c.partialMsg == [] then
              if f.fin then r.Message? && Over(d) else r == Continue && d == c.(partialMsg := f.payload)
            else if f.masked && f.opcode == PING && f.fin then r == Raise(NoSocket) && d.receivedClose && !d.open && d.sendBuffer != []
            else r == Continue && d == c
  {
    hide Shutdown, Encode;
    OverFlushes(c);
    EncodeIsNonEmpty(PONG, f.payload);
  }

  lemma {:induction false} QueueBehind(c: Conn, validUtf8: seq<byte> -> bool)
    requires Over(c.core)
    ensures var (d, r) := ProcessQueue(c, validUtf8);
            && (r.Message? <==> CompletesBehind(c.core.partialMsg, c.recvQueue))
            && d.core.receivedClose && !d.core.open
    decreases |c.recvQueue|
  {
    hide StepFrame;
    if c.recvQueue != [] {
      StepBehind(c.core, c.recvQueue[0], validUtf8);
      var (k, r) := StepFrame(c.core, c.recvQueue[0], validUtf8);
      if r == Continue {
        QueueBehind(c.(recvQueue := c.recvQueue[1..], core := k), validUtf8);
      }
    }
  }

  /** With the socket gone no further call returns a message. */
  lemma {:induction false} NothingMore(c: Conn, validUtf8: seq<byte> -> bool)
    requires c.core.receivedClose && !c.core.open
    ensures DeliverPending(c, validUtf8) == (c, [])
  {
  }

  /** The queue up to a malformed close frame, and on into the frames behind it. */
  lemma {:induction false} QueueThrough(c: Conn, a: seq<Frame>, bad: Frame, b: seq<Frame>, validUtf8: seq<byte> -> bool)
    requires Healthy(c.core) && c.recvQueue == a + ([bad] + b) && (forall f <- a :: !IsClose(f))
    requires IsClose(bad) && !WellFormed(Fold(c.core, a, validUtf8).0, bad, validUtf8)
    ensures var (d, r) := ProcessQueue(c, validUtf8);
            var (d1, ms) := DeliverPending(d, validUtf8);
            var got := (if r.Message? then [r.data] else []) + ms;
            var (k, before) := Fold(c.core, a, validUtf8);
            && |got| == |before| + (if CompletesBehind(k.partialMsg, b) then 1 else 0) && before <= got
            && d1.core.receivedClose && !d1.core.open
    decreases |a|
  {
    hide StepFrame, WellFormed;
    var f := c.recvQueue[0];
    var (k, r1) := StepFrame(c.core, f, validUtf8);
    var c1 := c.(recvQueue := c.recvQueue[1..], core := k);
    if a == [] {
      CloseEnds(c.core, bad, validUtf8);
      assert a + ([bad] + b) == [bad] + b;
      QueueBehind(c1, validUtf8);
      NothingMore(ProcessQueue(c1, validUtf8).0, validUtf8);
    } else {
      assert f == a[0] && f in a && c1.recvQueue == a[1..] + ([bad] + b);
      assert forall g <- a[1..] :: g in a;
      OthersGoOn(c.core, f, validUtf8);
      QueueThrough(c1, a[1..], bad, b, validUtf8);
      if r1.Message? {
        assert RecvMsg(c1, [], validUtf8) == ProcessQueue(c1, validUtf8);
        DeliverUnfolds(c1, validUtf8);
      }
    }
  }

  lemma {:induction false} QueueShrinks(c: Conn, validUtf8: seq<byte> -> bool)
    requires (Healthy(c.core) || Over(c.core)) && c.recvQueue != []
    ensures var (d, r) := ProcessQueue(c, validUtf8);
            && |d.recvQueue| < |c.recvQueue|
            && (!r.Message? ==> d.recvQueue == [] || (d.core.receivedClose && !d.core.open))
    decreases |c.recvQueue|
  {
    hide StepFrame, WellFormed;
    var f := c.recvQueue[0];
    if Over(c.core) {
      StepBehind(c.core, f, validUtf8);
    } else if IsClose(f) {
      CloseEnds(c.core, f, validUtf8);
    } else {
      OthersGoOn(c.core, f, validUtf8);
    }
    var (k, r) := StepFrame(c.core, f, validUtf8);
    var c1 := c.(recvQueue := c.recvQueue[1..], core := k);
    if r == Continue && c1.recvQueue != [] {
      QueueShrinks(c1, validUtf8);
    }
  }

  lemma {:induction false} DeliverUnfolds(c: Conn, validUtf8: seq<byte> -> bool)
    requires Healthy(c.core) && c.recvQueue != []
    ensures var (d, r) := ProcessQueue(c, validUtf8);
            var (d1, ms) := DeliverPending(d, validUtf8);
            DeliverPending(c, validUtf8) == (d1, (if r.Message? then [r.data] else []) + ms)
  {
    hide ProcessQueue;
    QueueShrinks(c, validUtf8);
    var (d, r) := ProcessQueue(c, validUtf8);
    assert RecvMsg(c, [], validUtf8) == (d, r);
    NoMessages();
    if !r.Message? {
      if d.recvQueue == [] {
        EmptyQueue(d, validUtf8);
      } else {
        NothingMore(d, validUtf8);
      }
    }
  }

  lemma {:induction false} NothingBehind(partialMsg: seq<byte>)
    ensures !CompletesBehind(partialMsg, [])
  {
  }

  /** What one read and the calls behind it return. */
  function Returned(c: Conn, data: seq<byte>, validUtf8: seq<byte> -> bool): (Conn, seq<seq<byte>>) {
    var (c1, r) := RecvMsg(c, OneRead(data), validUtf8);
    var (c2, ms) := DeliverPending(c1, validUtf8);
    (c2, (if r.Message? then [r.data] else []) + ms)
  }

  lemma {:induction false} ReadThrough(c: Conn, data: seq<byte>, a: seq<Frame>, bad: Frame, b: seq<Frame>, validUtf8: seq<byte> -> bool)
    requires Healthy(c.core) && c.recvQueue == [] && data != []
    requires Drain(c.recvBuffer + data).0 == a + ([bad] + b) && forall f <- a :: !IsClose(f)
    requires IsClose(bad) && !WellFormed(Fold(c.core, a, validUtf8).0, bad, validUtf8)
    ensures var (d, got) := Returned(c, data, validUtf8); var (k, before) := Fold(c.core, a, validUtf8);
            && |got| == |before| + (if CompletesBehind(k.partialMsg, b) then 1 else 0) && before <= got
            && d.core.receivedClose && !d.core.open
  {
    hide Drain, Fold, StepFrame, WellFormed, DeliverPending, CompletesBehind, ProcessQueue;
    var cq := Conn(Drain(c.recvBuffer + data).1, a + ([bad] + b), c.core);
    assert c.recvQueue + cq.recvQueue == cq.recvQueue;
    assert Recv(c, OneRead(data)) == (c.(recvBuffer := c.recvBuffer + data), GotData);
    assert RecvFrames(c, OneRead(data)) == (cq, GotData);
    assert RecvMsg(c, OneRead(data), validUtf8) == ProcessQueue(cq, validUtf8);
    QueueThrough(cq, a, bad, b, validUtf8);
  }

  lemma {:induction false} PumpOne(c: Conn, data: seq<byte>, validUtf8: seq<byte> -> bool)
    ensures Pump(c, [data], validUtf8).1 == Returned(c, data, validUtf8).1
  {
    hide RecvMsg, DeliverPending;
    assert [data][1..] == [];
    var c2 := Returned(c, data, validUtf8).0;
    assert Pump(c2, [], validUtf8) == (c2, []);
  }

  lemma {:induction false} PumpTwo(c: Conn, x: seq<byte>, y: seq<byte>, validUtf8: seq<byte> -> bool)
    requires Returned(c, x, validUtf8).0.core.receivedClose && !Returned(c, x, validUtf8).0.core.open
    ensures Pump(c, [x, y], validUtf8).1 == Returned(c, x, validUtf8).1
  {
    hide RecvMsg, DeliverPending;
    assert [x, y][1..] == [y];
    var (d, got) := Returned(c, x, validUtf8);
    PumpOne(d, y, validUtf8);
    ClosedReturnsNothing(d, y, validUtf8);
    assert got + [] == got;
  }

  lemma {:induction false} ClosedReturnsNothing(c: Conn, data: seq<byte>, validUtf8: seq<byte> -> bool)
    requires c.core.receivedClose && !c.core.open
    ensures Returned(c, data, validUtf8).1 == []
  {
    hide DeliverPending;
    var c1 := RecvMsg(c, OneRead(data), validUtf8).0;
    assert c1 == c;
    NothingMore(c1, validUtf8);
  }

  lemma {:induction false} ClosedPumpsNothing(c: Conn, cut: seq<seq<byte>>, validUtf8: seq<byte> -> bool)
    requires c.core.receivedClose && !c.core.open
    ensures Pump(c, cut, validUtf8).1 == []
    decreases |cut|
  {
    hide RecvMsg, DeliverPending;
    if cut != [] {
      NoMessages();
      ClosedReturnsNothing(c, cut[0], validUtf8);
      ClosedStays(c, cut[0], validUtf8);
      ClosedPumpsNothing(Returned(c, cut[0], validUtf8).0, cut[1..], validUtf8);
      PumpUnfolds(c, cut, validUtf8);
    }
  }

  lemma {:induction false} ClosedStays(c: Conn, data: seq<byte>, validUtf8: seq<byte> -> bool)
    requires c.core.receivedClose && !c.core.open
    ensures Returned(c, data, validUtf8).0 == c
  {
    hide DeliverPending;
    NothingMore(c, validUtf8);
  }

  lemma PumpUnfolds(c: Conn, cut: seq<seq<byte>>, validUtf8: seq<byte> -> bool)
    requires cut != []
    ensures var (d, got) := Returned(c, cut[0], validUtf8);
            Pump(c, cut, validUtf8).1 == got + Pump(d, cut[1..], validUtf8).1
  {
    hide RecvMsg, DeliverPending;
  }

  /** The frames that are decoded behind frame number n in the read that completes it. */
  function Behind(buffer: seq<byte>, cut: seq<seq<byte>>, n: nat): seq<Frame>
    decreases |cut|
  {
    if cut == [] then []
    else
      var (fs, rest) := Drain(buffer + cut[0]);
      if n < |fs| then fs[n + 1..] else Behind(rest, cut[1..], n - |fs|)
  }

  lemma {:induction false} NoCloseClosesWell(c: Core, fs: seq<Frame>, validUtf8: seq<byte> -> bool)
    requires Healthy(c) && forall f <- fs :: !IsClose(f)
    ensures ClosesWell(c, fs, validUtf8) && Healthy(Fold(c, fs, validUtf8).0)
    decreases |fs|
  {
    hide StepFrame, WellFormed;
    if fs != [] {
      assert fs[0] in fs && forall f <- fs[1..] :: f in fs;
      OthersGoOn(c, fs[0], validUtf8);
      NoCloseClosesWell(StepFrame(c, fs[0], validUtf8).0, fs[1..], validUtf8);
    }
  }

  lemma {:induction false} CompletesWithMore(partialMsg: seq<byte>, fs: seq<Frame>, more: seq<Frame>)
    requires CompletesBehind(partialMsg, fs)
    ensures CompletesBehind(partialMsg, fs + more)
    decreases |fs|
  {
    var f, rest := fs[0], fs[1..];
    assert (fs + more)[0] == f && (fs + more)[1..] == rest + more;
    if f.masked && f.opcode == CONTINUATION && partialMsg != [] {
      if !f.fin {
        CompletesWithMore(partialMsg + f.payload, rest, more);
      }
    } else if f.masked && f.opcode == BINARY && partialMsg == [] {
      if !f.fin {
        CompletesWithMore(f.payload, rest, more);
      }
    } else {
      CompletesWithMore(partialMsg, rest, more);
    }
  }

  /** One read ends before the malformed close frame: its frames are among those in front of it. */
  lemma SplitBefore(f1: seq<Frame>, f2: seq<Frame>, a: seq<Frame>, bad: Frame, b: seq<Frame>)
    requires f1 + f2 == a + ([bad] + b) && |f1| <= |a|
    ensures f1 == a[..|f1|] && f2 == a[|f1|..] + ([bad] + b) && a == f1 + a[|f1|..]
  {
    assert f1 == (f1 + f2)[..|f1|] && f2 == (f1 + f2)[|f1|..];
  }

  /** One read contains the malformed close frame, and maybe some of what is behind it. */
  lemma SplitBehind(f1: seq<Frame>, f2: seq<Frame>, a: seq<Frame>, bad: Frame, b: seq<Frame>)
    requires f1 + f2 == a + ([bad] + b) && |f1| > |a|
    ensures f1 == a + ([bad] + f1[|a| + 1..]) && b == f1[|a| + 1..] + f2
  {
    var all := a + ([bad] + b);
    assert f1 == all[..|f1|] && f2 == all[|f1|..];
    assert b == all[|a| + 1..];
  }

  /** Every cut of a stream with a malformed close frame: the messages in front of it are delivered, and one
      more if and only if it is completed behind it by frames of the same read. */
  lemma {:induction false} AnyCut(c: Conn, cut: seq<seq<byte>>, a: seq<Frame>, bad: Frame, b: seq<Frame>, validUtf8: seq<byte> -> bool)
    requires Healthy(c.core) && c.recvQueue == [] && Decode(c.recvBuffer).None? && forall d <- cut :: d != []
    requires Drain(c.recvBuffer + Concat(cut)).0 == a + ([bad] + b) && forall f <- a :: !IsClose(f)
    requires IsClose(bad) && !WellFormed(Fold(c.core, a, validUtf8).0, bad, validUtf8)
    ensures var (k, before) := Fold(c.core, a, validUtf8); var got := Pump(c, cut, validUtf8).1;
            && before <= got
            && |got| == |before| + (if CompletesBehind(k.partialMsg, Behind(c.recvBuffer, cut, |a|)) then 1 else 0)
    ensures Behind(c.recvBuffer, cut, |a|) <= b
    decreases |cut|
  {
    hide Decode, Drain, Fold, ClosesWell, StepFrame, WellFormed, CompletesBehind, Returned, Pump;
    if cut == [] {
      SliceBehind(a, bad, b);
      NothingToDrain(c);
      assert false;
    } else {
      var data, tail := cut[0], Concat(cut[1..]);
      assert data in cut && forall d <- cut[1..] :: d in cut;
      assert c.recvBuffer + Concat(cut) == c.recvBuffer + data + tail;
      DrainAppend(c.recvBuffer + data, tail);
      var (f1, r1) := Drain(c.recvBuffer + data);
      var f2 := Drain(r1 + tail).0;
      PumpUnfolds(c, cut, validUtf8);
      if |f1| <= |a| {
        DrainIsExhaustive(c.recvBuffer + data);
        ReadBefore(c, cut, f1, a, bad, b, validUtf8);
      } else {
        SplitBehind(f1, f2, a, bad, b);
        ReadThrough(c, data, a, bad, f1[|a| + 1..], validUtf8);
        var (d, got) := Returned(c, data, validUtf8);
        ClosedPumpsNothing(d, cut[1..], validUtf8);
        assert got + [] == got;
      }
    }
  }

  lemma {:induction false} ReadBefore(c: Conn, cut: seq<seq<byte>>, f1: seq<Frame>, a: seq<Frame>, bad: Frame, b: seq<Frame>,
                                      validUtf8: seq<byte> -> bool)
    requires Healthy(c.core) && c.recvQueue == [] && Decode(c.recvBuffer).None? && cut != [] && forall d <- cut :: d != []
    requires Drain(c.recvBuffer + cut[0]).0 == f1 && |f1| <= |a| && Decode(Drain(c.recvBuffer + cut[0]).1).None?
    requires f1 + Drain(Drain(c.recvBuffer + cut[0]).1 + Concat(cut[1..])).0 == a + ([bad] + b) && forall f <- a :: !IsClose(f)
    requires IsClose(bad) && !WellFormed(Fold(c.core, a, validUtf8).0, bad, validUtf8)
    ensures var (k, before) := Fold(c.core, a, validUtf8); var got := Pump(c, cut, validUtf8).1;
            && before <= got
            && |got| == |before| + (if CompletesBehind(k.partialMsg, Behind(c.recvBuffer, cut, |a|)) then 1 else 0)
    ensures Behind(c.recvBuffer, cut, |a|) <= b
    decreases |cut|, 0
  {
    hide Decode, Drain, Fold, ClosesWell, StepFrame, WellFormed, CompletesBehind, Pump;
    var data, r1 := cut[0], Drain(c.recvBuffer + cut[0]).1;
    var f2 := Drain(r1 + Concat(cut[1..])).0;
    SplitBefore(f1, f2, a, bad, b);
    var a2 := a[|f1|..];
    assert forall f <- f1 :: f in a;
    assert forall f <- a2 :: f in a;
    assert data in cut && forall d <- cut[1..] :: d in cut;
    NoCloseClosesWell(c.core, f1, validUtf8);
    ReadIsFold(c, data, validUtf8);
    FoldAppend(c.core, f1, a2, validUtf8);
    var (d, got) := Returned(c, data, validUtf8);
    hide Returned;
    PumpUnfolds(c, cut, validUtf8);
    AnyCut(d, cut[1..], a2, bad, b, validUtf8);
  }

  /** The first m frames of a stream end where nothing is left over. */
  lemma {:induction false} DrainPrefix(s: seq<byte>, m: nat) returns (n: nat)
    requires m <= |Drain(s).0|
    ensures n <= |s| && Drain(s[..n]) == (Drain(s).0[..m], [])
    decreases m
  {
    hide Decode, Drain;
    if m == 0 {
      n := 0;
      assert Decode([]).None? by { if Decode([]).Some? { FrameIsAtLeastTwoBytes([]); } }
      NoFrame([]);
      assert s[..0] == [];
    } else {
      if Decode(s).None? {
        NoFrame(s);
        assert false;
      }
      var f := Decode(s).value;
      DrainUnfold(s);
      var k := DrainPrefix(s[f.length..], m - 1);
      n := f.length + k;
      var t := s[..n];
      DecodePrefix(s, n);
      DrainUnfold(t);
      assert t[f.length..] == s[f.length..][..k];
      assert Drain(s).0[..m] == [f] + Drain(s[f.length..]).0[..m - 1];
    }
  }

  lemma NoFrame(s: seq<byte>)
    requires Decode(s).None?
    ensures Drain(s) == ([], s)
  {
    hide Decode;
  }

  lemma DecodePrefix(s: seq<byte>, n: nat)
    requires Decode(s).Some? && Decode(s).value.length <= n <= |s|
    ensures Decode(s[..n]) == Decode(s)
  {
    hide Decode;
    DecodePrefixSafe(s, n);
    DecodeStable(s[..n], s[n..]);
    assert s[..n] + s[n..] == s;
  }

  /** A buffer without a complete frame ends before any prefix that holds one. */
  lemma PrefixIsLonger(buffer: seq<byte>, s: seq<byte>, n: nat)
    requires Decode(buffer).None? && buffer <= s && n <= |s| && Decode(s[..n]).Some?
    ensures n > |buffer|
  {
    hide Decode;
    if n <= |buffer| {
      assert s[..n] == buffer[..n] && buffer[..n] + buffer[n..] == buffer;
      DecodeStable(buffer[..n], buffer[n..]);
    }
  }

  /** Where to cut so that the malformed close frame ends a read. */
  lemma {:induction false} CutAfter(buffer: seq<byte>, z: seq<byte>, m: nat) returns (x: seq<byte>, y: seq<byte>)
    requires Decode(buffer).None? && 0 < m < |Drain(buffer + z).0|
    ensures x != [] && y != [] && x + y == z && Drain(buffer + x).0 == Drain(buffer + z).0[..m]
  {
    hide Drain, Decode;
    var s := buffer + z;
    var n := DrainPrefix(s, m);
    if Decode(s[..n]).None? {
      NoFrame(s[..n]);
    }
    PrefixIsLonger(buffer, s, n);
    x, y := z[..n - |buffer|], z[n - |buffer|..];
    assert buffer + x == s[..n];
    assert s[..|s|] == s;
    assert n < |s|;
  }

  /** All cuts of a stream with a malformed close frame deliver the same messages if and only if no message is
      completed behind it before a ping. */
  lemma {:induction false} AllCutsAgreeIff(c: Conn, z: seq<byte>, a: seq<Frame>, bad: Frame, b: seq<Frame>, validUtf8: seq<byte> -> bool)
    requires Healthy(c.core) && c.recvQueue == [] && Decode(c.recvBuffer).None? && z != []
    requires Drain(c.recvBuffer + z).0 == a + ([bad] + b) && forall f <- a :: !IsClose(f)
    requires IsClose(bad) && !WellFormed(Fold(c.core, a, validUtf8).0, bad, validUtf8)
    ensures (forall cut: seq<seq<byte>> :: Concat(cut) == z && (forall d <- cut :: d != []) ==>
               Pump(c, cut, validUtf8).1 == Pump(c, [z], validUtf8).1)
            <==> !CompletesBehind(Fold(c.core, a, validUtf8).0.partialMsg, b)
  {
    hide Decode, Drain, Fold, WellFormed, CompletesBehind, Pump, Healthy, Behind;
    var (k, before) := Fold(c.core, a, validUtf8);
    OnePart(z);
    AnyCut(c, [z], a, bad, b, validUtf8);
    BehindWhole(c.recvBuffer, z, a, bad, b);
    if CompletesBehind(k.partialMsg, b) {
      NothingBehind(k.partialMsg);
      assert b != [];
      assert (a + ([bad] + b))[..|a| + 1] == a + [bad];
      var x, y := CutAfter(c.recvBuffer, z, |a| + 1);
      TwoParts(x, y);
      AnyCut(c, [x, y], a, bad, b, validUtf8);
      BehindNone(c.recvBuffer, x, y, |a|);
      assert |Pump(c, [x, y], validUtf8).1| != |Pump(c, [z], validUtf8).1|;
    } else {
      forall cut: seq<seq<byte>> | Concat(cut) == z && (forall d <- cut :: d != [])
        ensures Pump(c, cut, validUtf8).1 == Pump(c, [z], validUtf8).1
      {
        AnyCut(c, cut, a, bad, b, validUtf8);
        var behind := Behind(c.recvBuffer, cut, |a|);
        assert behind + b[|behind|..] == b;
        if CompletesBehind(k.partialMsg, behind) {
          CompletesWithMore(k.partialMsg, behind, b[|behind|..]);
        }
      }
    }
  }

  lemma OnePart(z: seq<byte>)
    ensures Concat([z]) == z
  {
    assert [z][1..] == [] && Concat<byte>([]) == [];
    assert z + [] == z;
  }

  lemma TwoParts(x: seq<byte>, y: seq<byte>)
    ensures Concat([x, y]) == x + y
  {
    assert [x, y][1..] == [y];
    OnePart(y);
  }

  lemma BehindWhole(buffer: seq<byte>, z: seq<byte>, a: seq<Frame>, bad: Frame, b: seq<Frame>)
    requires Drain(buffer + z).0 == a + ([bad] + b)
    ensures Behind(buffer, [z], |a|) == b
  {
    SliceBehind(a, bad, b);
    hide Drain;
    var fs := a + ([bad] + b);
    assert Behind(buffer, [z], |a|) == fs[|a| + 1..];
  }

  lemma SliceBehind(a: seq<Frame>, bad: Frame, b: seq<Frame>)
    ensures var fs := a + ([bad] + b); |fs| > |a| && fs[|a| + 1..] == b
  {
  }

  lemma BehindNone(buffer: seq<byte>, x: seq<byte>, y: seq<byte>, n: nat)
    requires |Drain(buffer + x).0| == n + 1
    ensures Behind(buffer, [x, y], n) == []
  {
    hide Drain;
  }

  /** The cut right behind a malformed close frame matters exactly if a message is completed behind it before
      a ping: read together with the close frame that message is still returned, read later it is not. */
  lemma {:induction false} CutBehindCloseIff(c: Conn, x: seq<byte>, y: seq<byte>, a: seq<Frame>, bad: Frame, b: seq<Frame>,
                                             validUtf8: seq<byte> -> bool)
    requires Healthy(c.core) && c.recvQueue == [] && c.recvBuffer == [] && x != [] && y != []
    requires Drain(x) == (a + [bad], []) && Drain(y) == (b, []) && forall f <- a :: !IsClose(f)
    requires IsClose(bad) && !WellFormed(Fold(c.core, a, validUtf8).0, bad, validUtf8)
    ensures Pump(c, [x + y], validUtf8).1 == Pump(c, [x, y], validUtf8).1 <==>
            !CompletesBehind(Fold(c.core, a, validUtf8).0.partialMsg, b)
  {
    hide Drain, Fold, StepFrame, WellFormed, RecvMsg, DeliverPending, CompletesBehind;
    var (k, before) := Fold(c.core, a, validUtf8);
    DrainAppend(x, y);
    assert [] + y == y && c.recvBuffer + x == x && c.recvBuffer + (x + y) == x + y;
    assert a + [bad] + b == a + ([bad] + b) && a + ([bad] + []) == a + [bad];
    ReadThrough(c, x, a, bad, [], validUtf8);
    ReadThrough(c, x + y, a, bad, b, validUtf8);
    assert !CompletesBehind(k.partialMsg, []) by { NothingBehind(k.partialMsg); }
    PumpOne(c, x + y, validUtf8);
    PumpTwo(c, x, y, validUtf8);
  }

  /** Such a stream: a fragmented close frame, and a message behind it. */
  lemma {:induction false} FragmentedCloseThenMessage(c: Conn, key: Key, m: Payload, validUtf8: seq<byte> -> bool)
    requires Healthy(c.core) && c.recvQueue == [] && c.recvBuffer == [] && !c.core.sentClose && c.core.partialMsg == []
    ensures var x := BytesOf(ClientFrame(CLOSE, false, key, [])); var y := BytesOf(ClientFrame(BINARY, true, key, m));
            Pump(c, [x + y], validUtf8).1 != Pump(c, [x, y], validUtf8).1
  {
    var f, g := ClientFrame(CLOSE, false, key, []), ClientFrame(BINARY, true, key, m);
    OneEncoded(f);
    OneEncoded(g);
    assert [] + [Seen(f)] == [Seen(f)];
    FoldNothing(c.core, validUtf8);
    BadPair(c.core, f, g, validUtf8);
    hide Pump, Drain, Fold, BytesOf, Seen, WellFormed, CompletesBehind, Healthy;
    CutBehindCloseIff(c, BytesOf(f), BytesOf(g), [], Seen(f), [Seen(g)], validUtf8);
  }

  lemma {:induction false} BadPair(c: Core, f: ClientFrame, g: ClientFrame, validUtf8: seq<byte> -> bool)
    requires !c.sentClose && c.partialMsg == []
    requires f.opcode == CLOSE && !f.fin && g.opcode == BINARY && g.fin
    ensures IsClose(Seen(f)) && !WellFormed(c, Seen(f), validUtf8) && CompletesBehind(c.partialMsg, [Seen(g)])
  {
    hide BytesOf;
  }

  lemma {:induction false} OneEncoded(f: ClientFrame)
    ensures BytesOf(f) != [] && Drain(BytesOf(f)) == ([Seen(f)], [])
  {
    hide Encode, Drain;
    EncodeLength(f.opcode, f.payload, Some(f.key), f.fin);
    DrainEncoded([f]);
    assert [f][1..] == [];
    assert StreamBytes([f]) == BytesOf(f) + StreamBytes([]) == BytesOf(f);
    assert AllSeen([f]) == [Seen(f)] + AllSeen([]) == [Seen(f)];
  }
}
