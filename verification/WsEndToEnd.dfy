/** From a client's bytes, cut up in any way, to the messages recvmsg returns. */
module WsEndToEnd {
  import opened Bytes
  import opened Wrappers
  import opened HybiCodec
  import opened WsConnection
  import opened WsReceive
  import opened WsReassembly

  /** A four-byte masking key. */
  type Key = k: seq<byte> | |k| == 4 witness [0, 0, 0, 0]

  datatype ClientFrame = ClientFrame(opcode: nat, fin: bool, key: Key, payload: Payload)

  function BytesOf(f: ClientFrame): seq<byte> {
    Encode(f.opcode, f.payload, Some(f.key), f.fin)
  }

  function StreamBytes(fs: seq<ClientFrame>): seq<byte> {
    if fs == [] then [] else BytesOf(fs[0]) + StreamBytes(fs[1..])
  }

  /** The frame the endpoint should see. */
  function Seen(f: ClientFrame): Frame {
    Frame(f.fin, f.opcode % 16, true, |BytesOf(f)|, f.payload)
  }

  function AllSeen(fs: seq<ClientFrame>): seq<Frame> {
    if fs == [] then [] else [Seen(fs[0])] + AllSeen(fs[1..])
  }

  lemma {:induction false} DrainEncoded(fs: seq<ClientFrame>)
    ensures Drain(StreamBytes(fs)) == (AllSeen(fs), [])
  {
    hide Encode, Decode;
    if fs == [] {
      assert Decode([]).None? by {
        FrameIsAtLeastTwoBytes([]);
      }
    } else {
      var f := fs[0];
      var buf := StreamBytes(fs);
      DecodeEncode(f.opcode, f.payload, Some(f.key), f.fin, StreamBytes(fs[1..]));
      DrainUnfold(buf);
      assert buf[|BytesOf(f)|..] == StreamBytes(fs[1..]);
      DrainEncoded(fs[1..]);
    }
  }

  /** The caller: whenever the socket has data, recvmsg once, then again while frames are pending. */
  function Pump(c: Conn, cut: seq<seq<byte>>, validUtf8: seq<byte> -> bool): (Conn, seq<seq<byte>>)
    decreases |cut|
  {
    if cut == [] then (c, [])
    else
      var (c1, r) := RecvMsg(c, OneRead(cut[0]), validUtf8);
      var (c2, ms) := DeliverPending(c1, validUtf8);
      var (c3, later) := Pump(c2, cut[1..], validUtf8);
      (c3, (if r.Message? then [r.data] else []) + ms + later)
  }

  lemma {:induction false} AbsorbAppend(c: Core, a: seq<Frame>, b: seq<Frame>, validUtf8: seq<byte> -> bool)
    ensures var (d, ms) := Absorb(c, a, validUtf8);
            var (e, later) := Absorb(d, b, validUtf8);
            Absorb(c, a + b, validUtf8) == (e, ms + later)
    decreases |a|
  {
    hide StepFrame;
    if a == [] {
      assert a + b == b;
      ConcatAssoc([], [], Absorb(c, b, validUtf8).1);
    } else {
      assert (a + b)[0] == a[0] && (a + b)[1..] == a[1..] + b;
      var (d, r) := StepFrame(c, a[0], validUtf8);
      AbsorbAppend(d, a[1..], b, validUtf8);
      var (e, ms) := Absorb(d, a[1..], validUtf8);
      ConcatAssoc(if r.Message? then [r.data] else [], ms, Absorb(e, b, validUtf8).1);
    }
  }

  lemma {:induction false} AbsorbStaysHealthy(c: Core, fs: seq<Frame>, validUtf8: seq<byte> -> bool)
    requires Healthy(c) && AllAcceptable(fs)
    ensures Healthy(Absorb(c, fs, validUtf8).0)
    decreases |fs|
  {
    hide StepFrame;
    if fs != [] {
      ControlStep(c, fs);
      StepAcceptable(c, fs[0], validUtf8);
      AbsorbStaysHealthy(StepFrame(c, fs[0], validUtf8).0, fs[1..], validUtf8);
    }
  }

  /** One read and the calls that follow it handle exactly the frames that read completes. */
  lemma {:induction false} PumpOnce(c: Conn, data: seq<byte>, validUtf8: seq<byte> -> bool)
    requires Healthy(c.core) && c.recvQueue == [] && data != []
    requires AllAcceptable(Drain(c.recvBuffer + data).0)
    ensures var (fs, rest) := Drain(c.recvBuffer + data);
            var (c1, r) := RecvMsg(c, OneRead(data), validUtf8);
            var (c2, ms) := DeliverPending(c1, validUtf8);
            var (k, all) := Absorb(c.core, fs, validUtf8);
            c2 == Conn(rest, [], k) && (if r.Message? then [r.data] else []) + ms == all
  {
    hide Drain, StepFrame;
    var (fs, rest) := Drain(c.recvBuffer + data);
    var cq := Conn(rest, fs, c.core);
    assert Recv(c, OneRead(data)) == (c.(recvBuffer := c.recvBuffer + data), GotData);
    assert c.recvQueue + fs == fs;
    assert RecvFrames(c, OneRead(data)) == (cq, GotData);
    var (c1, r) := ProcessQueue(cq, validUtf8);
    assert RecvMsg(c, OneRead(data), validUtf8) == (c1, r);
    if fs != [] {
      ProcessQueueIsFold(cq, validUtf8);
      QueueIsFold(c1, validUtf8);
    } else {
      assert Absorb(c.core, [], validUtf8) == (c.core, []);
    }
  }

  lemma {:induction false} PumpIsFold(c: Conn, cut: seq<seq<byte>>, validUtf8: seq<byte> -> bool)
    requires Healthy(c.core) && c.recvQueue == [] && Decode(c.recvBuffer).None?
    requires forall d <- cut :: d != []
    requires AllAcceptable(Drain(c.recvBuffer + Concat(cut)).0)
    ensures var (fs, rest) := Drain(c.recvBuffer + Concat(cut));
            var (k, ms) := Absorb(c.core, fs, validUtf8);
            Pump(c, cut, validUtf8) == (Conn(rest, [], k), ms)
    decreases |cut|
  {
    hide Decode, Drain, RecvMsg, Absorb, DeliverPending;
    if cut == [] {
      NothingToDrain(c);
      assert Absorb(c.core, [], validUtf8) == (c.core, []) by {
        AbsorbNothing(c.core, validUtf8);
      }
    } else {
      var data, tail := cut[0], Concat(cut[1..]);
      assert data in cut && forall d <- cut[1..] :: d in cut;
      assert c.recvBuffer + Concat(cut) == c.recvBuffer + data + tail;
      DrainAppend(c.recvBuffer + data, tail);
      DrainIsExhaustive(c.recvBuffer + data);
      var (f1, r1) := Drain(c.recvBuffer + data);
      var f2 := Drain(r1 + tail).0;
      AcceptableSplit(f1, f2);
      PumpOnce(c, data, validUtf8);
      AbsorbStaysHealthy(c.core, f1, validUtf8);
      AbsorbAppend(c.core, f1, f2, validUtf8);
      PumpIsFold(Conn(r1, [], Absorb(c.core, f1, validUtf8).0), cut[1..], validUtf8);
    }
  }

  lemma AbsorbNothing(c: Core, validUtf8: seq<byte> -> bool)
    ensures Absorb(c, [], validUtf8) == (c, [])
  {
  }

  lemma NothingToDrain(c: Conn)
    requires Decode(c.recvBuffer).None?
    ensures Drain(c.recvBuffer + Concat([])) == ([], c.recvBuffer)
  {
    assert c.recvBuffer + Concat([]) == c.recvBuffer;
  }

  lemma AcceptableSplit(a: seq<Frame>, b: seq<Frame>)
    requires AllAcceptable(a + b)
    ensures AllAcceptable(a) && AllAcceptable(b)
  {
    assert forall f <- a :: f in a + b;
    assert forall f <- b :: f in a + b;
  }

  /** End to end: a client sends any messages, cut into fragments in any way, with pings and pongs
      anywhere in between, under any keys; the network cuts the bytes up in any way. The caller gets the
      remembered messages, in order, each ping is answered once with its payload, and no byte is left. */
  lemma MessagesSurviveTheWire(c: Conn, fs: seq<ClientFrame>, msgs: seq<Fragments>, cut: seq<seq<byte>>,
                               validUtf8: seq<byte> -> bool)
    requires Healthy(c.core) && c.core.partialMsg == [] && c.recvQueue == [] && c.recvBuffer == []
    requires AllAcceptable(AllSeen(fs)) && DataOf(AllSeen(fs)) == Stream(msgs)
    requires Concat(cut) == StreamBytes(fs) && forall d <- cut :: d != []
    ensures var (d, got) := Pump(c, cut, validUtf8);
            && got == Delivered(msgs)
            && d.recvBuffer == [] && d.recvQueue == [] && d.core.partialMsg == []
            && PongsIn(d.core.log) == PongsIn(c.core.log) + PingsOf(AllSeen(fs))
  {
    hide Decode, Drain, Absorb, Pump, Stream, Delivered, DataOf, PingsOf, StreamBytes, AllSeen, AllAcceptable, PongsIn;
    assert c.recvBuffer + Concat(cut) == Concat(cut);
    DrainEncoded(fs);
    assert Decode([]).None? by {
      FrameIsAtLeastTwoBytes([]);
    }
    PumpIsFold(c, cut, validUtf8);
    NoMessageUnderWay(msgs);
    AbsorbDelivers(c.core, AllSeen(fs), [], msgs, validUtf8);
  }

  lemma NoMessageUnderWay(msgs: seq<Fragments>)
    ensures Continuations([]) + Stream(msgs) == Stream(msgs)
    ensures UnderWay([], []) + Delivered(msgs) == Delivered(msgs)
  {
  }

  // ----- exactly when nothing is lost -----

  /** Every message arrives exactly when no fragmented message starts with an empty fragment. */
  lemma {:induction false} DeliveryIsExact(msgs: seq<Fragments>)
    ensures Delivered(msgs) == Originals(msgs) <==> forall m <- msgs :: Remembered(m)
    ensures |Delivered(msgs)| <= |msgs| == |Originals(msgs)|
    ensures |Delivered(msgs)| == |msgs| <==> forall m <- msgs :: Remembered(m)
  {
    if msgs != [] {
      var tail := msgs[1..];
      DeliveryIsExact(tail);
      assert forall m :: m in msgs <==> m == msgs[0] || m in tail;
      if Remembered(msgs[0]) {
        assert Delivered(msgs)[1..] == Delivered(tail) && Originals(msgs)[1..] == Originals(tail);
      }
    }
  }

  /** A fragmented message whose first fragment is empty is dropped, although RFC 6455 allows it. */
  lemma EmptyFirstFragmentIsLost(b: byte)
    ensures var m: Fragments := [[], [b]];
            Delivered([m]) == [] && Originals([m]) == [[b]]
  {
    var m: Fragments := [[], [b]];
    assert m[1..] == [[b]];
    assert Concat(m[1..][1..]) == [];
    assert Concat(m) == [b];
    assert [m][1..] == [];
  }
}
