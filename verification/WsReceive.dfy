/** Receiving does not depend on how the network cuts the byte stream up. */
module WsReceive {
  import opened Bytes
  import opened HybiCodec
  import opened WsConnection

  lemma DrainUnfold(buf: seq<byte>)
    requires Decode(buf).Some?
    ensures 2 <= Decode(buf).value.length <= |buf|
    ensures var rest := Drain(buf[Decode(buf).value.length..]);
            Drain(buf) == ([Decode(buf).value] + rest.0, rest.1)
  {
    FrameIsAtLeastTwoBytes(buf);
  }

  /** Decoding a stream in two parts gives the frames and the residue of decoding it whole. */
  lemma {:induction false} DrainAppend(a: seq<byte>, b: seq<byte>)
    ensures Drain(a + b) == (Drain(a).0 + Drain(Drain(a).1 + b).0, Drain(Drain(a).1 + b).1)
    decreases |a|
  {
    hide Decode;
    if Decode(a).Some? {
      var n := Decode(a).value.length;
      DrainUnfold(a);
      DecodeStable(a, b);
      DrainUnfold(a + b);
      assert (a + b)[n..] == a[n..] + b;
      DrainAppend(a[n..], b);
      ConcatAssoc([Decode(a).value], Drain(a[n..]).0, Drain(Drain(a).1 + b).0);
    } else {
      ConcatAssoc([], [], Drain(a + b).0);
    }
  }

  lemma ConcatAssoc<T>(x: seq<T>, y: seq<T>, z: seq<T>)
    ensures x + (y + z) == x + y + z && [] + z == z
  {
  }

  /** What is left after draining holds no complete frame. */
  lemma {:induction false} DrainIsExhaustive(buf: seq<byte>)
    ensures Decode(Drain(buf).1).None?
    decreases |buf|
  {
    hide Decode;
    if Decode(buf).Some? {
      DrainUnfold(buf);
      DrainIsExhaustive(buf[Decode(buf).value.length..]);
    }
  }

  /** The bytes one call of _recv takes from the socket. */
  function BytesRead(answers: seq<RecvAnswer>): seq<byte> {
    if answers == [] || !answers[0].Received? || answers[0].data == [] then []
    else answers[0].data + (if answers[0].more then BytesRead(answers[1..]) else [])
  }

  lemma {:induction false} RecvAppends(c: Conn, answers: seq<RecvAnswer>)
    requires c.core.open
    ensures Recv(c, answers).0 == c.(recvBuffer := c.recvBuffer + BytesRead(answers))
    decreases |answers|
  {
    if answers == [] || !answers[0].Received? || answers[0].data == [] {
      assert c.recvBuffer + [] == c.recvBuffer;
    } else {
      var data := answers[0].data;
      var c1 := c.(recvBuffer := c.recvBuffer + data);
      if answers[0].more {
        RecvAppends(c1, answers[1..]);
        assert c.recvBuffer + data + BytesRead(answers[1..]) == c.recvBuffer + BytesRead(answers);
      } else {
        assert BytesRead(answers) == data;
      }
    }
  }

  /** Every frame received so far, decoded or not, and the residue after them. */
  function Inbox(c: Conn): (seq<Frame>, seq<byte>) {
    var (fs, rest) := Drain(c.recvBuffer);
    (c.recvQueue + fs, rest)
  }

  function Extend(inbox: (seq<Frame>, seq<byte>), data: seq<byte>): (seq<Frame>, seq<byte>) {
    var (fs, rest) := Drain(inbox.1 + data);
    (inbox.0 + fs, rest)
  }

  lemma ExtendTwice(inbox: (seq<Frame>, seq<byte>), a: seq<byte>, b: seq<byte>)
    ensures Extend(Extend(inbox, a), b) == Extend(inbox, a + b)
  {
    hide Decode;
    DrainAppend(inbox.1 + a, b);
    assert inbox.1 + a + b == inbox.1 + (a + b);
    var (fs, rest) := Drain(inbox.1 + a);
    assert inbox.0 + fs + Drain(rest + b).0 == inbox.0 + (fs + Drain(rest + b).0);
  }

  /** One call of _recv_frames, whatever the socket answers: the inbox grows by exactly the bytes
      read, and after a call that succeeds everything decodable has been decoded and queued. */
  lemma RecvFramesExtends(c: Conn, answers: seq<RecvAnswer>)
    requires c.core.open
    ensures var (d, r) := RecvFrames(c, answers);
            Inbox(d) == Extend(Inbox(c), BytesRead(answers))
            && (r.GotData? ==> Decode(d.recvBuffer).None? && d.recvQueue == Inbox(d).0)
            && (r.RecvRaised? ==> d.core.open)
  {
    hide Decode;
    RecvAppends(c, answers);
    var (c1, r) := Recv(c, answers);
    var data := BytesRead(answers);
    DrainAppend(c.recvBuffer, data);
    var (fs, rest) := Drain(c.recvBuffer);
    assert c.recvQueue + (fs + Drain(rest + data).0) == c.recvQueue + fs + Drain(rest + data).0;
    assert Inbox(c1) == Extend(Inbox(c), data);
    if r.GotData? {
      DrainIsExhaustive(c1.recvBuffer);
      var left := Drain(c1.recvBuffer).1;
      assert Drain(left) == ([], left);
      var d := RecvFrames(c, answers).0;
      assert d.recvQueue + [] == d.recvQueue;
    }
  }

  function FeedAll(c: Conn, calls: seq<seq<RecvAnswer>>): Conn
    decreases |calls|
  {
    if calls == [] then c else FeedAll(RecvFrames(c, calls[0]).0, calls[1..])
  }

  function AllBytesRead(calls: seq<seq<RecvAnswer>>): seq<byte> {
    if calls == [] then [] else BytesRead(calls[0]) + AllBytesRead(calls[1..])
  }

  /** No call in the run sees the end of the stream. */
  predicate NoEof(c: Conn, calls: seq<seq<RecvAnswer>>)
    decreases |calls|
  {
    calls == [] || (!RecvFrames(c, calls[0]).1.Eof? && NoEof(RecvFrames(c, calls[0]).0, calls[1..]))
  }

  /** Chunk independence for every run of reads, including reads that block half way through. */
  lemma {:induction false} ReceiveIsChunkIndependent(c: Conn, calls: seq<seq<RecvAnswer>>)
    requires c.core.open && NoEof(c, calls)
    ensures Inbox(FeedAll(c, calls)) == Extend(Inbox(c), AllBytesRead(calls))
    decreases |calls|
  {
    hide Decode, RecvFrames;
    if calls == [] {
      DrainIsExhaustive(c.recvBuffer);
      var (fs, rest) := Drain(c.recvBuffer);
      assert rest + [] == rest && c.recvQueue + fs + [] == c.recvQueue + fs;
      assert Drain(rest) == ([], rest);
    } else {
      var (d, r) := RecvFrames(c, calls[0]);
      RecvFramesExtends(c, calls[0]);
      RecvFramesStaysOpen(c, calls[0]);
      ReceiveIsChunkIndependent(d, calls[1..]);
      ExtendTwice(Inbox(c), BytesRead(calls[0]), AllBytesRead(calls[1..]));
    }
  }

  lemma RecvFramesStaysOpen(c: Conn, answers: seq<RecvAnswer>)
    requires c.core.open
    ensures RecvFrames(c, answers).1.Eof? || RecvFrames(c, answers).0.core.open
  {
    hide Drain;
    RecvAppends(c, answers);
  }

  function OneRead(data: seq<byte>): seq<RecvAnswer> {
    [Received(data, false)]
  }

  /** Two ways of cutting the same bytes into non-empty reads leave the same frames queued, in the
      same order, and the same residue. */
  lemma {:induction false} CutsAgree(c: Conn, cutA: seq<seq<byte>>, cutB: seq<seq<byte>>)
    requires c.core.open && cutA != [] && cutB != []
    requires (forall d <- cutA :: d != []) && (forall d <- cutB :: d != [])
    requires Concat(cutA) == Concat(cutB)
    ensures FeedAll(c, Reads(cutA)) == FeedAll(c, Reads(cutB))
  {
    hide Decode;
    FeedReads(c, cutA);
    FeedReads(c, cutB);
  }

  function Reads(cut: seq<seq<byte>>): seq<seq<RecvAnswer>> {
    seq(|cut|, i requires 0 <= i < |cut| => OneRead(cut[i]))
  }

  lemma {:induction false} FeedReads(c: Conn, cut: seq<seq<byte>>)
    requires c.core.open && cut != [] && (forall d <- cut :: d != [])
    ensures var (fs, rest) := Drain(c.recvBuffer + Concat(cut));
            FeedAll(c, Reads(cut)) == c.(recvBuffer := rest, recvQueue := c.recvQueue + fs)
    decreases |cut|
  {
    hide Decode, Drain;
    var data := cut[0];
    assert data in cut;
    var (f1, r1) := Drain(c.recvBuffer + data);
    var c1 := c.(recvBuffer := r1, recvQueue := c.recvQueue + f1);
    assert Recv(c, OneRead(data)) == (c.(recvBuffer := c.recvBuffer + data), GotData);
    assert RecvFrames(c, OneRead(data)) == (c1, GotData);
    assert Reads(cut)[1..] == Reads(cut[1..]);
    assert FeedAll(c, Reads(cut)) == FeedAll(c1, Reads(cut[1..]));
    var tail := Concat(cut[1..]);
    assert c.recvBuffer + Concat(cut) == c.recvBuffer + data + tail;
    DrainAppend(c.recvBuffer + data, tail);
    if |cut| == 1 {
      assert tail == [] && c.recvBuffer + Concat(cut) == c.recvBuffer + data;
      assert FeedAll(c1, Reads(cut[1..])) == c1;
    } else {
      assert forall d <- cut[1..] :: d in cut;
      FeedReads(c1, cut[1..]);
      var f2 := Drain(r1 + tail).0;
      assert c.recvQueue + f1 + f2 == c.recvQueue + (f1 + f2);
    }
  }
}
