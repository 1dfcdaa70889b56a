/** doRepeater: the relay loop over its two buffers. */
module RelayLoop {
  import opened Bytes
  import opened Relay

  /** Moves count bytes from index n to the front, as a move that allows overlap does. */
  method MoveToFront(buf: array<byte>, n: nat, count: nat)
    requires n + count <= buf.Length
    modifies buf
    ensures buf[..count] == old(buf[n..n + count])
    ensures buf[count..] == old(buf[count..])
  {
    for i := 0 to count
      invariant buf[..i] == old(buf[n..n + i])
      invariant buf[i..] == old(buf[i..])
    {
      ghost var before := buf[..];
      assert buf[i..][n] == buf[n + i];
      buf[i] := buf[n + i];
      assert buf[i + 1..] == before[i..][1..];
      assert old(buf[n..n + i + 1]) == old(buf[n..n + i]) + [old(buf[n + i])];
    }
  }

  /** recv() into the free end of a buffer; more bytes than fit stay with the network. */
  method ReceiveInto(buf: array<byte>, len: nat, bytes: seq<byte>) returns (newLen: nat)
    requires len <= buf.Length == BUF_SIZE
    modifies buf
    ensures newLen <= BUF_SIZE
    ensures buf[..newLen] == old(buf[..len]) + Arriving(bytes, BUF_SIZE - len)
  {
    var got := Arriving(bytes, BUF_SIZE - len);
    for i := 0 to |got|
      invariant buf[..len + i] == old(buf[..len]) + got[..i]
    {
      buf[len + i] := got[i];
      assert got[..i + 1] == got[..i] + [got[i]];
      assert buf[..len + i + 1] == buf[..len + i] + [got[i]];
    }
    newLen := len + |got|;
    assert got[..|got|] == got;
  }

  class Child {
    const viewerBuf: array<byte>
    const serverBuf: array<byte>
    var viewerBufLen: nat
    var serverBufLen: nat
    ghost var fromViewer: seq<byte>
    ghost var fromServer: seq<byte>
    ghost var toServer: seq<byte>
    ghost var toViewer: seq<byte>

    ghost predicate Valid()
      reads this
    {
      && viewerBuf != serverBuf
      && viewerBuf.Length == serverBuf.Length == BUF_SIZE
      && viewerBufLen <= BUF_SIZE && serverBufLen <= BUF_SIZE
    }

    ghost function Value(): (s: State)
      requires Valid()
      reads this, viewerBuf, serverBuf
      ensures Fits(s)
    {
      State(Side(fromViewer, toServer, viewerBuf[..viewerBufLen]), Side(fromServer, toViewer, serverBuf[..serverBufLen]))
    }

    constructor ()
      ensures Valid() && Value() == START && fresh(viewerBuf) && fresh(serverBuf)
    {
      viewerBuf := new byte[BUF_SIZE](i => 0);
      serverBuf := new byte[BUF_SIZE](i => 0);
      viewerBufLen, serverBufLen := 0, 0;
      fromViewer, fromServer, toServer, toViewer := [], [], [], [];
    }

    method FlushToServer(send: Send)
      requires Valid()
      modifies this`viewerBufLen, this`toServer, viewerBuf
      ensures Valid() && var s := old(Value());
              Value() == s.(up := SendUp(s.up, Count(send, s.up.held)))
    {
      ghost var s := Value();
      if 0 < viewerBufLen && send.Took? {
        var len := if send.count <= viewerBufLen then send.count else viewerBufLen;
        if 0 < len {
          ghost var held := viewerBuf[..viewerBufLen];
          toServer := toServer + held[..len];
          viewerBufLen := viewerBufLen - len;
          assert viewerBuf[len..len + viewerBufLen] == held[len..];
          if 0 < viewerBufLen {
            MoveToFront(viewerBuf, len, viewerBufLen);
          }
        }
      }
      assert s.up.held[0..] == s.up.held && s.up.held[..0] == [];
      assert s.up.sent + [] == s.up.sent;
    }

    method FlushToViewer(send: Send)
      requires Valid()
      modifies this`serverBufLen, this`toViewer, serverBuf
      ensures Valid() && var s := old(Value());
              Value() == s.(down := SendDown(s.down, Count(send, s.down.held)))
    {
      ghost var s := Value();
      if 0 < serverBufLen && send.Took? {
        var len := if send.count <= serverBufLen then send.count else serverBufLen;
        ghost var held := serverBuf[..serverBufLen];
        toViewer := toViewer + held[..len];
        serverBufLen := serverBufLen - len;
        assert serverBuf[len..len + serverBufLen] == held[len..];
        assert serverBuf[..serverBufLen] == held[..serverBufLen];
        if len < serverBufLen {
          MoveToFront(serverBuf, len, serverBufLen);
        }
      } else {
        assert Kept(s.down.held, 0) == s.down.held;
      }
      assert s.down.sent + [] == s.down.sent;
    }

    /** recv into the free part of the buffer. */
    method TakeFromServer(bytes: seq<byte>)
      requires Valid()
      modifies this`serverBufLen, this`fromServer, serverBuf
      ensures Valid() && Value() == old(Value()).(down := Receive(old(Value()).down, bytes))
    {
      fromServer := fromServer + Arriving(bytes, BUF_SIZE - serverBufLen);
      serverBufLen := ReceiveInto(serverBuf, serverBufLen, bytes);
    }

    method TakeFromViewer(bytes: seq<byte>)
      requires Valid()
      modifies this`viewerBufLen, this`fromViewer, viewerBuf
      ensures Valid() && Value() == old(Value()).(up := Receive(old(Value()).up, bytes))
    {
      fromViewer := fromViewer + Arriving(bytes, BUF_SIZE - viewerBufLen);
      viewerBufLen := ReceiveInto(viewerBuf, viewerBufLen, bytes);
    }

    /** One turn of the loop; a code other than 0 is returned to the parent. */
    method Turn(t: Turn) returns (code: nat)
      requires Valid()
      modifies this, viewerBuf, serverBuf
      ensures Valid()
      ensures code == ReadCode(t, old(Value()))
      ensures Value() == if code == 0 then Pass(t, old(Value())) else ReadServerIfViewerEnds(t, old(Value()), code)
    {
      hide Receive, SendUp, SendDown, Count;
      ghost var s := Value();
      if t.SelectFails? {
        return 1;
      }
      if t.server && serverBufLen < BUF_SIZE {
        match t.fromServer
        case Closed => return 2;
        case Failed => return 5;
        case Reset =>
        case Data(bytes) =>
          if bytes == [] {
            return 2;
          }
          TakeFromServer(bytes);
      }
      FullTakesNothing(t, s);
      assert Value() == ReadServer(t, s);
      if t.viewer && viewerBufLen < BUF_SIZE {
        match t.fromViewer
        case Closed => return 3;
        case Reset => return 4;
        case Failed => return 4;
        case Data(bytes) =>
          if bytes == [] {
            return 3;
          }
          TakeFromViewer(bytes);
      }
      assert Value() == ReadViewer(t, ReadServer(t, s));
      FlushToServer(t.toServer);
      FlushToViewer(t.toViewer);
      code := 0;
    }

    method DoRepeater(turns: seq<Turn>) returns (code: nat)
      requires Valid()
      modifies this, viewerBuf, serverBuf
      ensures Valid() && Run(code, Value()) == Go(old(Value()), turns)
    {
      code := 0;
      var i := 0;
      while i < |turns|
        invariant 0 <= i <= |turns|
        invariant Valid() && code == 0
        invariant Go(Value(), turns[i..]) == Go(old(Value()), turns)
      {
        assert turns[i..][0] == turns[i] && turns[i..][1..] == turns[i + 1..];
        code := Turn(turns[i]);
        if code != 0 {
          return;
        }
        i := i + 1;
      }
    }
  }

  /** A full buffer takes nothing, a finished peer gives nothing. */
  lemma FullTakesNothing(t: Turn, s: State)
    requires Fits(s)
    ensures t.Ready? && t.server && t.fromServer.Data? && |s.down.held| == BUF_SIZE ==> ReadServer(t, s) == s
    ensures var a := ReadServer(t, s);
            t.Ready? && t.viewer && t.fromViewer.Data? && |a.up.held| == BUF_SIZE ==> ReadViewer(t, a) == a
  {
  }
}
