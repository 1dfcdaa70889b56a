/** The relay child: two buffers of 1024 bytes between a server and a viewer. */
module Relay {
  import opened Bytes

  const BUF_SIZE := 1024

  /** What recv() does: ends, is reset, fails, or hands over as many of the arriving bytes as fit. */
  datatype Recv = Closed | Reset | Failed | Data(bytes: seq<byte>)

  /** What send() does: fails, or takes the first count bytes, at most all of them. */
  datatype Send = Refused | Took(count: nat)

  /** recv() returning no byte means that the peer has closed. */
  predicate Ends(r: Recv) {
    r.Closed? || (r.Data? && r.bytes == [])
  }

  /** One turn of the loop as the network decides it. */
  datatype Turn = SelectFails | Ready(server: bool, viewer: bool, fromServer: Recv, fromViewer: Recv, toServer: Send, toViewer: Send)

  /** One direction: all bytes received, all bytes sent on, and the filled part of the buffer. */
  datatype Side = Side(received: seq<byte>, sent: seq<byte>, held: seq<byte>)

  datatype State = State(up: Side, down: Side)

  const START := State(Side([], [], []), Side([], [], []))

  function Arriving(bytes: seq<byte>, room: nat): (b: seq<byte>)
    ensures |b| <= room && b <= bytes
  {
    if |bytes| <= room then bytes else bytes[..room]
  }

  function Receive(s: Side, bytes: seq<byte>): Side
    requires |s.held| <= BUF_SIZE
  {
    var got := Arriving(bytes, BUF_SIZE - |s.held|);
    s.(received := s.received + got, held := s.held + got)
  }

  function Count(s: Send, held: seq<byte>): (n: nat)
    ensures n <= |held|
  {
    match s
    case Refused => 0
    case Took(count) => if count <= |held| then count else |held|
  }

  function SendUp(s: Side, n: nat): Side
    requires n <= |s.held|
  {
    s.(sent := s.sent + s.held[..n], held := s.held[n..])
  }

  /** What the buffer holds after n bytes went to the viewer: it is moved only when n is less than what remains. */
  function Kept(held: seq<byte>, n: nat): (k: seq<byte>)
    requires n <= |held|
    ensures |k| == |held| - n
  {
    if n < |held| - n then held[n..] else held[..|held| - n]
  }

  function SendDown(s: Side, n: nat): Side
    requires n <= |s.held|
  {
    s.(sent := s.sent + s.held[..n], held := Kept(s.held, n))
  }

  predicate Fits(s: State) {
    |s.up.held| <= BUF_SIZE && |s.down.held| <= BUF_SIZE
  }

  /** 0: nothing ended; otherwise the code the child returns. */
  function ReadCode(t: Turn, s: State): nat {
    if t.SelectFails? then 1
    else if t.server && |s.down.held| < BUF_SIZE && Ends(t.fromServer) then 2
    else if t.server && |s.down.held| < BUF_SIZE && t.fromServer.Failed? then 5
    else if t.viewer && |s.up.held| < BUF_SIZE && Ends(t.fromViewer) then 3
    else if t.viewer && |s.up.held| < BUF_SIZE && !t.fromViewer.Data? then 4
    else 0
  }

  function ReadServer(t: Turn, s: State): State
    requires Fits(s)
  {
    if t.Ready? && t.server && t.fromServer.Data? then s.(down := Receive(s.down, t.fromServer.bytes)) else s
  }

  function ReadViewer(t: Turn, s: State): State
    requires Fits(s)
  {
    if t.Ready? && t.viewer && t.fromViewer.Data? then s.(up := Receive(s.up, t.fromViewer.bytes)) else s
  }

  /** A whole turn that does not end the relay. */
  function Pass(t: Turn, s: State): (r: State)
    requires Fits(s) && t.Ready?
    ensures Fits(r)
  {
    var a := ReadViewer(t, ReadServer(t, s));
    State(SendUp(a.up, Count(t.toServer, a.up.held)), SendDown(a.down, Count(t.toViewer, a.down.held)))
  }

  datatype Run = Run(code: nat, state: State)

  /** The loop over the turns: code 0 when it is still running after all of them. */
  function Go(s: State, ts: seq<Turn>): (r: Run)
    requires Fits(s)
    ensures Fits(r.state)
    decreases |ts|
  {
    if ts == [] then Run(0, s) else
      var code := ReadCode(ts[0], s);
      if code != 0 then Run(code, ReadServerIfViewerEnds(ts[0], s, code)) else Go(Pass(ts[0], s), ts[1..])
  }

  /** The viewer is read after the server, so its end comes after the server's bytes are in. */
  function ReadServerIfViewerEnds(t: Turn, s: State, code: nat): (r: State)
    requires Fits(s)
    ensures Fits(r)
  {
    if code == 3 || code == 4 then ReadServer(t, s) else s
  }

  // Viewer to server

  ghost predicate UpKept(s: State) {
    s.up.sent + s.up.held == s.up.received
  }

  lemma PassKeepsUp(t: Turn, s: State)
    requires Fits(s) && t.Ready? && UpKept(s)
    ensures UpKept(Pass(t, s))
  {
    var a := ReadViewer(t, ReadServer(t, s));
    var n := Count(t.toServer, a.up.held);
    assert a.up.sent + a.up.held == a.up.received by {
      if t.viewer && t.fromViewer.Data? {
        var got := Arriving(t.fromViewer.bytes, BUF_SIZE - |s.up.held|);
        assert s.up.sent + (s.up.held + got) == (s.up.sent + s.up.held) + got;
      }
    }
    assert (a.up.sent + a.up.held[..n]) + a.up.held[n..] == a.up.sent + a.up.held;
  }

  /** Every byte from the viewer is sent to the server once and in order, or still held, whatever the network does. */
  lemma {:induction false} UpIsConserved(s: State, ts: seq<Turn>)
    requires Fits(s) && UpKept(s)
    ensures UpKept(Go(s, ts).state) && |Go(s, ts).state.up.held| <= BUF_SIZE
    decreases |ts|
  {
    if ts != [] && ReadCode(ts[0], s) == 0 {
      PassKeepsUp(ts[0], s);
      UpIsConserved(Pass(ts[0], s), ts[1..]);
    }
  }

  // Progress

  predicate Drains(t: Send) {
    t.Took? && t.count >= 1024
  }

  /** How many more bytes one read takes in: what arrives, as far as 1024 bytes have room for it. */
  function Taken(ready: bool, r: Recv, held: nat): nat {
    if !ready || !r.Data? || held >= 1024 then 0
    else if |r.bytes| < 1024 - held then |r.bytes| else 1024 - held
  }

  /** How many bytes one send passes on. */
  function Passed(s: Send, held: nat): nat {
    if s.Refused? then 0 else if s.count < held then s.count else held
  }

  /** One direction over one turn: the bytes that have room are taken in, front first, and as many are passed
      on as the other side takes. */
  ghost predicate Moves(before: Side, after: Side, ready: bool, from: Recv, to: Send) {
    var n := Taken(ready, from, |before.held|);
    && |after.received| == |before.received| + n && before.received <= after.received
    && (forall i :: 0 <= i < n ==> after.received[|before.received| + i] == from.bytes[i])
    && |after.sent| == |before.sent| + Passed(to, |before.held| + n)
    && |after.held| == |before.held| + n - Passed(to, |before.held| + n)
    && (Drains(to) ==> after.held == [])
  }

  lemma {:induction false} SideMoves(s: Side, ready: bool, from: Recv, to: Send)
    requires |s.held| <= BUF_SIZE
    ensures var a := if ready && from.Data? then Receive(s, from.bytes) else s;
            Moves(s, SendUp(a, Count(to, a.held)), ready, from, to) && Moves(s, SendDown(a, Count(to, a.held)), ready, from, to)
  {
    hide Kept;
  }

  /** No turn wastes what the network offers, in either direction. */
  lemma {:induction false} EveryTurnMoves(t: Turn, s: State)
    requires Fits(s) && t.Ready?
    ensures Moves(s.up, Pass(t, s).up, t.viewer, t.fromViewer, t.toServer)
    ensures Moves(s.down, Pass(t, s).down, t.server, t.fromServer, t.toViewer)
  {
    hide Moves, Receive, SendUp, SendDown, Count;
    SideMoves(s.up, t.viewer, t.fromViewer, t.toServer);
    SideMoves(s.down, t.server, t.fromServer, t.toViewer);
  }

  /** A turn that ends the relay, and with which code: an end of the server is seen before one of the viewer,
      and neither is seen while its buffer is full. A reset of the server is no end. */
  lemma {:induction false} EndsExactlyWhen(t: Turn, s: State)
    ensures ReadCode(t, s) == 1 <==> t.SelectFails?
    ensures t.Ready? ==>
      var serverEnds := t.server && |s.down.held| < 1024 && (Ends(t.fromServer) || t.fromServer.Failed?);
      var viewerEnds := t.viewer && |s.up.held| < 1024 && !(t.fromViewer.Data? && t.fromViewer.bytes != []);
      && (ReadCode(t, s) == 0 <==> !serverEnds && !viewerEnds)
      && (ReadCode(t, s) == 2 <==> serverEnds && !t.fromServer.Failed?)
      && (ReadCode(t, s) == 5 <==> serverEnds && t.fromServer.Failed?)
      && (ReadCode(t, s) == 3 <==> !serverEnds && viewerEnds && Ends(t.fromViewer))
      && (ReadCode(t, s) == 4 <==> !serverEnds && viewerEnds && !Ends(t.fromViewer))
  {
  }

  /** The turn that ends the relay sends nothing on. If it was the viewer that ended, the server had been read before,
      and what it sent is held for nobody. */
  lemma {:induction false} LastTurnSendsNothing(t: Turn, s: State)
    requires Fits(s) && ReadCode(t, s) != 0
    ensures var r := Go(s, [t]);
            && r.code == ReadCode(t, s) && r.state.up == s.up && r.state.down.sent == s.down.sent
            && |r.state.down.held| == |s.down.held| + (if 3 <= r.code <= 4 then Taken(t.server, t.fromServer, |s.down.held|) else 0)
            && (r.code != 3 && r.code != 4 ==> r.state == s)
  {
  }

  // Server to viewer

  /** The sends after which the buffer needs no move, or gets it. */
  predicate SafeCount(length: nat, n: nat) {
    n == length || 2 * n < length
  }

  /** The shift is right for all data of a length exactly when all is sent or less than half of it. */
  lemma ShiftIsRightExactly(length: nat, n: nat)
    requires n <= length
    ensures (forall held: seq<byte> :: |held| == length ==> Kept(held, n) == held[n..]) <==> SafeCount(length, n)
  {
    if SafeCount(length, n) {
      forall held: seq<byte> | |held| == length
        ensures Kept(held, n) == held[n..]
      {
        assert n == length ==> held[n..] == [] == held[..0];
      }
    } else {
      var held: seq<byte> := seq(length, i => if i < n then 0 else 1);
      assert Kept(held, n)[0] == 0 && held[n..][0] == 1;
    }
  }

  ghost predicate DownKept(s: State) {
    s.down.sent + s.down.held == s.down.received
  }

  predicate SafePass(t: Turn, s: State)
    requires Fits(s) && t.Ready?
  {
    var held := ReadServer(t, s).down.held;
    SafeCount(|held|, Count(t.toViewer, held))
  }

  predicate SafeRun(s: State, ts: seq<Turn>)
    requires Fits(s)
    decreases |ts|
  {
    ts == [] || ReadCode(ts[0], s) != 0 || (SafePass(ts[0], s) && SafeRun(Pass(ts[0], s), ts[1..]))
  }

  lemma ReadKeepsDown(t: Turn, s: State)
    requires Fits(s) && DownKept(s)
    ensures DownKept(ReadServer(t, s))
  {
    if t.Ready? && t.server && t.fromServer.Data? {
      var got := Arriving(t.fromServer.bytes, BUF_SIZE - |s.down.held|);
      assert s.down.sent + (s.down.held + got) == (s.down.sent + s.down.held) + got;
    }
  }

  /** With safe sends only, the server's bytes reach the viewer once and in order too. */
  lemma {:induction false} DownIsConservedWhenSafe(s: State, ts: seq<Turn>)
    requires Fits(s) && DownKept(s) && SafeRun(s, ts)
    ensures DownKept(Go(s, ts).state)
    decreases |ts|
  {
    if ts != [] {
      ReadKeepsDown(ts[0], s);
      if ReadCode(ts[0], s) == 0 {
        var held, sent := ReadServer(ts[0], s).down.held, s.down.sent;
        var n := Count(ts[0].toViewer, held);
        ShiftIsRightExactly(|held|, n);
        assert (sent + held[..n]) + held[n..] == sent + held;
        DownIsConservedWhenSafe(Pass(ts[0], s), ts[1..]);
      }
    }
  }

  // Exactly when the server's bytes arrive in order

  /** The same turn with other bytes from the server, as many as before. */
  predicate SameTurn(t: Turn, u: Turn) {
    t == u || (
      && t.Ready? && t.fromServer.Data? && u.Ready? && u.fromServer.Data?
      && u == t.(fromServer := u.fromServer) && |t.fromServer.bytes| == |u.fromServer.bytes|)
  }

  predicate SameShape(ts: seq<Turn>, us: seq<Turn>) {
    |ts| == |us| && forall i :: 0 <= i < |ts| ==> SameTurn(ts[i], us[i])
  }

  predicate SameSizes(s: State, r: State) {
    && |s.up.held| == |r.up.held| && |s.down.held| == |r.down.held|
    && |s.down.sent| == |r.down.sent| && |s.down.received| == |r.down.received|
  }

  lemma SameReads(t: Turn, u: Turn, s: State, r: State)
    requires Fits(s) && Fits(r) && SameSizes(s, r) && SameTurn(t, u)
    ensures ReadCode(t, s) == ReadCode(u, r)
    ensures SameSizes(ReadServer(t, s), ReadServer(u, r))
    ensures t.Ready? <==> u.Ready?
    ensures t.Ready? ==> t.toServer == u.toServer && t.toViewer == u.toViewer
  {
  }

  lemma SameViewerReads(t: Turn, u: Turn, s: State, r: State)
    requires Fits(s) && Fits(r) && SameSizes(s, r) && SameTurn(t, u)
    ensures SameSizes(ReadViewer(t, s), ReadViewer(u, r))
  {
  }

  lemma SameSends(s: State, r: State, up: Send, down: Send)
    requires SameSizes(s, r)
    ensures Count(up, s.up.held) == Count(up, r.up.held) && Count(down, s.down.held) == Count(down, r.down.held)
    ensures SameSizes(State(SendUp(s.up, Count(up, s.up.held)), SendDown(s.down, Count(down, s.down.held))),
                      State(SendUp(r.up, Count(up, r.up.held)), SendDown(r.down, Count(down, r.down.held))))
  {
  }

  /** What a turn does to the sizes does not depend on the bytes. */
  lemma SameTurnSameSizes(t: Turn, u: Turn, s: State, r: State)
    requires Fits(s) && Fits(r) && SameSizes(s, r) && SameTurn(t, u)
    ensures ReadCode(t, s) == ReadCode(u, r)
    ensures t.Ready? ==> u.Ready? && (SafePass(t, s) <==> SafePass(u, r)) && SameSizes(Pass(t, s), Pass(u, r))
    ensures SameSizes(ReadServer(t, s), ReadServer(u, r))
  {
    SameReads(t, u, s, r);
    var a, b := ReadServer(t, s), ReadServer(u, r);
    SameViewerReads(t, u, a, b);
    if t.Ready? {
      SameSends(a, b, t.toServer, t.toViewer);
      SameSends(ReadViewer(t, a), ReadViewer(u, b), t.toServer, t.toViewer);
    }
    hide ReadCode, ReadServer, ReadViewer, SendUp, SendDown, Count, SameSizes, SameTurn;
    if t.Ready? {
      SizesHeld(a, b);
    }
  }

  lemma SizesHeld(s: State, r: State)
    requires SameSizes(s, r)
    ensures |s.down.held| == |r.down.held|
  {
  }

  lemma {:induction false} SameShapeSameSafety(s: State, r: State, ts: seq<Turn>, us: seq<Turn>)
    requires Fits(s) && Fits(r) && SameSizes(s, r) && SameShape(ts, us)
    ensures SafeRun(s, ts) <==> SafeRun(r, us)
    decreases |ts|
  {
    if ts != [] {
      SameTurnSameSizes(ts[0], us[0], s, r);
      hide Pass, SameSizes, SafePass;
      if ReadCode(ts[0], s) == 0 {
        SameShapeSameSafety(Pass(ts[0], s), Pass(us[0], r), ts[1..], us[1..]);
      }
    }
  }

  /** The number of bytes sent when the first unsafe send is over. */
  function FirstUnsafe(s: State, ts: seq<Turn>): nat
    requires Fits(s)
    decreases |ts|
  {
    if ts == [] || ReadCode(ts[0], s) != 0 then 0
    else if SafePass(ts[0], s) then FirstUnsafe(Pass(ts[0], s), ts[1..])
    else |s.down.sent| + Count(ts[0].toViewer, ReadServer(ts[0], s).down.held)
  }

  /** A stream of zeros up to position p and ones from there on. */
  function Labels(from: nat, n: nat, p: nat): (b: seq<byte>)
    ensures |b| == n
  {
    seq(n, i requires 0 <= i < n => if from + i < p then 0 else 1)
  }

  function LabelledTurn(t: Turn, from: nat, p: nat): Turn {
    if t.Ready? && t.fromServer.Data? then t.(fromServer := Data(Labels(from, |t.fromServer.bytes|, p))) else t
  }

  /** The run with its server bytes labelled by their position in the stream. */
  function Labelled(r: State, ts: seq<Turn>, p: nat): (us: seq<Turn>)
    requires Fits(r)
    ensures SameShape(ts, us)
    decreases |ts|
  {
    if ts == [] then []
    else
      var u := LabelledTurn(ts[0], |r.down.received|, p);
      [u] + if ReadCode(u, r) == 0 then Labelled(Pass(u, r), ts[1..], p) else ts[1..]
  }

  ghost predicate IsLabelled(s: Side, p: nat) {
    s.received == Labels(0, |s.received|, p)
  }

  lemma LabelledRead(t: Turn, r: State, p: nat)
    requires Fits(r) && IsLabelled(r.down, p)
    ensures IsLabelled(ReadServer(LabelledTurn(t, |r.down.received|, p), r).down, p)
  {
  }

  /** The byte at the front of the buffer, or any already sent, stays what it is. */
  lemma {:induction false} FrontStays(s: State, ts: seq<Turn>, p: nat)
    requires Fits(s) && p <= |s.down.sent| && p < |s.down.sent| + |s.down.held| && p < |s.down.received|
    ensures var d, e := s.down, Go(s, ts).state.down;
            && p < |e.sent + e.held| && (e.sent + e.held)[p] == (d.sent + d.held)[p]
            && p < |e.received| && e.received[p] == d.received[p]
    decreases |ts|
  {
    if ts != [] && ReadCode(ts[0], s) == 0 {
      FrontStays(Pass(ts[0], s), ts[1..], p);
    }
  }

  lemma SafePassKeeps(t: Turn, s: State)
    requires Fits(s) && DownKept(s) && t.Ready? && SafePass(t, s)
    ensures DownKept(Pass(t, s))
  {
    ReadKeepsDown(t, s);
    var held, sent := ReadServer(t, s).down.held, s.down.sent;
    var n := Count(t.toViewer, held);
    ShiftIsRightExactly(|held|, n);
    assert (sent + held[..n]) + held[n..] == sent + held;
  }

  /** After the first unsafe send of a labelled run a zero stands where a one belongs, and stays there. */
  lemma {:induction false} UnsafePassBreaks(u: Turn, r: State, us: seq<Turn>, p: nat)
    requires Fits(r) && DownKept(r) && u.Ready? && !SafePass(u, r)
    requires p == |r.down.sent| + Count(u.toViewer, ReadServer(u, r).down.held) && IsLabelled(ReadServer(u, r).down, p)
    ensures !DownKept(Go(Pass(u, r), us).state)
  {
    ReadKeepsDown(u, r);
    var a, b := ReadServer(u, r).down, Pass(u, r).down;
    var n := Count(u.toViewer, a.held);
    assert a.sent + a.held == a.received;
    assert a.held[0] == a.received[|a.sent|] == 0;
    assert b.received == a.received && b.received[p] == 1;
    assert (b.sent + b.held)[p] == b.held[0] == 0;
    FrontStays(Pass(u, r), us, p);
  }

  lemma {:induction false} LabelsBreak(s: State, r: State, ts: seq<Turn>, p: nat)
    requires Fits(s) && Fits(r) && SameSizes(s, r) && !SafeRun(s, ts) && p == FirstUnsafe(s, ts)
    requires DownKept(r) && IsLabelled(r.down, p)
    ensures !DownKept(Go(r, Labelled(r, ts, p)).state)
    decreases |ts|
  {
    var t, u := ts[0], LabelledTurn(ts[0], |r.down.received|, p);
    SameTurnSameSizes(t, u, s, r);
    LabelledRead(t, r, p);
    var us := Labelled(Pass(u, r), ts[1..], p);
    assert Labelled(r, ts, p) == [u] + us && ([u] + us)[1..] == us;
    if SafePass(t, s) {
      SafePassKeeps(u, r);
      assert IsLabelled(Pass(u, r).down, p);
      LabelsBreak(Pass(t, s), Pass(u, r), ts[1..], p);
    } else {
      UnsafePassBreaks(u, r, us, p);
    }
  }

  /** The exact condition: the server's bytes reach the viewer once and in order, whatever they are, if and only
      if every send of the run takes all that is held or less than half of it. */
  lemma {:induction false} DownIsConservedIff(ts: seq<Turn>)
    ensures (forall us :: SameShape(ts, us) ==> DownKept(Go(START, us).state)) <==> SafeRun(START, ts)
  {
    assert DownKept(START);
    if SafeRun(START, ts) {
      forall us | SameShape(ts, us)
        ensures DownKept(Go(START, us).state)
      {
        SameShapeSameSafety(START, START, ts, us);
        DownIsConservedWhenSafe(START, us);
      }
    } else {
      var p := FirstUnsafe(START, ts);
      LabelsBreak(START, START, ts, p);
      assert SameShape(ts, Labelled(START, ts, p));
    }
  }

  /** The number of bytes is right even when their values are not. */
  lemma {:induction false} DownCountIsConserved(s: State, ts: seq<Turn>)
    requires Fits(s) && |s.down.sent| + |s.down.held| == |s.down.received|
    ensures var d := Go(s, ts).state.down; |d.sent| + |d.held| == |d.received|
    decreases |ts|
  {
    if ts != [] && ReadCode(ts[0], s) == 0 {
      DownCountIsConserved(Pass(ts[0], s), ts[1..]);
    }
  }

  /** Three bytes arrive and the viewer takes two: what stays is the first byte again, not the third. */
  lemma UnsafeSendCorrupts(x: byte, y: byte, z: byte)
    requires x != z
    ensures var t := Ready(true, false, Data([x, y, z]), Closed, Refused, Took(2));
            var s := Go(START, [t]).state;
            s.down.received == [x, y, z] && s.down.sent == [x, y] && s.down.held == [x] && !DownKept(s)
  {
    var t := Ready(true, false, Data([x, y, z]), Closed, Refused, Took(2));
    var a := ReadServer(t, START);
    assert a.down.held == [x, y, z];
    assert Kept([x, y, z], 2) == [x];
    assert [t][1..] == [];
    var s := Pass(t, START);
    assert (s.down.sent + s.down.held)[2] != s.down.received[2];
  }

  /** A child that ends returns 1 to 5, and says truly what ended it. */
  lemma {:induction false} CodesSayWhatEnded(s: State, ts: seq<Turn>)
    requires Fits(s)
    ensures var code := Go(s, ts).code;
            && code <= 5
            && (code == 0 ==> forall t <- ts :: t.Ready?)
            && (code == 1 ==> exists t <- ts :: t.SelectFails?)
            && (code == 2 ==> exists t <- ts :: t.Ready? && t.server && Ends(t.fromServer))
            && (code == 3 ==> exists t <- ts :: t.Ready? && t.viewer && Ends(t.fromViewer))
            && (code == 4 ==> exists t <- ts :: t.Ready? && t.viewer && (t.fromViewer.Failed? || t.fromViewer.Reset?))
            && (code == 5 ==> exists t <- ts :: t.Ready? && t.server && t.fromServer.Failed?)
    decreases |ts|
  {
    if ts != [] {
      var code := ReadCode(ts[0], s);
      assert ts[0] in ts;
      if code == 0 {
        CodesSayWhatEnded(Pass(ts[0], s), ts[1..]);
        assert forall t <- ts[1..] :: t in ts;
      }
    }
  }
}
