/** The server-side WebSocket endpoint as a state machine on values: what each call does to the
    connection, given what the socket answers. The class WebSocket is proved against it. */
module WsConnection {
  import opened Bytes
  import opened Wrappers
  import opened HybiCodec

  /** The socket's answer to one send: it would block, it takes up to n bytes, or it fails. */
  datatype SendAnswer = SendWouldBlock | Accept(n: nat) | SendFailed

  /** The socket's answer to one recv. `more` says whether an SSL socket still holds decrypted data. */
  datatype RecvAnswer = RecvWouldBlock | RecvFailed | Received(data: seq<byte>, more: bool)

  /** How a call ends: it returns, or it raises WantRead, WantWrite, ValueError, an OSError, a
      struct.error for a close code of more than 16 bits, or trips over a socket that has been closed. */
  datatype Outcome = Done | WantRead | WantWrite | BadValue | SocketError | BadCode | NoSocket

  datatype Queued = Queued(opcode: nat, payload: Payload)

  /** All of the connection but the receive buffer and queue. `wire` and `log` are history: the bytes
      the socket has taken, and the frames queued so far. `plan` holds the socket's coming answers to
      send; an exhausted plan accepts everything. */
  datatype Core = Core(
    partialMsg: seq<byte>, sendBuffer: seq<byte>, previous: Option<Payload>,
    sentClose: bool, receivedClose: bool, closeCode: Option<nat>, open: bool,
    wire: seq<byte>, plan: seq<SendAnswer>, log: seq<Queued>)

  datatype Conn = Conn(recvBuffer: seq<byte>, recvQueue: seq<Frame>, core: Core)

  const CONTINUATION := 0
  const TEXT := 1
  const BINARY := 2
  const CLOSE := 8
  const PING := 9
  const PONG := 10

  // ----- sending -----

  function CloseSocket(c: Core): (Core, Outcome) {
    if c.open then (c.(open := false), Done) else (c, NoSocket)
  }

  function Flush(c: Core): (Core, Outcome) {
    if c.sendBuffer == [] then (c, Done)
    else if !c.open then (c, NoSocket)
    else
      var answer := if c.plan == [] then Accept(|c.sendBuffer|) else c.plan[0];
      var c1 := c.(plan := if c.plan == [] then [] else c.plan[1..]);
      match answer
      case SendWouldBlock => (c1, WantWrite)
      case SendFailed => (c1, SocketError)
      case Accept(n) =>
        var sent := if n <= |c.sendBuffer| then n else |c.sendBuffer|;
        var c2 := c1.(wire := c.wire + c.sendBuffer[..sent], sendBuffer := c.sendBuffer[sent..]);
        if c2.sendBuffer != [] then (c2, WantWrite)
        else if c2.receivedClose && c2.sentClose then CloseSocket(c2)
        else (c2, Done)
  }

  function SendFrame(c: Core, opcode: nat, msg: Payload): (Core, Outcome) {
    Flush(c.(sendBuffer := c.sendBuffer + Encode(opcode, msg, None, true), log := c.log + [Queued(opcode, msg)]))
  }

  /** The part sendmsg, ping and pong share: retry the previous message or queue a new one. */
  function QueueOrRetry(c: Core, opcode: nat, msg: Payload): (Core, Outcome) {
    match c.previous
    case Some(prev) =>
      if prev != msg then (c, BadValue)
      else
        var (c1, o) := Flush(c);
        (if o == Done then c1.(previous := None) else c1, o)
    case None =>
      var (c1, o) := SendFrame(c, opcode, msg);
      (if o == WantWrite then c1.(previous := Some(msg)) else c1, o)
  }

  function SendMsg(c: Core, msg: Payload): (Core, Outcome, nat) {
    if c.sentClose then (c, Done, 0)
    else
      var (c1, o) := QueueOrRetry(c, BINARY, msg);
      (c1, o, if o == Done then |msg| else 0)
  }

  function Ping(c: Core, data: Payload): (Core, Outcome) {
    QueueOrRetry(c, PING, data)
  }

  function Pong(c: Core, data: Payload): (Core, Outcome) {
    QueueOrRetry(c, PONG, data)
  }

  /** A reason for closing, already encoded as UTF-8, that fits a frame behind the two bytes of the code. */
  type Reason = r: seq<byte> | |r| + 2 < Pow2(64) witness (ShortFits([]); [])

  predicate CodeFits(code: Option<int>) {
    code.None? || 0 <= code.value < 0x1_0000
  }

  /** A close payload: the code, then the reason if there is a code. */
  function ClosePayload(code: Option<int>, reason: Option<Reason>): (p: Payload)
    requires CodeFits(code)
  {
    ShortFits([]);
    if code.None? then []
    else ToBigEndian(code.value, 2) + (if reason.Some? then reason.value else [])
  }

  /** shutdown: it is marked as sent before the code is packed, so a code that does not fit loses the frame. */
  function Shutdown(c: Core, code: Option<int>, reason: Option<Reason>): (Core, Outcome) {
    if c.sentClose then Flush(c)
    else
      var c1 := (if c.receivedClose then c else c.(closeCode := Some(1000))).(sentClose := true);
      if CodeFits(code) then SendFrame(c1, CLOSE, ClosePayload(code, reason)) else (c1, BadCode)
  }

  /** close: a shutdown, and then the socket goes whatever the peer says. */
  function Close(c: Core, code: Option<int>, reason: Option<Reason>): (Core, Outcome) {
    var (d, o) := Shutdown(c, code, reason);
    if o == Done then CloseSocket(d) else (d, o)
  }

  // ----- receiving -----

  /** Every complete frame at the front of the buffer, and the bytes that remain. */
  function Drain(buf: seq<byte>): (seq<Frame>, seq<byte>)
    decreases |buf|
  {
    match Decode(buf)
    case None => ([], buf)
    case Some(f) =>
      FrameIsAtLeastTwoBytes(buf);
      var (fs, rest) := Drain(buf[f.length..]);
      ([f] + fs, rest)
  }

  datatype RecvResult = GotData | Eof | RecvRaised(o: Outcome)

  /** Reads until the socket holds no more decrypted data. */
  function Recv(c: Conn, answers: seq<RecvAnswer>): (Conn, RecvResult)
    decreases |answers|
  {
    if !c.core.open then (c, RecvRaised(NoSocket))
    else if answers == [] then (c, RecvRaised(WantRead))
    else match answers[0]
      case RecvWouldBlock => (c, RecvRaised(WantRead))
      case RecvFailed => (c, RecvRaised(SocketError))
      case Received(data, more) =>
        if data == [] then (c, Eof)
        else
          var c1 := c.(recvBuffer := c.recvBuffer + data);
          if more then Recv(c1, answers[1..]) else (c1, GotData)
  }

  function RecvFrames(c: Conn, answers: seq<RecvAnswer>): (Conn, RecvResult) {
    var (c1, r) := Recv(c, answers);
    match r
    case RecvRaised(o) => (c1, r)
    case Eof =>
      var k := if c1.core.closeCode.None?
               then c1.core.(closeCode := Some(1006), sentClose := true, receivedClose := true) else c1.core;
      var (k1, o) := CloseSocket(k);
      (c1.(core := k1), if o == Done then Eof else RecvRaised(o))
    case GotData =>
      var (fs, rest) := Drain(c1.recvBuffer);
      (c1.(recvBuffer := rest, recvQueue := c1.recvQueue + fs), GotData)
  }

  /** What one popped frame leads to: the loop goes on, recvmsg returns, or it raises. */
  datatype FrameResult = Continue | Message(data: seq<byte>) | Closed | Raise(o: Outcome)

  function AfterCall(r: (Core, Outcome)): (Core, FrameResult) {
    (r.0, if r.1 == Done then Continue else Raise(r.1))
  }

  function Ascii(s: string): (r: seq<byte>)
    ensures |r| == |s|
  {
    seq(|s|, i requires 0 <= i < |s| => s[i] as int % 128)
  }

  lemma {:induction false} ShortFits(p: seq<byte>)
    requires |p| < 128
    ensures |p| + 2 < Pow2(64) && |p| < Pow2(64)
  {
    LengthFits([]);
    Pow2Add(7, 57);
    assert Pow2(7) == 128 && Pow2(57) == 2 * Pow2(56);
  }

  function Fail(c: Core, code: nat, reason: string): (Core, FrameResult)
    requires |reason| < 100
  {
    ShortFits(Ascii(reason));
    AfterCall(Shutdown(c, Some(code), Some(Ascii(reason))))
  }

  function HexDigit(n: nat): char
    requires n < 16
  {
    "0123456789abcdef"[n]
  }

  /** The code in the peer's close frame, if it holds one, and the reason behind it. */
  function CodeOf(payload: Payload): (code: Option<nat>) {
    if |payload| >= 2 then Some(BigEndian(payload[..2])) else None
  }

  function ReasonOf(payload: Payload): Option<Reason> {
    if |payload| > 2 then Some(payload[2..]) else None
  }

  /** The reply to a close frame repeats the peer's payload byte for byte, unless that is a single
      byte, which holds no code. */
  lemma {:induction false} ReplyRepeats(payload: Payload)
    ensures CodeFits(CodeOf(payload))
    ensures ClosePayload(CodeOf(payload), ReasonOf(payload)) == if |payload| == 1 then [] else payload
  {
    if |payload| >= 2 {
      BigEndianBound(payload[..2]);
      Pow2Add(8, 8);
      assert Pow2(8) == 256;
      ToBigEndianRoundTrip(payload[..2]);
      assert payload[..2] + payload[2..] == payload;
      assert payload[..2] + [] == payload[..2];
    }
  }

  /** `validUtf8` stands for the codec's check of a close reason. */
  function StepClose(c: Core, f: Frame, validUtf8: seq<byte> -> bool): (Core, FrameResult) {
    if c.receivedClose then (c, Continue)
    else
      var c1 := c.(receivedClose := true);
      if c1.sentClose then
        var (c2, o) := CloseSocket(c1);
        (c2, if o == Done then Closed else Raise(o))
      else if !f.fin then Fail(c1, 1003, "Unsupported: Fragmented close")
      else if |f.payload| > 2 && !validUtf8(f.payload[2..]) then
        Fail(c1, 1002, "Procotol error: Invalid UTF-8 in close")
      else
        var c2 := c1.(closeCode := if |f.payload| >= 2 then CodeOf(f.payload) else Some(1005));
        var (c3, o) := Shutdown(c2, CodeOf(f.payload), ReasonOf(f.payload));
        (c3, if o == Done then Closed else Raise(o))
  }

  function StepFrame(c: Core, f: Frame, validUtf8: seq<byte> -> bool): (Core, FrameResult) {
    if !f.masked then Fail(c, 1002, "Procotol error: Frame not masked")
    else if f.opcode == CONTINUATION then
      if c.partialMsg == [] then Fail(c, 1002, "Procotol error: Unexpected continuation frame")
      else if f.fin then (c.(partialMsg := []), Message(c.partialMsg + f.payload))
      else (c.(partialMsg := c.partialMsg + f.payload), Continue)
    else if f.opcode == TEXT then Fail(c, 1003, "Unsupported: Text frames are not supported")
    else if f.opcode == BINARY then
      if c.partialMsg != [] then Fail(c, 1002, "Procotol error: Unexpected new frame")
      else if f.fin then (c, Message(f.payload))
      else (c.(partialMsg := f.payload), Continue)
    else if f.opcode == CLOSE then StepClose(c, f, validUtf8)
    else if f.opcode == PING then
      if !f.fin then Fail(c, 1003, "Unsupported: Fragmented ping") else AfterCall(Pong(c, f.payload))
    else if f.opcode == PONG then
      if !f.fin then Fail(c, 1003, "Unsupported: Fragmented pong") else (c, Continue)
    else Fail(c, 1003, "Unsupported: Unknown opcode 0x0" + [HexDigit(f.opcode % 16)])
  }

  /** The loop over queued frames; it raises WantRead when the queue runs dry. */
  function ProcessQueue(c: Conn, validUtf8: seq<byte> -> bool): (r: (Conn, FrameResult))
    ensures !r.1.Continue?
    decreases |c.recvQueue|
  {
    if c.recvQueue == [] then (c, Raise(WantRead))
    else
      var (k, r) := StepFrame(c.core, c.recvQueue[0], validUtf8);
      var c1 := c.(recvQueue := c.recvQueue[1..], core := k);
      if r == Continue then ProcessQueue(c1, validUtf8) else (c1, r)
  }

  function RecvMsg(c: Conn, answers: seq<RecvAnswer>, validUtf8: seq<byte> -> bool): (Conn, FrameResult) {
    if c.core.receivedClose then
      var (k, o) := Flush(c.core);
      (c.(core := k), if o == Done then Closed else Raise(o))
    else if c.recvQueue != [] then ProcessQueue(c, validUtf8)
    else
      var (c1, r) := RecvFrames(c, answers);
      match r
      case Eof => (c1, Closed)
      case RecvRaised(o) => (c1, Raise(o))
      case GotData => ProcessQueue(c1, validUtf8)
  }
}
