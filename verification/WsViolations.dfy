/** What an endpoint answers to each frame: which frames break the protocol, the close frame each violation
    is answered with, and that no other frame draws one. */
module WsViolations {
  import opened Bytes
  import opened Wrappers
  import opened HybiCodec
  import opened WsConnection
  import opened WsReassembly
  import opened WsClosing

  // ----- the rules -----

  /** Sections 5.1 and 5.4 of RFC 6455, and the message types the viewer leaves out. */
  predicate Violates(partialMsg: seq<byte>, f: Frame) {
    || !f.masked
    || (f.opcode == 0 && partialMsg == [])
    || f.opcode == 1
    || (f.opcode == 2 && partialMsg != [])
    || ((f.opcode == 9 || f.opcode == 10) && !f.fin)
    || 3 <= f.opcode <= 7 || f.opcode >= 11
  }

  /** The status code of the answer as the two bytes sent, 1002 or 1003, and its reason. */
  function Answer(f: Frame): (seq<byte>, string) {
    if !f.masked then ([0x03, 0xEA], "Procotol error: Frame not masked")
    else if f.opcode == 0 then ([0x03, 0xEA], "Procotol error: Unexpected continuation frame")
    else if f.opcode == 1 then ([0x03, 0xEB], "Unsupported: Text frames are not supported")
    else if f.opcode == 2 then ([0x03, 0xEA], "Procotol error: Unexpected new frame")
    else if f.opcode == 9 then ([0x03, 0xEB], "Unsupported: Fragmented ping")
    else if f.opcode == 10 then ([0x03, 0xEB], "Unsupported: Fragmented pong")
    else ([0x03, 0xEB], "Unsupported: Unknown opcode 0x0" + [Digit(f.opcode % 16)])
  }

  function Digit(n: nat): char
    requires n < 16
  {
    if n < 10 then '0' + n as char else 'a' + (n - 10) as char
  }

  /** A close payload that spells out a code and a reason, seven bits a character. */
  predicate Says(p: seq<byte>, code: seq<byte>, reason: string) {
    && |p| == |code| + |reason| && p[..|code|] == code
    && forall i :: 0 <= i < |reason| ==> p[|code| + i] == reason[i] as int % 128
  }

  /** One frame was queued, and nothing else changed in the history. */
  predicate OneQueued(before: seq<Queued>, after: seq<Queued>, opcode: nat) {
    |after| == |before| + 1 && after[..|before|] == before && after[|before|].opcode == opcode
  }

  predicate CloseQueued(before: seq<Queued>, after: seq<Queued>) {
    before <= after && exists q <- after[|before|..] :: q.opcode == 8
  }

  // ----- violations -----

  lemma {:induction false} CodeBytes()
    ensures ToBigEndian(1002, 2) == [0x03, 0xEA] && ToBigEndian(1003, 2) == [0x03, 0xEB]
  {
    assert ToBigEndian(3, 1) == ToBigEndian(0, 0) + [3];
    assert ToBigEndian(1002, 2) == ToBigEndian(3, 1) + [0xEA] && ToBigEndian(1003, 2) == ToBigEndian(3, 1) + [0xEB];
  }

  lemma {:induction false} PayloadSays(code: nat, reason: string)
    requires code < 0x1_0000 && |reason| < 100
    ensures |Ascii(reason)| + 2 < Pow2(64)
    ensures Says(ClosePayload(Some(code), Some(Ascii(reason))), ToBigEndian(code, 2), reason)
  {
    ShortFits(Ascii(reason));
  }

  lemma {:induction false} FailQueues(c: Core, code: nat, reason: string)
    requires Healthy(c) && !c.sentClose && code < 0x1_0000 && |reason| < 100
    ensures var (d, r) := Fail(c, code, reason);
            && r == Continue && d.sentClose && d.closeCode == Some(1000) && d.partialMsg == c.partialMsg
            && OneQueued(c.log, d.log, 8) && Says(d.log[|c.log|].payload, ToBigEndian(code, 2), reason)
  {
    PayloadSays(code, reason);
    hide SendFrame, ClosePayload, Says, Ascii;
    ShortFits(Ascii(reason));
    var p := ClosePayload(Some(code), Some(Ascii(reason)));
    var c1 := c.(closeCode := Some(1000)).(sentClose := true);
    SendingSucceeds(c1, CLOSE, p);
    SendKeepsCode(c1, p);
    assert (c.log + [Queued(CLOSE, p)])[..|c.log|] == c.log;
  }

  lemma {:induction false} SendKeepsCode(c: Core, p: Payload)
    ensures SendFrame(c, CLOSE, p).0.closeCode == c.closeCode
  {
    hide Encode;
  }

  lemma {:induction false} AnswersAreShort(f: Frame)
    ensures |Answer(f).1| < 100
  {
  }

  function CodeOfAnswer(f: Frame): nat {
    if Answer(f).0 == [0x03, 0xEA] then 1002 else 1003
  }

  lemma {:induction false} ViolationFails(c: Core, f: Frame, validUtf8: seq<byte> -> bool)
    requires Violates(c.partialMsg, f)
    ensures |Answer(f).1| < 100 && StepFrame(c, f, validUtf8) == Fail(c, CodeOfAnswer(f), Answer(f).1)
  {
    AnswersAreShort(f);
    hide Fail;
  }

  /** Every violation is answered with one close frame that names it. */
  lemma {:induction false} ViolationAnswered(c: Core, f: Frame, validUtf8: seq<byte> -> bool)
    requires Healthy(c) && !c.sentClose && Violates(c.partialMsg, f)
    ensures var (d, r) := StepFrame(c, f, validUtf8);
            && r == Continue && d.sentClose && d.closeCode == Some(1000) && d.partialMsg == c.partialMsg
            && OneQueued(c.log, d.log, 8) && Says(d.log[|c.log|].payload, Answer(f).0, Answer(f).1)
  {
    CodeBytes();
    assert ToBigEndian(CodeOfAnswer(f), 2) == Answer(f).0;
    ViolationFails(c, f, validUtf8);
    hide StepFrame, Fail, Says, Answer;
    FailQueues(c, CodeOfAnswer(f), Answer(f).1);
  }

  // ----- close frames -----

  /** The code a close frame carries, or 1005 for none. */
  function CarriedCode(payload: seq<byte>): nat {
    if |payload| >= 2 then payload[0] as nat * 256 + payload[1] as nat else 1005
  }

  lemma {:induction false} CodeCarried(payload: Payload)
    requires |payload| >= 2
    ensures CodeOf(payload) == Some(CarriedCode(payload))
  {
    var two := payload[..2];
    assert two[..1] == [payload[0]] && [payload[0]][..0] == [];
    assert BigEndian(two) == BigEndian(two[..1]) * 256 + two[1];
    assert BigEndian([payload[0]]) == BigEndian([]) * 256 + payload[0];
  }

  /** A shutdown queues its one close frame, whether or not the socket then goes. */
  lemma {:induction false} ShutdownQueues(c: Core, code: Option<int>, reason: Option<Reason>)
    requires Healthy(c.(receivedClose := false)) && c.receivedClose && !c.sentClose && CodeFits(code)
    ensures var d := Shutdown(c, code, reason).0;
            d.closeCode == c.closeCode && d.log == c.log + [Queued(8, ClosePayload(code, reason))]
  {
    hide Encode, ClosePayload;
    EncodeIsNonEmpty(CLOSE, ClosePayload(code, reason));
  }

  /** A close frame is repeated to the peer if it is whole and its reason is UTF-8, and refused by name if not. */
  lemma {:induction false} CloseAnswered(c: Core, f: Frame, validUtf8: seq<byte> -> bool)
    requires Healthy(c) && !c.sentClose && f.masked && f.opcode == 8
    ensures var (d, r) := StepFrame(c, f, validUtf8);
            && OneQueued(c.log, d.log, 8)
            && var p := d.log[|c.log|].payload;
               if !f.fin then
                 Says(p, [0x03, 0xEB], "Unsupported: Fragmented close") && d.closeCode == c.closeCode
               else if |f.payload| > 2 && !validUtf8(f.payload[2..]) then
                 Says(p, [0x03, 0xEA], "Procotol error: Invalid UTF-8 in close") && d.closeCode == c.closeCode
               else p == (if |f.payload| == 1 then [] else f.payload) && d.closeCode == Some(CarriedCode(f.payload))
  {
    CodeBytes();
    hide Shutdown, Says, Ascii, ClosePayload, CodeOf, ReasonOf;
    var c1 := c.(receivedClose := true);
    assert forall q: Queued :: (c.log + [q])[..|c.log|] == c.log;
    if !f.fin {
      RefusalQueues(c1, 1003, "Unsupported: Fragmented close");
    } else if |f.payload| > 2 && !validUtf8(f.payload[2..]) {
      RefusalQueues(c1, 1002, "Procotol error: Invalid UTF-8 in close");
    } else {
      var c2 := c1.(closeCode := if |f.payload| >= 2 then CodeOf(f.payload) else Some(1005));
      ReplyRepeats(f.payload);
      if |f.payload| >= 2 {
        CodeCarried(f.payload);
      }
      ShutdownQueues(c2, CodeOf(f.payload), ReasonOf(f.payload));
    }
  }

  lemma {:induction false} RefusalQueues(c: Core, code: nat, reason: string)
    requires Healthy(c.(receivedClose := false)) && c.receivedClose && !c.sentClose && code < 0x1_0000 && |reason| < 100
    ensures var d := Fail(c, code, reason).0;
            && d.closeCode == c.closeCode && OneQueued(c.log, d.log, 8)
            && Says(d.log[|c.log|].payload, ToBigEndian(code, 2), reason)
  {
    PayloadSays(code, reason);
    hide Shutdown, ClosePayload, Says, Ascii;
    ShutdownQueues(c, Some(code), Some(Ascii(reason)));
    assert (c.log + [Queued(8, ClosePayload(Some(code), Some(Ascii(reason))))])[..|c.log|] == c.log;
  }

  // ----- all frames -----

  /** A frame that breaks no rule and is no close draws no close frame; a whole ping draws its pong. */
  lemma {:induction false} OthersAnswered(c: Core, f: Frame, validUtf8: seq<byte> -> bool)
    requires Healthy(c) && !Violates(c.partialMsg, f) && f.opcode != 8
    ensures var d := StepFrame(c, f, validUtf8).0;
            && d.sentClose == c.sentClose && d.closeCode == c.closeCode
            && d.log == c.log + if f.opcode == 9 then [Queued(10, f.payload)] else []
  {
    hide Encode;
    SendingSucceeds(c, PONG, f.payload);
    assert c.log + [] == c.log;
  }

  /** A close frame is queued for a violation of the protocol and for a close of the peer, and for nothing else. */
  lemma {:induction false} CloseQueuedIff(c: Core, f: Frame, validUtf8: seq<byte> -> bool)
    requires Healthy(c) && !c.sentClose
    ensures var d := StepFrame(c, f, validUtf8).0;
            && (CloseQueued(c.log, d.log) <==> Violates(c.partialMsg, f) || (f.masked && f.opcode == 8))
            && (d.sentClose <==> CloseQueued(c.log, d.log))
  {
    hide StepFrame, Says, Answer;
    var d := StepFrame(c, f, validUtf8).0;
    if Violates(c.partialMsg, f) {
      ViolationAnswered(c, f, validUtf8);
      OneIsQueued(c.log, d.log);
    } else if f.opcode == 8 {
      CloseAnswered(c, f, validUtf8);
      OneIsQueued(c.log, d.log);
      CloseEnds(c, f, validUtf8);
    } else {
      OthersAnswered(c, f, validUtf8);
      assert d.log[|c.log|..] == if f.opcode == 9 then [Queued(10, f.payload)] else [];
    }
  }

  lemma {:induction false} OneIsQueued(before: seq<Queued>, after: seq<Queued>)
    requires OneQueued(before, after, 8)
    ensures CloseQueued(before, after)
  {
    assert after[|before|..][0] == after[|before|];
  }

  /** A second shutdown only flushes. */
  lemma {:induction false} FailAgain(c: Core, code: nat, reason: string)
    requires Healthy(c) && c.sentClose && |reason| < 100
    ensures Fail(c, code, reason) == (c, Continue)
  {
    ShortFits(Ascii(reason));
    hide Ascii;
  }

  lemma {:induction false} CloseMet(c: Core, f: Frame, validUtf8: seq<byte> -> bool)
    requires Healthy(c) && c.sentClose && f.masked && f.opcode == 8
    ensures StepFrame(c, f, validUtf8).0 == c.(receivedClose := true, open := false)
  {
  }

  /** Once our own close frame is queued, no frame whatever draws another. */
  lemma {:induction false} NoSecondClose(c: Core, f: Frame, validUtf8: seq<byte> -> bool)
    requires Healthy(c) && c.sentClose
    ensures var d := StepFrame(c, f, validUtf8).0;
            && d.sentClose && d.closeCode == c.closeCode
            && d.log == c.log + if f.masked && f.opcode == 9 && f.fin then [Queued(10, f.payload)] else []
  {
    hide Fail, StepFrame, Answer;
    assert c.log + [] == c.log;
    if Violates(c.partialMsg, f) {
      ViolationFails(c, f, validUtf8);
      FailAgain(c, CodeOfAnswer(f), Answer(f).1);
    } else if f.opcode == 8 {
      CloseMet(c, f, validUtf8);
    } else {
      OthersAnswered(c, f, validUtf8);
    }
  }
}
