/** Retrying: what becomes of a message that has to be sent again while other calls come in between.
    sendmsg, ping and pong share one note of the send that is still pending, and so does the pong that
    answers a received ping; the theorems here say exactly when that note does its work. */
module WsRetry {
  import opened Bytes
  import opened Wrappers
  import opened HybiCodec
  import opened WsConnection
  import opened WsSend

  // ----- the tries of a run -----

  /** One try to send a frame under the rule that sendmsg, ping and pong share, and how it ended. */
  datatype Try = Try(frame: Queued, outcome: Outcome)

  /** A received ping is answered by a try to send a pong. */
  function FrameTries(c: Core, f: Frame): seq<Try> {
    if f.masked && f.opcode == PING && f.fin then [Try(Queued(PONG, f.payload), Pong(c, f.payload).1)] else []
  }

  function QueueTries(c: Conn, validUtf8: seq<byte> -> bool): seq<Try>
    decreases |c.recvQueue|
  {
    if c.recvQueue == [] then []
    else
      var (k, r) := StepFrame(c.core, c.recvQueue[0], validUtf8);
      var c1 := c.(recvQueue := c.recvQueue[1..], core := k);
      FrameTries(c.core, c.recvQueue[0]) + (if r == Continue then QueueTries(c1, validUtf8) else [])
  }

  function CallTries(c: Conn, call: Call, validUtf8: seq<byte> -> bool): seq<Try> {
    match call
    case CallSendMsg(msg) =>
      if c.core.sentClose then [] else [Try(Queued(BINARY, msg), SendMsg(c.core, msg).1)]
    case CallPing(data) => [Try(Queued(PING, data), Ping(c.core, data).1)]
    case CallPong(data) => [Try(Queued(PONG, data), Pong(c.core, data).1)]
    case CallShutdown(_, _) => []
    case CallClose(_, _) => []
    case CallRecvMsg(answers) =>
      if c.core.receivedClose then []
      else if c.recvQueue != [] then QueueTries(c, validUtf8)
      else
        var (c1, r) := RecvFrames(c, answers);
        if r.GotData? then QueueTries(c1, validUtf8) else []
  }

  /** Every try in a run of calls, in order. */
  function Tries(c: Conn, calls: seq<Call>, validUtf8: seq<byte> -> bool): seq<Try>
    decreases |calls|
  {
    if calls == [] then []
    else CallTries(c, calls[0], validUtf8) + Tries(Apply(c, calls[0], validUtf8), calls[1..], validUtf8)
  }

  // ----- what the tries mean -----

  function After(pending: Option<Payload>, t: Try): Option<Payload> {
    if t.outcome == WantWrite then Some(t.frame.payload)
    else if t.outcome == Done then None
    else pending
  }

  /** The payload that must be handed over again, judging by how the tries ended. */
  function Pending(pending: Option<Payload>, ts: seq<Try>): Option<Payload>
    decreases |ts|
  {
    if ts == [] then pending else Pending(After(pending, ts[0]), ts[1..])
  }

  /** The frames of the tries that are made with nothing pending. */
  function Fresh(pending: Option<Payload>, ts: seq<Try>): seq<Queued>
    decreases |ts|
  {
    if ts == [] then []
    else (if pending.None? then [ts[0].frame] else []) + Fresh(After(pending, ts[0]), ts[1..])
  }

  /** With something pending, only the same payload gets further than a ValueError. */
  predicate Lawful(pending: Option<Payload>, ts: seq<Try>)
    decreases |ts|
  {
    ts == [] || (
      && (pending.Some? && ts[0].frame.payload != pending.value ==> ts[0].outcome == BadValue)
      && Lawful(After(pending, ts[0]), ts[1..]))
  }

  /** Of the tries that completed or blocked, the last one completed. */
  predicate EndsCompleted(ts: seq<Try>) {
    ts != [] && (
      var t := ts[|ts| - 1];
      t.outcome == Done || (t.outcome != WantWrite && EndsCompleted(ts[..|ts| - 1])))
  }

  /** No message is tried at a moment when, of the tries that completed or blocked, the last completed. */
  ghost predicate MessagesWaitTheirTurn(ts: seq<Try>) {
    forall k :: 0 <= k < |ts| && ts[k].frame.opcode == BINARY ==> !EndsCompleted(ts[..k])
  }

  /** The queued frames other than close frames. */
  function Sent(log: seq<Queued>): seq<Queued> {
    if log == [] then []
    else Sent(log[..|log| - 1]) + (if log[|log| - 1].opcode == CLOSE then [] else [log[|log| - 1]])
  }

  /** The messages among frames. */
  function Messages(frames: seq<Queued>): seq<Payload> {
    if frames == [] then []
    else (if frames[0].opcode == BINARY then [frames[0].payload] else []) + Messages(frames[1..])
  }

  lemma {:induction false} MessagesAppend(a: seq<Queued>, b: seq<Queued>)
    ensures Messages(a + b) == Messages(a) + Messages(b)
  {
    if a == [] {
      assert a + b == b;
    } else {
      assert (a + b)[1..] == a[1..] + b;
      MessagesAppend(a[1..], b);
    }
  }

  lemma {:induction false} OneMessage(q: Queued)
    ensures Messages([q]) == (if q.opcode == BINARY then [q.payload] else []) && Messages([]) == []
  {
    assert [q][1..] == [];
  }

  lemma {:induction false} SentSnoc(log: seq<Queued>, q: Queued)
    ensures Sent(log + [q]) == Sent(log) + (if q.opcode == CLOSE then [] else [q])
  {
    assert (log + [q])[..|log|] == log;
  }

  /** The tries ts lead from c to d: the note of what is pending and the frames queued follow from
      how the tries ended, and from nothing else. */
  ghost predicate Leads(c: Core, d: Core, ts: seq<Try>) {
    && d.previous == Pending(c.previous, ts)
    && Sent(d.log) == Sent(c.log) + Fresh(c.previous, ts)
    && Lawful(c.previous, ts)
  }

  lemma {:induction false} TriesAppend(p: Option<Payload>, a: seq<Try>, b: seq<Try>)
    ensures Pending(p, a + b) == Pending(Pending(p, a), b)
    ensures Fresh(p, a + b) == Fresh(p, a) + Fresh(Pending(p, a), b)
    ensures Lawful(p, a) && Lawful(Pending(p, a), b) ==> Lawful(p, a + b)
    decreases |a|
  {
    if a == [] {
      assert a + b == b;
    } else {
      assert (a + b)[1..] == a[1..] + b;
      TriesAppend(After(p, a[0]), a[1..], b);
    }
  }

  lemma {:induction false} LeadsOn(c: Core, d: Core, e: Core, a: seq<Try>, b: seq<Try>)
    requires Leads(c, d, a) && Leads(d, e, b)
    ensures Leads(c, e, a + b)
  {
    TriesAppend(c.previous, a, b);
    assert Sent(c.log) + (Fresh(c.previous, a) + Fresh(d.previous, b)) == Sent(c.log) + Fresh(c.previous, a) + Fresh(d.previous, b);
  }

  lemma {:induction false} NothingTried(c: Core, d: Core)
    requires d.previous == c.previous && Sent(d.log) == Sent(c.log)
    ensures Leads(c, d, [])
  {
    assert Sent(c.log) + [] == Sent(c.log);
  }

  lemma {:induction false} FlushTries(c: Core)
    ensures var d := Flush(c).0; d.log == c.log && d.previous == c.previous && Leads(c, d, [])
  {
    NothingTried(c, Flush(c).0);
  }

  lemma {:induction false} OneTry(c: Core, d: Core, t: Try)
    requires d.previous == After(c.previous, t)
    requires Sent(d.log) == Sent(c.log) + if c.previous.None? then [t.frame] else []
    requires c.previous.Some? && t.frame.payload != c.previous.value ==> t.outcome == BadValue
    ensures Leads(c, d, [t])
  {
    OneFresh(c.previous, t);
    assert [t][1..] == [];
    assert Lawful(After(c.previous, t), []);
  }

  lemma {:induction false} OneFresh(p: Option<Payload>, t: Try)
    ensures Fresh(p, [t]) == (if p.None? then [t.frame] else []) && Pending(p, [t]) == After(p, t)
  {
    assert [t][1..] == [];
    assert Fresh(After(p, t), []) == [];
  }

  lemma {:induction false} QueueOrRetryTries(c: Core, opcode: nat, msg: Payload)
    requires opcode != CLOSE
    ensures var (d, o) := QueueOrRetry(c, opcode, msg); Leads(c, d, [Try(Queued(opcode, msg), o)])
  {
    hide Flush, Encode, Sent, Leads;
    var (d, o) := QueueOrRetry(c, opcode, msg);
    var t := Try(Queued(opcode, msg), o);
    FlushTries(c);
    SentSnoc(c.log, t.frame);
    FlushTries(c.(sendBuffer := c.sendBuffer + Encode(opcode, msg, None, true), log := c.log + [t.frame]));
    assert Sent(c.log) + [] == Sent(c.log);
    OneTry(c, d, t);
  }

  lemma {:induction false} ShutdownTries(c: Core, code: Option<int>, reason: Option<Reason>)
    ensures Leads(c, Shutdown(c, code, reason).0, [])
  {
    hide Flush, Encode, ClosePayload, Sent;
    FlushTries(c);
    if !c.sentClose && CodeFits(code) {
      var p := ClosePayload(code, reason);
      SentSnoc(c.log, Queued(CLOSE, p));
      var c1 := (if c.receivedClose then c else c.(closeCode := Some(1000))).(sentClose := true);
      FlushTries(c1.(sendBuffer := c.sendBuffer + Encode(CLOSE, p, None, true), log := c.log + [Queued(CLOSE, p)]));
    }
    NothingTried(c, Shutdown(c, code, reason).0);
  }

  lemma {:induction false} FailTries(c: Core, code: nat, reason: string)
    requires |reason| < 100
    ensures Leads(c, Fail(c, code, reason).0, [])
  {
    hide Shutdown, Leads;
    ShortFits(Ascii(reason));
    ShutdownTries(c, Some(code), Some(Ascii(reason)));
  }

  lemma {:induction false} StepCloseTries(c: Core, f: Frame, validUtf8: seq<byte> -> bool)
    ensures Leads(c, StepClose(c, f, validUtf8).0, [])
  {
    hide Shutdown, Fail;
    var c1 := c.(receivedClose := true);
    FailTries(c1, 1003, "Unsupported: Fragmented close");
    FailTries(c1, 1002, "Procotol error: Invalid UTF-8 in close");
    var c2 := c1.(closeCode := if |f.payload| >= 2 then CodeOf(f.payload) else Some(1005));
    ShutdownTries(c2, CodeOf(f.payload), ReasonOf(f.payload));
    NothingTried(c, c);
  }

  lemma {:induction false} StepFrameTries(c: Core, f: Frame, validUtf8: seq<byte> -> bool)
    ensures Leads(c, StepFrame(c, f, validUtf8).0, FrameTries(c, f))
  {
    hide Fail, QueueOrRetry, StepClose, Pending, Fresh, Lawful;
    FailTries(c, 1002, "Procotol error: Frame not masked");
    FailTries(c, 1002, "Procotol error: Unexpected continuation frame");
    FailTries(c, 1003, "Unsupported: Text frames are not supported");
    FailTries(c, 1002, "Procotol error: Unexpected new frame");
    FailTries(c, 1003, "Unsupported: Fragmented ping");
    FailTries(c, 1003, "Unsupported: Fragmented pong");
    FailTries(c, 1003, "Unsupported: Unknown opcode 0x0" + [HexDigit(f.opcode % 16)]);
    StepCloseTries(c, f, validUtf8);
    QueueOrRetryTries(c, PONG, f.payload);
    NothingTried(c, c);
  }

  lemma {:induction false} ProcessQueueTries(c: Conn, validUtf8: seq<byte> -> bool)
    ensures Leads(c.core, ProcessQueue(c, validUtf8).0.core, QueueTries(c, validUtf8))
    decreases |c.recvQueue|
  {
    hide Leads, StepFrame, FrameTries;
    if c.recvQueue == [] {
      NothingTried(c.core, c.core);
    } else {
      var f := c.recvQueue[0];
      var (k, r) := StepFrame(c.core, f, validUtf8);
      StepFrameTries(c.core, f, validUtf8);
      if r == Continue {
        var c1 := c.(recvQueue := c.recvQueue[1..], core := k);
        ProcessQueueTries(c1, validUtf8);
        LeadsOn(c.core, k, ProcessQueue(c1, validUtf8).0.core, FrameTries(c.core, f), QueueTries(c1, validUtf8));
      } else {
        assert FrameTries(c.core, f) + [] == FrameTries(c.core, f);
      }
    }
  }

  lemma {:induction false} CallLeads(c: Conn, call: Call, validUtf8: seq<byte> -> bool)
    ensures Leads(c.core, Apply(c, call, validUtf8).core, CallTries(c, call, validUtf8))
  {
    hide Leads, Shutdown, QueueOrRetry, ProcessQueue, QueueTries, Flush, Drain;
    NothingTried(c.core, c.core);
    FlushTries(c.core);
    match call
    case CallSendMsg(msg) => QueueOrRetryTries(c.core, BINARY, msg);
    case CallPing(data) => QueueOrRetryTries(c.core, PING, data);
    case CallPong(data) => QueueOrRetryTries(c.core, PONG, data);
    case CallShutdown(code, reason) => ShutdownTries(c.core, code, reason);
    case CallClose(code, reason) =>
      var d := Shutdown(c.core, code, reason).0;
      ShutdownTries(c.core, code, reason);
      assert Leads(c.core, d.(open := false), []) by { LeadsAnyway(c.core, d); }
    case CallRecvMsg(answers) =>
      RecvKeeps(c, answers);
      var (c1, r) := RecvFrames(c, answers);
      NothingTried(c.core, c1.core);
      ProcessQueueTries(c, validUtf8);
      ProcessQueueTries(c1, validUtf8);
  }

  lemma {:induction false} LeadsAnyway(c: Core, d: Core)
    requires Leads(c, d, [])
    ensures Leads(c, d.(open := false), [])
  {
  }

  /** Over every run of calls, whatever the socket and the peer do: what is pending, and which frames
      have been queued, is known from how the tries ended. */
  lemma {:induction false} RunLeads(c: Conn, calls: seq<Call>, validUtf8: seq<byte> -> bool)
    ensures Leads(c.core, Run(c, calls, validUtf8).core, Tries(c, calls, validUtf8))
    decreases |calls|
  {
    hide Leads, Apply, CallTries;
    if calls == [] {
      NothingTried(c.core, c.core);
    } else {
      var d := Apply(c, calls[0], validUtf8);
      CallLeads(c, calls[0], validUtf8);
      RunLeads(d, calls[1..], validUtf8);
      LeadsOn(c.core, d.core, Run(d, calls[1..], validUtf8).core, CallTries(c, calls[0], validUtf8), Tries(d, calls[1..], validUtf8));
    }
  }

  // ----- once, and when -----

  /** After a first try that blocked: the run goes on with any calls. */
  lemma {:induction false} FirstTry(c: Core, m: Payload)
    requires !c.sentClose && c.previous.None? && SendMsg(c, m).1 == WantWrite
    ensures var d := SendMsg(c, m).0; d.previous == Some(m) && Sent(d.log) == Sent(c.log) + [Queued(BINARY, m)]
  {
    hide Flush, Encode;
    QueueOrRetryTries(c, BINARY, m);
    OneFresh(c.previous, Try(Queued(BINARY, m), WantWrite));
  }

  lemma {:induction false} PendingEnds(p: Option<Payload>, ts: seq<Try>)
    ensures EndsCompleted(ts) ==> Pending(p, ts).None?
    ensures p.Some? && !EndsCompleted(ts) ==> Pending(p, ts).Some?
    decreases |ts|
  {
    if ts != [] {
      var init, t := ts[..|ts| - 1], ts[|ts| - 1];
      assert ts == init + [t];
      TriesAppend(p, init, [t]);
      OneFresh(Pending(p, init), t);
      PendingEnds(p, init);
    }
  }

  /** A message is among the fresh frames exactly if some message try comes with nothing pending. */
  lemma {:induction false} FreshMessages(p: Option<Payload>, ts: seq<Try>)
    ensures Messages(Fresh(p, ts)) == [] <==>
            forall k :: 0 <= k < |ts| && ts[k].frame.opcode == BINARY ==> Pending(p, ts[..k]).Some?
    decreases |ts|
  {
    if ts != [] {
      var later := ts[1..];
      FreshMessages(After(p, ts[0]), later);
      assert Pending(p, ts[..0]) == p;
      forall k | 0 <= k < |later| ensures Pending(p, ts[..k + 1]) == Pending(After(p, ts[0]), later[..k]) {
        assert ts[..k + 1][1..] == later[..k];
      }
      MessagesAppend(if p.None? then [ts[0].frame] else [], Fresh(After(p, ts[0]), later));
      if forall k :: 0 <= k < |ts| && ts[k].frame.opcode == BINARY ==> Pending(p, ts[..k]).Some? {
        forall k | 0 <= k < |later| && later[k].frame.opcode == BINARY
          ensures Pending(After(p, ts[0]), later[..k]).Some?
        {
          assert ts[k + 1] == later[k];
        }
      } else {
        var k :| 0 <= k < |ts| && ts[k].frame.opcode == BINARY && Pending(p, ts[..k]).None?;
        if k > 0 {
          assert later[k - 1] == ts[k] && Pending(After(p, ts[0]), later[..k - 1]).None?;
        }
      }
    }
  }

  /** The message m is not tried at a moment when, of the tries that completed or blocked, the last completed. */
  ghost predicate RetriesWaitTheirTurn(ts: seq<Try>, m: Payload) {
    forall k :: 0 <= k < |ts| && ts[k].frame == Queued(BINARY, m) ==> !EndsCompleted(ts[..k])
  }

  /** How often the message has been queued. */
  function Copies(log: seq<Queued>, m: Payload): nat {
    multiset(Sent(log))[Queued(BINARY, m)]
  }

  lemma {:induction false} FreshCopy(p: Option<Payload>, ts: seq<Try>, q: Queued)
    ensures q in Fresh(p, ts) <==> exists k :: 0 <= k < |ts| && ts[k].frame == q && Pending(p, ts[..k]).None?
    decreases |ts|
  {
    if ts != [] {
      var later, p1 := ts[1..], After(p, ts[0]);
      FreshCopy(p1, later, q);
      assert Pending(p, ts[..0]) == p;
      forall k | 0 <= k < |later| ensures Pending(p, ts[..k + 1]) == Pending(p1, later[..k]) {
        assert ts[..k + 1][1..] == later[..k];
      }
      if q in Fresh(p1, later) {
        var k :| 0 <= k < |later| && later[k].frame == q && Pending(p1, later[..k]).None?;
        assert ts[k + 1].frame == q && Pending(p, ts[..k + 1]).None?;
      }
      forall k | 0 <= k < |ts| && ts[k].frame == q && Pending(p, ts[..k]).None?
        ensures q in Fresh(p, ts)
      {
        if k > 0 {
          assert later[k - 1].frame == q && Pending(p1, later[..k - 1]).None?;
        }
      }
    }
  }

  /** The exact condition, for any calls at all after a first try that blocked, retries and other messages
      among them: the message is queued once if and only if it is never tried at a moment when, of the tries
      that completed or blocked since, the last one completed. */
  lemma {:induction false} SentOnceIff(c: Conn, m: Payload, calls: seq<Call>, validUtf8: seq<byte> -> bool)
    requires !c.core.sentClose && c.core.previous.None? && SendMsg(c.core, m).1 == WantWrite
    ensures var d := Apply(c, CallSendMsg(m), validUtf8);
            Copies(Run(d, calls, validUtf8).core.log, m) == Copies(c.core.log, m) + 1 <==>
            RetriesWaitTheirTurn(Tries(d, calls, validUtf8), m)
    ensures var d := Apply(c, CallSendMsg(m), validUtf8);
            Copies(Run(d, calls, validUtf8).core.log, m) > Copies(c.core.log, m)
  {
    hide Leads, SendMsg, Run, Tries, Sent, RetriesWaitTheirTurn;
    var d := Apply(c, CallSendMsg(m), validUtf8);
    FirstTry(c.core, m);
    CopiesIff(c.core.log, d.core, Run(d, calls, validUtf8).core, m, Tries(d, calls, validUtf8)) by { RunLeads(d, calls, validUtf8); }
  }

  lemma {:induction false} CopiesIff(log: seq<Queued>, d: Core, e: Core, m: Payload, ts: seq<Try>)
    requires Leads(d, e, ts) && d.previous == Some(m) && Sent(d.log) == Sent(log) + [Queued(BINARY, m)]
    ensures Copies(e.log, m) == Copies(log, m) + 1 <==> RetriesWaitTheirTurn(ts, m)
    ensures Copies(e.log, m) > Copies(log, m)
  {
    hide Pending, Fresh, Lawful, EndsCompleted, Sent;
    var queued, q := Fresh(Some(m), ts), Queued(BINARY, m);
    assert multiset(Sent(e.log)) == multiset(Sent(log)) + multiset([q]) + multiset(queued);
    assert multiset(queued)[q] == 0 <==> q !in queued;
    FreshCopy(Some(m), ts, q);
    forall k | 0 <= k < |ts| ensures Pending(Some(m), ts[..k]).Some? <==> !EndsCompleted(ts[..k]) {
      PendingEnds(Some(m), ts[..k]);
    }
  }

  /** The same for all messages: m is the only one queued if and only if no message is tried at such a moment. */
  lemma {:induction false} OnlyMessageIff(c: Conn, m: Payload, calls: seq<Call>, validUtf8: seq<byte> -> bool)
    requires !c.core.sentClose && c.core.previous.None? && SendMsg(c.core, m).1 == WantWrite
    ensures var d := Apply(c, CallSendMsg(m), validUtf8);
            var ts := Tries(d, calls, validUtf8);
            Messages(Sent(Run(d, calls, validUtf8).core.log)) == Messages(Sent(c.core.log)) + [m] <==>
            MessagesWaitTheirTurn(ts)
  {
    hide Leads, SendMsg, Run, Tries, Sent, Messages, MessagesWaitTheirTurn;
    var d := Apply(c, CallSendMsg(m), validUtf8);
    var ts := Tries(d, calls, validUtf8);
    FirstTry(c.core, m);
    OnceIff(c.core.log, d.core, Run(d, calls, validUtf8).core, m, ts) by { RunLeads(d, calls, validUtf8); }
  }

  lemma {:induction false} OnceIff(log: seq<Queued>, d: Core, e: Core, m: Payload, ts: seq<Try>)
    requires Leads(d, e, ts) && d.previous == Some(m) && Sent(d.log) == Sent(log) + [Queued(BINARY, m)]
    ensures Messages(Sent(e.log)) == Messages(Sent(log)) + [m] <==>
            MessagesWaitTheirTurn(ts)
  {
    hide Pending, Fresh, Lawful, EndsCompleted, Sent;
    var queued := Fresh(Some(m), ts);
    MessagesAppend(Sent(log), [Queued(BINARY, m)]);
    MessagesAppend(Sent(d.log), queued);
    OneMessage(Queued(BINARY, m));
    FreshMessages(Some(m), ts);
    forall k | 0 <= k < |ts| ensures Pending(Some(m), ts[..k]).Some? <==> !EndsCompleted(ts[..k]) {
      PendingEnds(Some(m), ts[..k]);
    }
  }

  /** While m is pending, a run in which no try with the same payload completes queues nothing. */
  lemma {:induction false} OnlyTheSamePayloadCompletes(m: Payload, ts: seq<Try>)
    requires Lawful(Some(m), ts)
    requires forall t <- ts :: t.frame.payload == m ==> t.outcome != Done
    ensures Pending(Some(m), ts) == Some(m) && Fresh(Some(m), ts) == []
    decreases |ts|
  {
    if ts != [] {
      assert ts[0] in ts;
      assert After(Some(m), ts[0]) == Some(m);
      OnlyTheSamePayloadCompletes(m, ts[1..]);
    }
  }

  /** The caller's guarantee. Between a first try that blocked and a retry there may be any calls, other
      retries among them; as long as none of them completes a send of the same payload, everything is
      queued once, and a retry that returns has the message, and all that was queued, on the wire. */
  lemma {:induction false} RetriedOnce(c: Conn, m: Payload, calls: seq<Call>, validUtf8: seq<byte> -> bool)
    requires SendInv(c.core) && !c.core.sentClose && c.core.previous.None? && SendMsg(c.core, m).1 == WantWrite
    requires var d := Apply(c, CallSendMsg(m), validUtf8);
             forall t <- Tries(d, calls, validUtf8) :: t.frame.payload == m ==> t.outcome != Done
    ensures var e := Run(Apply(c, CallSendMsg(m), validUtf8), calls, validUtf8);
            var (f, o, n) := SendMsg(e.core, m);
            && Sent(e.core.log) == Sent(f.log) == Sent(c.core.log) + [Queued(BINARY, m)]
            && (o == Done && !e.core.sentClose ==> n == |m| && f.sendBuffer == [] && f.wire == WireImage(f.log))
  {
    hide Leads, Run, Tries, WireImage, CloseIsLast, Flush;
    var d := Apply(c, CallSendMsg(m), validUtf8);
    var e := Run(d, calls, validUtf8);
    FirstTry(c.core, m);
    SendMsgKeeps(c.core, m);
    SendStreamIntegrity(d, calls, validUtf8);
    RunLeads(d, calls, validUtf8);
    StillPending(d.core, e.core, m, Tries(d, calls, validUtf8));
    RetryProgress(e.core, m);
    SendMsgKeeps(e.core, m);
    var f := SendMsg(e.core, m).0;
    assert f.sendBuffer == [] ==> f.wire + f.sendBuffer == f.wire;
  }

  lemma {:induction false} StillPending(d: Core, e: Core, m: Payload, ts: seq<Try>)
    requires Leads(d, e, ts) && d.previous == Some(m)
    requires forall t <- ts :: t.frame.payload == m ==> t.outcome != Done
    ensures e.previous == Some(m) && Sent(e.log) == Sent(d.log)
  {
    OnlyTheSamePayloadCompletes(m, ts);
    assert Sent(d.log) + [] == Sent(d.log);
  }

  predicate IsSendMsg(call: Call) {
    call.CallSendMsg?
  }

  /** One retry after any other calls, exactly: the message is queued once if and only if a close frame
      was sent meanwhile or the last of the tries that completed or blocked did not complete;
      otherwise it is queued twice. */
  lemma {:induction false} OneRetryIff(c: Conn, m: Payload, between: seq<Call>, validUtf8: seq<byte> -> bool)
    requires !c.core.sentClose && c.core.previous.None? && SendMsg(c.core, m).1 == WantWrite
    requires forall call <- between :: !IsSendMsg(call)
    ensures var d := Apply(c, CallSendMsg(m), validUtf8);
            var e := Run(d, between, validUtf8);
            var queued := Messages(Sent(SendMsg(e.core, m).0.log));
            queued == Messages(Sent(c.core.log)) +
                      if e.core.sentClose || !EndsCompleted(Tries(d, between, validUtf8)) then [m] else [m, m]
  {
    hide Leads, Run, Tries, Sent, Messages, EndsCompleted, QueueOrRetry;
    var d := Apply(c, CallSendMsg(m), validUtf8);
    var e := Run(d, between, validUtf8);
    var ts := Tries(d, between, validUtf8);
    FirstTry(c.core, m);
    RunLeads(d, between, validUtf8);
    NoMessageTries(d, between, validUtf8);
    AfterOthers(c.core.log, d.core, e.core, m, ts);
  }

  lemma {:induction false} AfterOthers(log: seq<Queued>, d: Core, e: Core, m: Payload, ts: seq<Try>)
    requires Leads(d, e, ts) && d.previous == Some(m) && Sent(d.log) == Sent(log) + [Queued(BINARY, m)]
    requires forall t <- ts :: t.frame.opcode != BINARY
    ensures Messages(Sent(SendMsg(e, m).0.log)) ==
            Messages(Sent(log)) + if e.sentClose || !EndsCompleted(ts) then [m] else [m, m]
  {
    hide Sent, EndsCompleted, QueueOrRetry, Pending, Fresh, Lawful, Messages;
    FreshMessages(Some(m), ts);
    PendingEnds(Some(m), ts);
    MessagesAppend(Sent(log), [Queued(BINARY, m)]);
    MessagesAppend(Sent(d.log), Fresh(Some(m), ts));
    OneMessage(Queued(BINARY, m));
    if !e.sentClose {
      QueueOrRetryTries(e, BINARY, m);
      var t := Try(Queued(BINARY, m), QueueOrRetry(e, BINARY, m).1);
      OneFresh(e.previous, t);
      MessagesAppend(Sent(e.log), Fresh(e.previous, [t]));
    }
  }

  lemma {:induction false} NoMessageTries(c: Conn, calls: seq<Call>, validUtf8: seq<byte> -> bool)
    requires forall call <- calls :: !IsSendMsg(call)
    ensures forall t <- Tries(c, calls, validUtf8) :: t.frame.opcode != BINARY
    decreases |calls|
  {
    hide Apply, QueueTries;
    if calls != [] {
      assert calls[0] in calls;
      NoMessageTries(Apply(c, calls[0], validUtf8), calls[1..], validUtf8);
      NoMessageInQueue(c, validUtf8);
      if calls[0].CallRecvMsg? {
        NoMessageInQueue(RecvFrames(c, calls[0].answers).0, validUtf8);
      }
    }
  }

  lemma {:induction false} NoMessageInQueue(c: Conn, validUtf8: seq<byte> -> bool)
    ensures forall t <- QueueTries(c, validUtf8) :: t.frame.opcode != BINARY
    decreases |c.recvQueue|
  {
    hide StepFrame;
    if c.recvQueue != [] {
      NoMessageInQueue(c.(recvQueue := c.recvQueue[1..], core := StepFrame(c.core, c.recvQueue[0], validUtf8).0), validUtf8);
    }
  }

  // ----- where the shared note fails -----

  /** A received ping is answered by a pong if and only if nothing is pending. With a message pending
      it raises ValueError, or, if it happens to carry the same bytes, it is taken for the retry. */
  lemma {:induction false} PingAnsweredIff(c: Core, f: Frame, validUtf8: seq<byte> -> bool)
    requires f.masked && f.opcode == PING && f.fin
    ensures var (d, r) := StepFrame(c, f, validUtf8);
            && (Sent(d.log) == Sent(c.log) + [Queued(PONG, f.payload)] <==> c.previous.None?)
            && (r == Raise(BadValue) <==> c.previous.Some? && c.previous.value != f.payload)
            && (r == Raise(BadValue) ==> d == c)
  {
    hide Flush, Sent, Encode;
    QueueOrRetryTries(c, PONG, f.payload);
    var t := Try(Queued(PONG, f.payload), Pong(c, f.payload).1);
    OneFresh(c.previous, t);
    assert |Sent(c.log) + []| != |Sent(c.log) + [t.frame]|;
    FlushNeverBadValue(c);
    FlushNeverBadValue(c.(sendBuffer := c.sendBuffer + Encode(PONG, f.payload, None, true), log := c.log + [t.frame]));
  }

  lemma {:induction false} FlushNeverBadValue(c: Core)
    ensures Flush(c).1 != BadValue
  {
  }

  /** The run that sends a message twice: the socket blocks the first try, a ping with the same bytes
      arrives before the retry, and the pong that should answer it completes the pending send. */
  lemma {:induction false} PingDuplicatesMessage(c: Conn, m: Payload, ping: Frame, validUtf8: seq<byte> -> bool)
    requires c.core.open && !c.core.sentClose && !c.core.receivedClose && c.core.previous.None?
    requires c.core.sendBuffer == [] && c.core.plan == [SendWouldBlock]
    requires ping.masked && ping.opcode == PING && ping.fin && ping.payload == m && c.recvQueue == [ping]
    ensures var d := Run(c, [CallSendMsg(m), CallRecvMsg([]), CallSendMsg(m)], validUtf8);
            Sent(d.core.log) == Sent(c.core.log) + [Queued(BINARY, m), Queued(BINARY, m)]
  {
    hide Sent, Encode;
    EncodeLength(BINARY, m, None, true);
    var c1 := Apply(c, CallSendMsg(m), validUtf8);
    var bytes := Encode(BINARY, m, None, true);
    assert c1.core == c.core.(sendBuffer := bytes, log := c.core.log + [Queued(BINARY, m)], previous := Some(m), plan := []) by {
      assert [] + bytes == bytes;
    }
    var c2 := Apply(c1, CallRecvMsg([]), validUtf8);
    assert bytes[|bytes|..] == [];
    assert StepFrame(c1.core, ping, validUtf8).1 == Continue;
    assert c2.core.previous == None && c2.core.log == c1.core.log && !c2.core.sentClose by {
      var k := StepFrame(c1.core, ping, validUtf8).0;
      assert ProcessQueue(c1, validUtf8) == ProcessQueue(c1.(recvQueue := [], core := k), validUtf8);
    }
    var c3 := Apply(c2, CallSendMsg(m), validUtf8);
    assert c3.core.log == c2.core.log + [Queued(BINARY, m)];
    SentSnoc(c.core.log, Queued(BINARY, m));
    SentSnoc(c1.core.log, Queued(BINARY, m));
    assert Run(c, [CallSendMsg(m), CallRecvMsg([]), CallSendMsg(m)], validUtf8) == c3 by {
      RunThree(c, CallSendMsg(m), CallRecvMsg([]), CallSendMsg(m), validUtf8);
    }
  }

  lemma {:induction false} RunThree(c: Conn, x: Call, y: Call, z: Call, validUtf8: seq<byte> -> bool)
    ensures Run(c, [x, y, z], validUtf8) == Apply(Apply(Apply(c, x, validUtf8), y, validUtf8), z, validUtf8)
  {
    hide Apply;
    assert [x, y, z][1..] == [y, z] && [y, z][1..] == [z] && [z][1..] == [];
    var d := Apply(Apply(c, x, validUtf8), y, validUtf8);
    assert Run(d, [z], validUtf8) == Run(Apply(d, z, validUtf8), [], validUtf8);
  }
}
