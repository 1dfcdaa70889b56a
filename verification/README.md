# A verified model of the remote-desktop relay

The repository lets a browser reach a desktop: a Python WebSocket endpoint
(websockify) carries the bytes, a JavaScript viewer (noVNC) decodes them into
pictures, and a C repeater joins servers and viewers that cannot reach each
other. This project models the parts of those three programs that hold state,
and proves in Dafny what they promise. To check it, run
`dafny verify dfyconfig.toml`.

Every stateful part is written twice. A specification gives its steps as
functions on values; the theorems are about those. A class or a method with
loops has the original's fields and changes them in place; its postconditions
say that it takes exactly the specified steps.

## What is proved

**WebSocket endpoint** (`Bytes`, `HybiCodec`, `WsConnection`, `WsReceive`,
`WsSend`, `WsRetry`, `WsOutcomes`, `WsReassembly`, `WsEndToEnd`, `WsClosing`,
`WsViolations`, `WebSocketClass`). Frames survive encoding and decoding; the
word-wise unmasking is the bytewise one. However the network cuts the stream,
the same frames are queued and the same bytes are left. Over every run of calls
the bytes on the wire and in the send buffer are the queued frames, and at most
one close frame is sent, with no message behind it; a message that has to be
retried, with any calls in between, is queued once under an exact condition.
Fragmented messages with interleaved pings are delivered in order, end to end,
from the client's bytes, and streams with violations and a well-formed close end
the same for every cut. Every violation is answered with the one close frame
that names it, and nothing else is.

**Receive queue** (`ReceiveQueue`). The slice between the two indices is a
plain FIFO of bytes through overlapping compaction, doubling and the 40 MiB
limit; it throws exactly at that limit, and a rolled-back header is restored.

**Display** (`Canvas`, `Display`, `DisplayProofs`, `DisplayViewport`,
`DisplayRuns`, `DisplayProgress`, `DisplayMoves`, `DisplayResizes`,
`DisplayHistory`, `DisplayFlips`, `DisplayClass`). Outside the damage bounds the
visible canvas agrees with the backbuffer on every painted viewport pixel, in
every reachable state. Actions are drawn in submission order whatever order
images load in, and a session, resizes included, leaves the picture that
carrying out its calls in turn would have left. The queue waits only for images,
and once they have loaded all is drawn and every flush answered. Each viewport
operation ends inside the framebuffer under an exact condition.

**Framebuffer updates** (`DecoderIO`, `RawDecoder`, `CopyRectDecoder`,
`RreDecoder`, `HextileDecoder`, `HextileClass`, `HextileMeaning`, `RfbMachine`,
`RfbClient`, `RfbMeaning`, `RfbFailures`, `RfbDisplay`). For every split of the
byte stream into arrivals the resumed loops end in the same state. Any sequence
of well-formed updates, encoded as section 7.6.1, sections 7.7.1 to 7.7.4 and
section 7.8.2 of RFC 6143 say, or closed early by a last rectangle, is drawn as
its meaning says, and in front of the display nothing ever waits and the closing
flip makes it visible.

**ZRLE and Tight pixels** (`PackedPixels`, `Zrle`, `ZrleTiles`, `ZrleClass`,
`Tight`, `TightMeaning`, `TightClass`). The loop over bit-packed palette
indices, both run-length loops and the run lengths invert a specification
encoder for every well-formed tile (section 7.7.6 of RFC 6143); a Tight
rectangle with a palette is drawn in its colours.

**Repeater** (`Tables`, `SlotTable`, `Broker`, `BrokerRuns`, `BrokerLog`,
`BrokerHeartbeats`, `BrokerAdmission`, `BrokerChildren`, `BrokerSystem`,
`BrokerCases`, `EventQueue`, `EventFifo`, `RepeaterProcess`, `Relay`,
`RelayLoop`). Nobody is admitted whose code is not on the list; pairing is safe
over all runs; an entry is active exactly while a relay child serves it, unless
it leaked or its child was killed; a process slot is always free when a child is
forked; the event log replayed by table index is the tables without those
entries; the ring buffer hands every event to a listener child once and in
order; the relay loses and repeats nothing from viewer to server.

**Codecs and ciphers** (`Base64`, `Base64Loops`, `Modular`, `Rsa`,
`RsaCipher`, `Doubling`, `Cmac`, `Eax`, `Ra2`). Base64 and RSA round trips
(sections 4 of RFC 4648 and 7.2 of RFC 8017), square-and-multiply, CMAC
subkeys and codes (sections 2.3 and 2.4 of RFC 4493), and a conversation of
RA2 messages whose counters stay in step.

## Where the code departs from the obvious statement

Each of these is modelled as the code has it, with the exact condition proved.

- A binary message whose first fragment is empty is not remembered and its
  continuation is taken for an error: `WsEndToEnd.DeliveryIsExact`.
- A message that has to be retried is queued a second time if a ping or pong with
  the same bytes, the pong for a received ping included, completes the pending send
  in between: `WsRetry.SentOnceIff`, `WsRetry.PingDuplicatesMessage`.
- A ping received while a message is pending is not answered; unless it carries the
  same bytes it makes recvmsg raise ValueError: `WsRetry.PingAnsweredIff`.
- A message behind a malformed close frame is delivered or not depending on how the
  stream is cut: `WsClosing.AnyCut`, `WsClosing.AllCutsAgreeIff`,
  `WsClosing.FragmentedCloseThenMessage`.
- close fails on a connection that the closing handshake has closed:
  `WsSend.CloseDoneIff`.
- A pixel that is transparent in the backbuffer is not erased by a flip, so that a
  moved viewport can show a stale picture: `DisplayProofs.FlipIsExact`,
  `DisplayFlips.FlipMirrorsIff`, `DisplayFlips.StaleAfterMove`.
- The horizontal clamp of the viewport tests the sign of the movement and the
  vertical one does not; moved before the first resize, the viewport can stay
  left of the framebuffer: `DisplayViewport.ResizeInsideIff`,
  `DisplayViewport.ViewportCanEscape`.
- A blit that has to wait ignores its offset into the pixel buffer:
  `DisplayRuns.BlitInOrder`, `DisplayRuns.RunKeeps`.
- A resize does not wait for what is queued, which is then drawn on the resized
  picture; the condition is exact for each kind of action: `DisplayResizes.CommutesIff`,
  `DisplayHistory.OvertakenIff`, `DisplayHistory.ResizeOvertakesCopy`.
- A 32-bit number with its top bit set is read as negative:
  `ReceiveQueue.ShiftedIsUnsigned`. An RRE rectangle with such a count leaves
  the decoder unable to start the next one: `RreDecoder.ReadyAfterwards`.
- A blank Hextile tile after a raw one is skipped: `HextileMeaning.BlankTileIff`.
- The ZRLE palette guard lets an index equal to the palette size pass:
  `Zrle.GuardIsOffByOne`, `Zrle.PaletteAlone`, `Zrle.StalePixelShows`.
- A Tight palette rectangle without area leaves its palette for the next one,
  and a one-colour palette is drawn from bits as if they were bytes:
  `Tight.PaletteForgottenIff`, `Tight.OneColourIff`. Data of less than two bytes
  waits for what follows it: `Tight.LastDataOutIff`.
- After an overflow of the receive queue its size field is at the limit while
  the array keeps its old size: `ReceiveQueue.Websock.ExpandCompact`.
- A Mode 1 connection that finds room in one table only leaves an active entry
  there for good, and no event tells of it: `BrokerRuns.RunKeeps`,
  `BrokerLog.LogIsTrueUnlessLeaked`, `BrokerCases.Mode1CanLeak`.
- A child that is killed ends with code 0; its entry in the process table is
  cleared, but both connections stay active for good, and the log says that the
  session ended: `BrokerChildren.AllServedUnlessLost`,
  `BrokerChildren.StrandedForGood`, `BrokerCases.KilledChildStrands`.
- The Mode 1 code counter jumps back to -1 after a million connections without
  looking: `BrokerSystem.InventedCodesAreFresh`, `BrokerCases.WrapRepeatsACode`.
- The relay moves its server buffer only when less was sent than remains:
  `Relay.ShiftIsRightExactly`, `Relay.DownIsConservedIff`. Its header comment lists code 5 for a failed
  read from the server, but a connection reset there is ignored.
- Illegal characters are counted in the length of a decoded Base64 result:
  `Base64.ResultLengthIff`.
- A number converted without a pad length gets twice the bytes it needs, and one
  too large for its pad length can lose its last digit: `RsaCipher.BigIntToU8Array`.
- Removing RSA padding does not ask for the eight padding bytes that the
  standard demands: `Rsa.UnpaddedIff`.

## Model

| member | source | states |
|---|---|---|
| `HybiCodec.UnmaskInPlace` | src/main/resources/websockify/websockify/websocket.py:775-781 | the slow routine, a loop over a local array, XORs byte i with key byte i mod 4 |
| `HybiCodec.WordXor` | src/main/resources/websockify/websockify/websocket.py:757-764 | XOR of two 32-bit words is the XOR of their four bytes |
| `HybiCodec.UnmaskWordsBytewise` | src/main/resources/websockify/websockify/websocket.py:757-764 | the word part of the fast routine equals the bytewise one on the whole words |
| `HybiCodec.UnmaskFastIsBytewise` | src/main/resources/websockify/websockify/websocket.py:750-781 | fast and slow unmasking agree for every buffer and key, whatever the length modulo four |
| `HybiCodec.UnmaskInvolutive` | src/main/resources/websockify/websockify/websocket.py:746-781 | masking twice with one key gives the buffer back |
| `HybiCodec.HeaderDecodes` | src/main/resources/websockify/websockify/websocket.py:803-809 | each of the three length forms is read back as the same length and mask bit |
| `HybiCodec.EncodeLength` | src/main/resources/websockify/websockify/websocket.py:803-814 | the exact size of an encoded frame in all three length forms, with and without a key |
| `HybiCodec.FrameLayout` | src/main/resources/websockify/websockify/websocket.py:783-814 | the bytes of a frame one by one: fin bit and opcode, mask bit and length form, long length most significant byte first, key, payload |
| `HybiCodec.FrameIsAtLeastTwoBytes` | src/main/resources/websockify/websockify/websocket.py:832-873 | a decoded frame consumes at least two bytes and no more than there are, so decoding loops end |
| `HybiCodec.DecodeLocal` | src/main/resources/websockify/websockify/websocket.py:816-873 | decoding depends on the bytes of the first frame only |
| `HybiCodec.DecodeStable` | src/main/resources/websockify/websockify/websocket.py:816-873 | later bytes never change a frame that is complete |
| `HybiCodec.DecodePrefixSafe` | src/main/resources/websockify/websockify/websocket.py:835-864 | a prefix decodes if and only if it holds the whole frame; every strict prefix of a frame gives none |
| `HybiCodec.DecodeEncode` | src/main/resources/websockify/websockify/websocket.py:783-873 | frame round trip: every opcode, fin flag, optional key and payload below 2^64, whatever bytes follow, with the exact consumed length |
| `WsReceive.DrainAppend` | src/main/resources/websockify/websockify/websocket.py:599-604 | decoding a buffer in two parts queues the same frames and leaves the same rest as decoding it at once |
| `WsReceive.DrainIsExhaustive` | src/main/resources/websockify/websockify/websocket.py:599-602 | the decoding loop stops only when no complete frame is left |
| `WsReceive.RecvAppends` | src/main/resources/websockify/websockify/websocket.py:563-587 | one call of the reading loop appends exactly the bytes the socket gave, also when it raises |
| `WsReceive.RecvFramesExtends` | src/main/resources/websockify/websockify/websocket.py:589-606 | one call extends the queue and rest as if the new bytes had been there from the start |
| `WsReceive.ReceiveIsChunkIndependent` | src/main/resources/websockify/websockify/websocket.py:563-606 | over any sequence of reads, queued frames and rest are those of decoding the concatenation once |
| `WsReceive.FeedReads` | src/main/resources/websockify/websockify/websocket.py:563-606 | closed form of a whole run of reads |
| `WsReceive.CutsAgree` | src/main/resources/websockify/websockify/websocket.py:563-606 | two ways of cutting one byte stream leave the connection in the same state |
| `WsSend.FlushKeeps` | src/main/resources/websockify/websockify/websocket.py:695-717 | flushing keeps the sending invariant, never loses or repeats a byte, and reports a full buffer truly |
| `WsSend.SendFrameKeeps` | src/main/resources/websockify/websockify/websocket.py:719-739 | queueing one frame appends exactly its encoding |
| `WsSend.QueueOrRetryKeeps` | src/main/resources/websockify/websockify/websocket.py:433-448 | the part that sendmsg, ping and pong share keeps the sending invariant, and returns only with the buffer empty |
| `WsSend.SendMsgKeeps` | src/main/resources/websockify/websockify/websocket.py:416-448 | sendmsg keeps the sending invariant in every branch |
| `WsSend.ShutdownKeeps` | src/main/resources/websockify/websockify/websocket.py:512-547 | shutdown queues a close frame at most once and keeps the invariant, whatever code and reason it is given |
| `WsConnection.ReplyRepeats` | src/main/resources/websockify/websockify/websocket.py:656-677 | the code and reason taken from a close frame always fit, and the reply built from them repeats its payload byte for byte, a single byte excepted |
| `WsSend.CloseKeeps` | src/main/resources/websockify/websockify/websocket.py:549-561 | close keeps the sending invariant |
| `WsSend.CloseDoneIff` | src/main/resources/websockify/websockify/websocket.py:549-561 | with a willing socket close fails if and only if the socket is gone already or flushing the close frame closes it, because the peer has closed |
| `WsSend.StepCloseKeeps` | src/main/resources/websockify/websockify/websocket.py:642-677 | handling a close frame, with its nested shutdowns, keeps the invariant |
| `WsSend.StepFrameKeeps` | src/main/resources/websockify/websockify/websocket.py:613-691 | handling any received frame keeps the invariant |
| `WsSend.ProcessQueueKeeps` | src/main/resources/websockify/websockify/websocket.py:608-693 | processing the whole frame queue keeps the invariant |
| `WsSend.RecvMsgKeeps` | src/main/resources/websockify/websockify/websocket.py:349-383 | recvmsg keeps the invariant |
| `WsSend.SendStreamIntegrity` | src/main/resources/websockify/websockify/websocket.py:349-561 | over every run of sendmsg, ping, pong, shutdown, close and recvmsg: bytes given to the socket followed by the send buffer are the concatenation of the queued frames, at most one close frame is queued, and no binary frame follows it |
| `WsSend.RetryProgress` | src/main/resources/websockify/websockify/websocket.py:433-448 | want-write leaves the message pending with less of the socket schedule left |
| `WsSend.RetryQueuesNothing` | src/main/resources/websockify/websockify/websocket.py:433-440 | retries with nothing in between, until done, queue no second frame |
| `WsSend.SentExactlyOnce` | src/main/resources/websockify/websockify/websocket.py:416-448 | a message sent with any number of retries and nothing in between is on the wire exactly once |
| `WsRetry.QueueOrRetryTries` | src/main/resources/websockify/websockify/websocket.py:428-510 | one try under the shared rule: what it leaves pending and what it queues follow from how it ends |
| `WsRetry.StepFrameTries` | src/main/resources/websockify/websockify/websocket.py:613-691 | a received frame tries to send at most the pong that answers it |
| `WsRetry.RunLeads` | src/main/resources/websockify/websockify/websocket.py:349-561 | over every run of calls, with any socket and any peer: what is pending and which frames have been queued is known from how the tries ended, and only a payload equal to the pending one gets further than ValueError |
| `WsRetry.SentOnceIff` | src/main/resources/websockify/websockify/websocket.py:416-510 | any calls after a first sendmsg that blocked, retries and other messages among them: the message is queued at least once, and exactly once if and only if it is never tried when, of the tries that completed or blocked, the last one completed |
| `WsRetry.OnlyMessageIff` | src/main/resources/websockify/websockify/websocket.py:416-510 | and it is the only message queued if and only if no message is tried at such a moment |
| `WsRetry.RetriedOnce` | src/main/resources/websockify/websockify/websocket.py:416-510 | between the first try and a retry any calls may come: unless one of them completes a send of the same payload everything is queued once, and a retry that returns has all of it on the wire |
| `WsRetry.OneRetryIff` | src/main/resources/websockify/websockify/websocket.py:416-510 | one retry after any other calls queues the message a second time if and only if no close frame was sent and the last of the tries that completed or blocked completed |
| `WsRetry.PingAnsweredIff` | src/main/resources/websockify/websockify/websocket.py:316-321 | a received ping is answered by a pong if and only if no send is pending; it raises ValueError if and only if one with another payload is |
| `WsRetry.PingDuplicatesMessage` | src/main/resources/websockify/websockify/websocket.py:428-510 | counterexample: a ping with the bytes of a pending message completes it unnoticed, and the retry sends the message again |
| `WsReassembly.SendingSucceeds` | src/main/resources/websockify/websockify/websocket.py:729-739 | with a willing socket a queued frame is sent at once |
| `WsReassembly.StepAcceptable` | src/main/resources/websockify/websockify/websocket.py:620-689 | what each data or control frame does to the partial message, the result and the pongs |
| `WsReassembly.AbsorbDelivers` | src/main/resources/websockify/websockify/websocket.py:608-693 | handling the frames of fragmented messages with interleaved pings and pongs yields what is delivered, and one pong for each ping |
| `WsReassembly.ProcessQueueIsFold` | src/main/resources/websockify/websockify/websocket.py:608-693 | one call of the queue loop returns the first message and leaves the rest of the fold |
| `WsReassembly.QueueIsFold` | src/main/resources/websockify/websockify/websocket.py:608-693 | calling until the queue is empty yields all messages of the fold |
| `WsEndToEnd.DrainEncoded` | src/main/resources/websockify/websockify/websocket.py:599-604 | a stream of encoded client frames decodes to those frames and nothing else |
| `WsEndToEnd.PumpIsFold` | src/main/resources/websockify/websockify/websocket.py:349-383 | reading and returning messages call by call is the fold over the decoded frames, for every cut of the stream |
| `WsEndToEnd.MessagesSurviveTheWire` | src/main/resources/websockify/websockify/websocket.py:349-693 | end to end: client messages fragmented, masked, interleaved with control frames and cut anywhere are delivered in order, each ping with its pong |
| `WsEndToEnd.DeliveryIsExact` | src/main/resources/websockify/websockify/websocket.py:620-641 | the delivered messages are the original ones if and only if every fragmented message has a non-empty first fragment |
| `WsEndToEnd.EmptyFirstFragmentIsLost` | src/main/resources/websockify/websockify/websocket.py:621-623 | counterexample: a message whose first fragment is empty is not delivered |
| `WsClosing.CloseEnds` | src/main/resources/websockify/websockify/websocket.py:642-677 | a close frame ends the connection with everything sent, and recvmsg says so at once if and only if the frame is well-formed or answers ours |
| `WsClosing.OthersGoOn` | src/main/resources/websockify/websockify/websocket.py:613-691 | every other frame, violations of the protocol included, leaves a healthy connection healthy |
| `WsClosing.PumpFolds` | src/main/resources/websockify/websockify/websocket.py:349-693 | for every stream with any frames whose first close frame is well-formed, reading and returning messages call by call is the fold over its frames up to the close, for every cut |
| `WsClosing.CutsAgreeToTheEnd` | src/main/resources/websockify/websockify/websocket.py:349-693 | two cuts of such a stream deliver the same messages and leave the same connection behind |
| `WsClosing.AnyCut` | src/main/resources/websockify/websockify/websocket.py:349-693 | every cut of a stream with a malformed close frame: the messages in front of it are delivered in order, and one more if and only if a message is completed, before a ping, by the frames decoded behind it in the same read |
| `WsClosing.AllCutsAgreeIff` | src/main/resources/websockify/websockify/websocket.py:349-693 | all cuts of such a stream deliver the same messages if and only if no message is completed behind the close frame before a ping |
| `WsClosing.CutBehindCloseIff` | src/main/resources/websockify/websockify/websocket.py:652-667 | instance: cutting right behind the close frame or not at all delivers the same if and only if no message is completed there before a ping |
| `WsClosing.FragmentedCloseThenMessage` | src/main/resources/websockify/websockify/websocket.py:652-654 | counterexample: a message behind a fragmented close frame is delivered if they are read together, and not if they are read apart |
| `WsViolations.ViolationAnswered` | src/main/resources/websockify/websockify/websocket.py:613-691 | every violation, an unmasked frame, a continuation of nothing, a text frame, a binary frame inside a message, a fragmented ping or pong, an unknown opcode, queues one close frame with its literal code bytes and reason, and marks it as sent |
| `WsViolations.CloseAnswered` | src/main/resources/websockify/websockify/websocket.py:642-677 | a close frame is repeated to the peer if it is whole and its reason is UTF-8, and otherwise refused with its literal code and reason; what close_code becomes |
| `WsViolations.OthersAnswered` | src/main/resources/websockify/websockify/websocket.py:620-689 | a frame that breaks no rule and is no close queues nothing but the pong for a ping |
| `WsViolations.CloseQueuedIff` | src/main/resources/websockify/websockify/websocket.py:613-691 | over all frames: a close frame is queued, and marked as sent, if and only if the frame breaks a rule or is a close |
| `WsViolations.NoSecondClose` | src/main/resources/websockify/websockify/websocket.py:512-535 | once our close frame is queued no frame draws another, and only pings are still answered |
| `WsOutcomes.FlushTakes` | src/main/resources/websockify/websockify/websocket.py:695-717 | one flush, for every state and answer of the socket: how many bytes leave the buffer, how it ends, and when exactly the socket goes |
| `WsOutcomes.SendMsgEnds` | src/main/resources/websockify/websockify/websocket.py:416-448 | what sendmsg returns and raises in every state, and what it leaves pending |
| `WsOutcomes.ShutdownEnds` | src/main/resources/websockify/websockify/websocket.py:512-547 | the close code after a shutdown, and that a code beyond 16 bits raises exactly in the first shutdown, with the close marked as sent and none queued |
| `WsOutcomes.CloseEndsAll` | src/main/resources/websockify/websockify/websocket.py:549-561 | close raises what its shutdown raises and then leaves the socket alone; otherwise the socket is gone |
| `WsOutcomes.HangUp` | src/main/resources/websockify/websockify/websocket.py:589-597 | when the peer hangs up without a close code the connection counts as closed abnormally by both sides, with code 1006 |
| `WsOutcomes.RecvAfterClose` | src/main/resources/websockify/websockify/websocket.py:365-368 | once the peer has closed, recvmsg reads nothing: it flushes, and reports the end if and only if that is done |
| `WsOutcomes.CloseConfirmed` | src/main/resources/websockify/websockify/websocket.py:648-650 | a close frame that answers ours closes the socket, or finds it gone |
| `WsOutcomes.ClosedMeansOver` | src/main/resources/websockify/websockify/websocket.py:642-677 | for every state and socket: a frame is reported as the end only when both sides have closed and the socket is gone, with everything sent unless our close frame was the first |
| `WebSocketClass.WebSocket.constructor` | src/main/resources/websockify/websockify/websocket.py:71-90 | a new endpoint holds nothing, has no socket, and satisfies the sending invariant |
| `WebSocketClass.WebSocket.Attach` | src/main/resources/websockify/websockify/websocket.py:251-252 | the socket is set and nothing else; with a willing one the connection is as the run theorems want it |
| `WebSocketClass.WebSocket.CloseNow` | src/main/resources/websockify/websockify/websocket.py:741-744 | closing the socket a second time fails |
| `WebSocketClass.WebSocket.FlushBuffer` | src/main/resources/websockify/websockify/websocket.py:695-717 | new state and outcome are those of the flush step |
| `WebSocketClass.WebSocket.SendOneFrame` | src/main/resources/websockify/websockify/websocket.py:729-739 | new state and outcome are those of queueing one frame |
| `WebSocketClass.WebSocket.SendControl` | src/main/resources/websockify/websockify/websocket.py:462-510 | ping and pong with their retry rule |
| `WebSocketClass.WebSocket.Sendmsg` | src/main/resources/websockify/websockify/websocket.py:416-448 | new state, outcome and count are those of the sendmsg step |
| `WebSocketClass.WebSocket.SendShutdown` | src/main/resources/websockify/websockify/websocket.py:512-547 | new state and outcome are those of the shutdown step, the payload built from code and reason |
| `WebSocketClass.WebSocket.Close` | src/main/resources/websockify/websockify/websocket.py:549-561 | new state and outcome are those of the close step |
| `WebSocketClass.WebSocket.ReadSocket` | src/main/resources/websockify/websockify/websocket.py:563-587 | the reading loop refines the receive step |
| `WebSocketClass.WebSocket.DecodeFrames` | src/main/resources/websockify/websockify/websocket.py:599-604 | the decoding loop moves exactly the complete frames to the queue |
| `WebSocketClass.WebSocket.ReceiveFrames` | src/main/resources/websockify/websockify/websocket.py:589-606 | new state and outcome are those of the receive-frames step |
| `WebSocketClass.WebSocket.HandleClose` | src/main/resources/websockify/websockify/websocket.py:642-677 | new state and result are those of the close step |
| `WebSocketClass.WebSocket.HandleFrame` | src/main/resources/websockify/websockify/websocket.py:613-691 | new state and result are those of the frame step |
| `WebSocketClass.WebSocket.ProcessFrames` | src/main/resources/websockify/websockify/websocket.py:608-693 | the queue loop refines the recursive specification |
| `WebSocketClass.WebSocket.Recvmsg` | src/main/resources/websockify/websockify/websocket.py:349-383 | new state and result are those of the recvmsg step |
| `ReceiveQueue.GrownSize` | src/main/resources/static/js/viewer/noVNC-1.4.0/core/websock.js:300-315 | the new size never exceeds 40 MiB and fits the unread and new bytes whenever the limit allows |
| `ReceiveQueue.ShiftedIsUnsigned` | src/main/resources/static/js/viewer/noVNC-1.4.0/core/websock.js:138-145 | a shifted number is the big-endian one if and only if it is shorter than four bytes or its top bit is clear |
| `ReceiveQueue.ShiftTurn` | src/main/resources/static/js/viewer/noVNC-1.4.0/core/websock.js:141-143 | what each byte of a shift adds, the first of four possibly as a negative number |
| `ReceiveQueue.Websock.CopyWithin` | src/main/resources/static/js/viewer/noVNC-1.4.0/core/websock.js:322 | the overlapping in-place move puts the unread bytes at the front |
| `ReceiveQueue.Websock.Reallocate` | src/main/resources/static/js/viewer/noVNC-1.4.0/core/websock.js:318-320 | a new array starts with the unread bytes |
| `ReceiveQueue.Websock.ExpandCompact` | src/main/resources/static/js/viewer/noVNC-1.4.0/core/websock.js:297-327 | compaction and growth keep the unread bytes and make room; it throws if and only if unread plus new bytes exceed 40 MiB |
| `ReceiveQueue.Websock.DecodeMessage` | src/main/resources/static/js/viewer/noVNC-1.4.0/core/websock.js:330-337 | appending a message extends the unread bytes by exactly it, or throws exactly at the limit |
| `ReceiveQueue.Websock.RecvMessage` | src/main/resources/static/js/viewer/noVNC-1.4.0/core/websock.js:339-352 | after the handler took some bytes the rest is unread, and an empty queue starts again at index 0 |
| `ReceiveQueue.Websock.Wait` | src/main/resources/static/js/viewer/noVNC-1.4.0/core/websock.js:178-189 | waiting is true exactly when bytes are missing, and rollback restores what was read |
| `ReceiveQueue.Websock.SkipBytes` | src/main/resources/static/js/viewer/noVNC-1.4.0/core/websock.js:122-124 | skipping drops from the front |
| `ReceiveQueue.Websock.ShiftBytes` | src/main/resources/static/js/viewer/noVNC-1.4.0/core/websock.js:158-162 | shifting returns and drops the front |
| `ReceiveQueue.Websock.Shift` | src/main/resources/static/js/viewer/noVNC-1.4.0/core/websock.js:126-145 | shift8, shift16 and shift32 return the signed JavaScript value and drop its bytes |
| `ReceiveQueue.Websock.ReadOrRollBack` | src/main/resources/static/js/viewer/noVNC-1.4.0/core/websock.js:178-189 | a header read and then rolled back leaves the message start untouched |
| `DisplayProofs.FlipShowsAll` | src/main/resources/static/js/viewer/noVNC-1.4.0/core/display.js:257-301 | an executed flip makes every opaque viewport pixel visible and keeps the damage invariant |
| `DisplayProofs.RefreshedAt` | src/main/resources/static/js/viewer/noVNC-1.4.0/core/display.js:257-301 | per viewport pixel: a flip copies the painted part of the damage, and nothing else |
| `DisplayProofs.FlipIsExact` | src/main/resources/static/js/viewer/noVNC-1.4.0/core/display.js:257-301 | after a flip a pixel mirrors the backbuffer if and only if it is not a stale transparent one |
| `DisplayProofs.DamageCovers` | src/main/resources/static/js/viewer/noVNC-1.4.0/core/display.js:240-253 | the damage bounds keep what they covered and cover the new rectangle |
| `DisplayProofs.DrawInBoxKeeps` | src/main/resources/static/js/viewer/noVNC-1.4.0/core/display.js:323-330 | drawing inside a rectangle that is then damaged keeps the invariant |
| `DisplayProofs.ExecuteKeeps` | src/main/resources/static/js/viewer/noVNC-1.4.0/core/display.js:481-513 | every queued action keeps: visible canvas equals backbuffer on every viewport pixel outside the damage |
| `DisplayProofs.PictureLands` | src/main/resources/static/js/viewer/noVNC-1.4.0/core/display.js:408-411 | where each painted pixel of a loaded image lands |
| `DisplayProofs.ScanKeeps` | src/main/resources/static/js/viewer/noVNC-1.4.0/core/display.js:479-524 | scanning the render queue keeps the damage invariant |
| `DisplayProofs.PushKeeps` | src/main/resources/static/js/viewer/noVNC-1.4.0/core/display.js:463-470 | pushing an action keeps it |
| `DisplayProofs.SubmitKeeps` | src/main/resources/static/js/viewer/noVNC-1.4.0/core/display.js:315-361 | a drawing call keeps it |
| `DisplayProofs.BlitKeeps` | src/main/resources/static/js/viewer/noVNC-1.4.0/core/display.js:382-406 | a blit with any offset keeps it |
| `DisplayProofs.ChangePosKeeps` | src/main/resources/static/js/viewer/noVNC-1.4.0/core/display.js:96-136 | moving the viewport damages all of it, so the invariant holds again |
| `DisplayProofs.ChangeSizeKeeps` | src/main/resources/static/js/viewer/noVNC-1.4.0/core/display.js:138-177 | resizing the viewport clears the canvas and damages all of it |
| `DisplayProofs.SetClipKeeps` | src/main/resources/static/js/viewer/noVNC-1.4.0/core/display.js:78-84 | switching clipping keeps it |
| `DisplayProofs.ResizeKeeps` | src/main/resources/static/js/viewer/noVNC-1.4.0/core/display.js:193-225 | resizing the framebuffer keeps it |
| `DisplayRuns.ScanDraws` | src/main/resources/static/js/viewer/noVNC-1.4.0/core/display.js:479-524 | the scan takes actions from the front only, and announces a flush only with an empty queue |
| `DisplayRuns.PushDraws` | src/main/resources/static/js/viewer/noVNC-1.4.0/core/display.js:463-470 | a pushed action goes behind all waiting ones |
| `DisplayRuns.SubmitInOrder` | src/main/resources/static/js/viewer/noVNC-1.4.0/core/display.js:315-361 | what was drawn followed by what waits grows by exactly the action asked for |
| `DisplayRuns.BlitAdded` | src/main/resources/static/js/viewer/noVNC-1.4.0/core/display.js:382-406 | the action a blit really adds: from its offset if nothing waits, from the start of the buffer otherwise, none if the view leaves the buffer |
| `DisplayRuns.BlitInOrder` | src/main/resources/static/js/viewer/noVNC-1.4.0/core/display.js:382-406 | a blit adds what was asked for if and only if nothing waits, it throws, or the buffer agrees at offset and start |
| `DisplayRuns.PictureInOrder` | src/main/resources/static/js/viewer/noVNC-1.4.0/core/display.js:363-380 | an image waits its turn |
| `DisplayRuns.LoadedInOrder` | src/main/resources/static/js/viewer/noVNC-1.4.0/core/display.js:472-477 | images loading in any order do not reorder anything |
| `DisplayRuns.FlushInOrder` | src/main/resources/static/js/viewer/noVNC-1.4.0/core/display.js:307-313 | a flush request is answered now or when the queue is empty |
| `DisplayRuns.ChangePosInOrder` | src/main/resources/static/js/viewer/noVNC-1.4.0/core/display.js:96-136 | moving the viewport draws nothing but its own flip |
| `DisplayRuns.ResizeInOrder` | src/main/resources/static/js/viewer/noVNC-1.4.0/core/display.js:193-225 | a resize draws nothing but its own flips, and the backbuffer starts again from the resized picture |
| `DisplayRuns.ApplyKeeps` | src/main/resources/static/js/viewer/noVNC-1.4.0/core/display.js:78-411 | every call, a blit at any offset included, keeps damage, replay and flush invariants, and adds what was asked for if and only if it is not a blit read from the wrong place |
| `DisplayRuns.RunKeeps` | src/main/resources/static/js/viewer/noVNC-1.4.0/core/display.js:78-411 | every run of calls keeps them; what it adds is what was asked for if and only if each blit meets an empty queue or finds its pixels at the start of its buffer |
| `DisplayRuns.InOrderFromTheStart` | src/main/resources/static/js/viewer/noVNC-1.4.0/core/display.js:78-411 | in every run of a new display drawing is in order if and only if its blits are such |
| `DisplayProgress.ScanRests` | src/main/resources/static/js/viewer/noVNC-1.4.0/core/display.js:479-524 | a scan rests only at an empty queue, at an image it listens for, or at one of the wrong size |
| `DisplayProgress.RunWaits` | src/main/resources/static/js/viewer/noVNC-1.4.0/core/display.js:463-524 | so does the queue in every state of every run |
| `DisplayProgress.LoadedWaits` | src/main/resources/static/js/viewer/noVNC-1.4.0/core/display.js:472-477 | in particular after an image has loaded, whichever it was |
| `DisplayProgress.RunDrawsDrawable` | src/main/resources/static/js/viewer/noVNC-1.4.0/core/display.js:495-511 | in every run whatever was drawn of an image was drawn after it had loaded with its right size |
| `DisplayProgress.RunFlushes` | src/main/resources/static/js/viewer/noVNC-1.4.0/core/display.js:307-313 | in every run each flush request that finds none outstanding is answered by one onflush of its own, or is the one outstanding |
| `DisplayProgress.LoadedMeansDrained` | src/main/resources/static/js/viewer/noVNC-1.4.0/core/display.js:463-524 | progress: in every run of a new display, once every queued image has loaded with its right size, the queue is empty, everything asked for has been drawn, and every flush is answered |
| `DisplayViewport.ChangePosInsideIff` | src/main/resources/static/js/viewer/noVNC-1.4.0/core/display.js:96-131 | a move ends inside the framebuffer if and only if the viewport fits and the horizontal delta asked for is negative or its target is not |
| `DisplayViewport.MoveEndsAt` | src/main/resources/static/js/viewer/noVNC-1.4.0/core/display.js:96-131 | where every move ends, on both axes: as near to the place asked for as the framebuffer allows, a viewport left of it and not asked to the left excepted |
| `DisplayViewport.ChangeSizeInsideIff` | src/main/resources/static/js/viewer/noVNC-1.4.0/core/display.js:138-177 | a new viewport size always fits, and exactly when it ends inside |
| `DisplayViewport.SetClipInsideIff` | src/main/resources/static/js/viewer/noVNC-1.4.0/core/display.js:78-84 | switching clipping ends inside if and only if the position was not negative, or clipping goes off and the framebuffer has a width |
| `DisplayViewport.ResizeInsideIff` | src/main/resources/static/js/viewer/noVNC-1.4.0/core/display.js:193-225 | for every state: a resize ends inside if and only if the position was not negative, or clipping is off and the new width is not zero |
| `DisplayViewport.MoveInside` | src/main/resources/static/js/viewer/noVNC-1.4.0/core/display.js:96-131 | a viewport inside stays inside when it is moved |
| `DisplayViewport.ViewportCanEscape` | src/main/resources/static/js/viewer/noVNC-1.4.0/core/display.js:111-120 | counterexample: moved before the first resize the viewport is at -300, and with clipping on no resize brings it inside |
| `DisplayRuns.RunInside` | src/main/resources/static/js/viewer/noVNC-1.4.0/core/display.js:78-411 | once inside, the viewport stays inside in every run |
| `DisplayRuns.InsideFromResize` | src/main/resources/static/js/viewer/noVNC-1.4.0/core/display.js:193-225 | in every run the viewport is inside right after a resize if and only if it was not left of the framebuffer or clipping was off and the width is not zero, and then for good |
| `DisplayResizes.CommutesIff` | src/main/resources/static/js/viewer/noVNC-1.4.0/core/display.js:193-225 | for every action and all sizes: drawing it after a resize makes the picture that drawing it before would, whatever the picture, if and only if at no point of the new picture it paints where the old one had no pixel, or as a copy loses or gains its source |
| `DisplayResizes.FillCommutesIff` | src/main/resources/static/js/viewer/noVNC-1.4.0/core/display.js:193-225 | for a fill: if and only if whatever of it the new size shows, the old size had |
| `DisplayResizes.CopyCommutesIff` | src/main/resources/static/js/viewer/noVNC-1.4.0/core/display.js:332-361 | for a copy: if and only if each target the old size had keeps its source, and no new one has a source |
| `DisplayResizes.InsideSurvives` | src/main/resources/static/js/viewer/noVNC-1.4.0/core/display.js:193-225 | everything that waits may be overtaken if its boxes, and the sources of copies, lie in the part that the resize keeps |
| `DisplayHistory.ResizeDrawsLater` | src/main/resources/static/js/viewer/noVNC-1.4.0/core/display.js:193-225 | what waits when a resize comes is drawn afterwards, on the resized picture |
| `DisplayHistory.ResizeCommutes` | src/main/resources/static/js/viewer/noVNC-1.4.0/core/display.js:193-225 | a resize does to the eventual picture what it does to the backbuffer if every waiting action survives being overtaken |
| `DisplayHistory.OvertakenIff` | src/main/resources/static/js/viewer/noVNC-1.4.0/core/display.js:193-225 | over all states in which one action waits: a resize gives the resized eventual picture if and only if the action survives |
| `DisplayHistory.StepPaints` | src/main/resources/static/js/viewer/noVNC-1.4.0/core/display.js:315-411 | a call makes of the eventual picture what it asks for, unless it is a blit read from the wrong place or a resize that overtakes an action which does not survive that |
| `DisplayHistory.SessionPaints` | src/main/resources/static/js/viewer/noVNC-1.4.0/core/display.js:463-524 | from every reachable state: with faithful blits and resizes that overtake only actions which survive it, the eventual picture is that of the calls carried out in turn |
| `DisplayHistory.DrainedAsImmediate` | src/main/resources/static/js/viewer/noVNC-1.4.0/core/display.js:463-524 | such a session of a new display: a drained queue has drawn everything in order and leaves the picture that the calls ask for |
| `DisplayHistory.RunStaysEmpty` | src/main/resources/static/js/viewer/noVNC-1.4.0/core/display.js:315-411 | without images nothing ever waits |
| `DisplayHistory.NoImagesAsImmediate` | src/main/resources/static/js/viewer/noVNC-1.4.0/core/display.js:315-411 | without images every session, whatever its offsets, moves and resizes, leaves the picture that the calls ask for |
| `DisplayHistory.ResizeOvertakesCopy` | src/main/resources/static/js/viewer/noVNC-1.4.0/core/display.js:193-225 | counterexample: a resize overtakes a waiting copy that does not survive it, because its source is cut off |
| `DisplayHistory.OvertakingIsReachable` | src/main/resources/static/js/viewer/noVNC-1.4.0/core/display.js:193-225 | and a new display gets there with one resize and one fill |
| `DisplayFlips.FlipMirrorsIff` | src/main/resources/static/js/viewer/noVNC-1.4.0/core/display.js:257-301 | after a flip the visible canvas is the whole viewport, pixel for pixel, if and only if it showed nothing over unpainted pixels |
| `DisplayFlips.FlipsMirrorPainted` | src/main/resources/static/js/viewer/noVNC-1.4.0/core/display.js:257-301 | once the framebuffer is painted everywhere, every flip of every run without resizes and transparent blits makes the visible canvas the viewport |
| `DisplayFlips.MoveKeepsStale` | src/main/resources/static/js/viewer/noVNC-1.4.0/core/display.js:96-136 | over unpainted pixels a moved viewport shows what it showed before |
| `DisplayFlips.StaleAfterMove` | src/main/resources/static/js/viewer/noVNC-1.4.0/core/display.js:96-136 | counterexample: a run from a new display whose last flip leaves the left half standing over the unpainted right half |
| `DisplayFlips.FlipAtOnce` | src/main/resources/static/js/viewer/noVNC-1.4.0/core/display.js:257-301 | with nothing waiting a flip shows every painted pixel of the viewport |
| `DisplayMoves.NewViewportIsShown` | src/main/resources/static/js/viewer/noVNC-1.4.0/core/display.js:78-225 | a call that changes the viewport ends with a flip, and when nothing waits the new viewport is visible at once with no damage left |
| `Canvas.FillAt` | src/main/resources/static/js/viewer/noVNC-1.4.0/core/display.js:315-330 | a filled rectangle, pixel by pixel |
| `Canvas.PutAt` | src/main/resources/static/js/viewer/noVNC-1.4.0/core/display.js:382-406 | where each pixel of a blit lands |
| `Canvas.DrawAt` | src/main/resources/static/js/viewer/noVNC-1.4.0/core/display.js:332-361 | where each painted pixel of a copied picture lands |
| `DisplayClass.DisplayObject.constructor` | src/main/resources/static/js/viewer/noVNC-1.4.0/core/display.js:13-68 | the screen before the first resize |
| `DisplayClass.DisplayObject.RecordDamage` | src/main/resources/static/js/viewer/noVNC-1.4.0/core/display.js:240-253 | the four comparisons compute the joined bounds |
| `DisplayClass.DisplayObject.FlipNow` | src/main/resources/static/js/viewer/noVNC-1.4.0/core/display.js:262-300 | the visible canvas gets the damaged part of the viewport, and the damage is cleared |
| `DisplayClass.DisplayObject.DrawNow` | src/main/resources/static/js/viewer/noVNC-1.4.0/core/display.js:481-513 | one action changes the screen as specified |
| `DisplayClass.DisplayObject.Scan` | src/main/resources/static/js/viewer/noVNC-1.4.0/core/display.js:479-524 | the scanning loop refines the recursive specification |
| `DisplayClass.DisplayObject.PushAction` | src/main/resources/static/js/viewer/noVNC-1.4.0/core/display.js:463-470 | pushing appends, and scans only a queue of one |
| `DisplayClass.DisplayObject.FillRect` | src/main/resources/static/js/viewer/noVNC-1.4.0/core/display.js:315-330 | fills now, or queues the fill behind what waits |
| `DisplayClass.DisplayObject.CopyImage` | src/main/resources/static/js/viewer/noVNC-1.4.0/core/display.js:332-361 | copies now, or queues the copy behind what waits |
| `DisplayClass.DisplayObject.BlitImage` | src/main/resources/static/js/viewer/noVNC-1.4.0/core/display.js:382-406 | blits now, or queues a copy of the buffer that ignores the offset; a view that leaves the buffer throws and draws nothing |
| `DisplayClass.DisplayObject.ImageRect` | src/main/resources/static/js/viewer/noVNC-1.4.0/core/display.js:363-380 | queues an image unless it is empty |
| `DisplayClass.DisplayObject.OnImageLoaded` | src/main/resources/static/js/viewer/noVNC-1.4.0/core/display.js:472-477 | a loaded image resumes the queue |
| `DisplayClass.DisplayObject.FlushQueue` | src/main/resources/static/js/viewer/noVNC-1.4.0/core/display.js:307-313 | a flush request is answered now or remembered |
| `DisplayClass.DisplayObject.ViewportChangePos` | src/main/resources/static/js/viewer/noVNC-1.4.0/core/display.js:96-136 | the new screen is that of the clamped move, damaged and flipped |
| `DisplayClass.DisplayObject.ViewportChangeSize` | src/main/resources/static/js/viewer/noVNC-1.4.0/core/display.js:138-177 | the new screen is that of the clamped size, damaged and flipped |
| `DisplayClass.DisplayObject.SetClipViewport` | src/main/resources/static/js/viewer/noVNC-1.4.0/core/display.js:78-84 | the new screen is that of the clip setter |
| `DisplayClass.DisplayObject.ResizeTo` | src/main/resources/static/js/viewer/noVNC-1.4.0/core/display.js:193-225 | the new screen is that of the framebuffer resize |
| `RawDecoder.UnitExtends` | src/main/resources/static/js/viewer/noVNC-1.4.0/core/decoders/raw.js:27-29 | a line that could be drawn is drawn the same with more bytes behind it |
| `RawDecoder.PutLinesIsBlit` | src/main/resources/static/js/viewer/noVNC-1.4.0/core/decoders/raw.js:57 | lines drawn one by one are one blit |
| `RawDecoder.LinesAtOnce` | src/main/resources/static/js/viewer/noVNC-1.4.0/core/decoders/raw.js:31-62 | drawing all lines that have arrived at once equals drawing them one at a time |
| `RawDecoder.LinesArrived` | src/main/resources/static/js/viewer/noVNC-1.4.0/core/decoders/raw.js:31-34 | how many whole lines are there, and that what is left is less than one |
| `RawDecoder.LinesThenBlocked` | src/main/resources/static/js/viewer/noVNC-1.4.0/core/decoders/raw.js:59-62 | after the last whole line the decoder waits with the rest |
| `RawDecoder.Raw.ConvertPixels` | src/main/resources/static/js/viewer/noVNC-1.4.0/core/decoders/raw.js:40-55 | the loops widen 8-bit pixels and make 32-bit ones opaque |
| `RawDecoder.Raw.DecodeRect` | src/main/resources/static/js/viewer/noVNC-1.4.0/core/decoders/raw.js:15-65 | the resumable method refines the line-by-line decoder |
| `CopyRectDecoder.UnitExtends` | src/main/resources/static/js/viewer/noVNC-1.4.0/core/decoders/copyrect.js:11-26 | a copy does not depend on the bytes behind it |
| `CopyRectDecoder.CopyRect.DecodeRect` | src/main/resources/static/js/viewer/noVNC-1.4.0/core/decoders/copyrect.js:11-26 | waits for four bytes, then copies |
| `RreDecoder.UnitExtends` | src/main/resources/static/js/viewer/noVNC-1.4.0/core/decoders/rre.js:15-43 | a step does not depend on the bytes behind it |
| `RreDecoder.CountReachesZero` | src/main/resources/static/js/viewer/noVNC-1.4.0/core/decoders/rre.js:27-40 | a positive count is counted down to zero |
| `RreDecoder.ReadyAfterwards` | src/main/resources/static/js/viewer/noVNC-1.4.0/core/decoders/rre.js:16-42 | the decoder is ready for the next rectangle if and only if the count was below 2^31 |
| `RreDecoder.StaleCountSkips` | src/main/resources/static/js/viewer/noVNC-1.4.0/core/decoders/rre.js:16-21 | after a count of 2^31 or more the next rectangle is reported done without reading a byte |
| `RreDecoder.Rre.DecodeRect` | src/main/resources/static/js/viewer/noVNC-1.4.0/core/decoders/rre.js:15-43 | the resumable loop refines the step-by-step decoder |
| `HextileDecoder.TilesPartition` | src/main/resources/static/js/viewer/noVNC-1.4.0/core/decoders/hextile.js:20-49 | the visited tiles partition the rectangle: each pixel lies in exactly one tile, the one its position names |
| `HextileDecoder.DrawTileExtends` | src/main/resources/static/js/viewer/noVNC-1.4.0/core/decoders/hextile.js:51-142 | a complete tile is drawn the same with more bytes behind it |
| `HextileDecoder.UnitExtends` | src/main/resources/static/js/viewer/noVNC-1.4.0/core/decoders/hextile.js:19-142 | one turn of the loop does not depend on the bytes behind it |
| `HextileDecoder.DrawTileKeepsCount` | src/main/resources/static/js/viewer/noVNC-1.4.0/core/decoders/hextile.js:81-138 | drawing a tile does not touch the tile counters |
| `HextileClass.Hextile.StartTile` | src/main/resources/static/js/viewer/noVNC-1.4.0/core/decoders/hextile.js:145-162 | fills the used part of the scratch buffer |
| `HextileClass.Hextile.SubTile` | src/main/resources/static/js/viewer/noVNC-1.4.0/core/decoders/hextile.js:165-183 | paints a subrectangle; writes behind the buffer are ignored |
| `HextileClass.Hextile.SubTiles` | src/main/resources/static/js/viewer/noVNC-1.4.0/core/decoders/hextile.js:109-133 | the subrectangle loop paints all of them in order |
| `HextileClass.Hextile.ColouredTile` | src/main/resources/static/js/viewer/noVNC-1.4.0/core/decoders/hextile.js:98-135 | a tile that is not raw updates colours and scratch buffer as specified, or throws |
| `HextileClass.Hextile.OneTile` | src/main/resources/static/js/viewer/noVNC-1.4.0/core/decoders/hextile.js:81-138 | one complete tile is drawn as specified |
| `HextileClass.Hextile.DecodeRect` | src/main/resources/static/js/viewer/noVNC-1.4.0/core/decoders/hextile.js:19-142 | the resumable tile loop refines the step-by-step decoder |
| `HextileMeaning.PaintSubsMatches` | src/main/resources/static/js/viewer/noVNC-1.4.0/core/decoders/hextile.js:109-133 | painting into the scratch buffer is painting on the picture |
| `HextileMeaning.BlitIsOverpaint` | src/main/resources/static/js/viewer/noVNC-1.4.0/core/decoders/hextile.js:108-134 | blitting the scratch buffer is filling with the background and overpainting in order |
| `HextileMeaning.CodedLayout` | src/main/resources/static/js/viewer/noVNC-1.4.0/core/decoders/hextile.js:51-107 | where colours, count and subrectangles stand in every subencoding |
| `HextileMeaning.CodedTileExpected` | src/main/resources/static/js/viewer/noVNC-1.4.0/core/decoders/hextile.js:51-79 | the byte count peeked for a tile is the size of its encoding in every subencoding |
| `HextileMeaning.TileDecodes` | src/main/resources/static/js/viewer/noVNC-1.4.0/core/decoders/hextile.js:27-139 | a well-formed tile is drawn as the background overpainted in order, consumes exactly its bytes, and passes on the colours |
| `HextileMeaning.BlankTileIff` | src/main/resources/static/js/viewer/noVNC-1.4.0/core/decoders/hextile.js:83-89 | a blank tile is drawn as the background it means if and only if the tile before it was not raw or it shows only background already; the colours are carried on either way |
| `RfbMachine.StepExtends` | src/main/resources/static/js/viewer/noVNC-1.4.0/core/rfb.js:2527-2562 | a step that could be taken is taken the same with more bytes behind |
| `RfbMachine.RunResumes` | src/main/resources/static/js/viewer/noVNC-1.4.0/core/rfb.js:2527-2567 | stopping for lack of bytes and going on is the same as having had them |
| `RfbMachine.UpdatesAreChunkIndependent` | src/main/resources/static/js/viewer/noVNC-1.4.0/core/rfb.js:2461-2567 | for every split of a byte stream into arrivals the client ends with the same framebuffer, decoder states and unread bytes as when all arrive at once |
| `RfbMachine.CutsAgree` | src/main/resources/static/js/viewer/noVNC-1.4.0/core/rfb.js:2461-2567 | two ways of cutting one stream end in the same state |
| `RfbClient.Client.HandleRect` | src/main/resources/static/js/viewer/noVNC-1.4.0/core/rfb.js:2569-2598 | a rectangle is done or waits as in the machine |
| `RfbClient.Client.HandleDataRect` | src/main/resources/static/js/viewer/noVNC-1.4.0/core/rfb.js:2847-2864 | the decoder chosen leaves the state the machine reaches |
| `RfbClient.Client.FramebufferUpdate` | src/main/resources/static/js/viewer/noVNC-1.4.0/core/rfb.js:2527-2567 | the resumable rectangle loop |
| `RfbClient.Client.NormalMsg` | src/main/resources/static/js/viewer/noVNC-1.4.0/core/rfb.js:2461-2517 | one message is handled as the machine handles it |
| `RfbClient.Client.HandleMessage` | src/main/resources/static/js/viewer/noVNC-1.4.0/core/rfb.js:961-995 | handles messages until the machine waits |
| `RfbClient.Client.OnData` | src/main/resources/static/js/viewer/noVNC-1.4.0/core/rfb.js:961-995 | an arrival leaves the client in the state of the machine run on it |
| `RfbClient.RawLeadsTo` | src/main/resources/static/js/viewer/noVNC-1.4.0/core/decoders/raw.js:15-65 | the raw decoder run to its end is the machine run to its end |
| `RfbClient.RreLeadsTo` | src/main/resources/static/js/viewer/noVNC-1.4.0/core/decoders/rre.js:15-43 | the RRE decoder run to its end is the machine run to its end |
| `RfbClient.HextileLeadsTo` | src/main/resources/static/js/viewer/noVNC-1.4.0/core/decoders/hextile.js:19-142 | the Hextile decoder run to its end is the machine run to its end |
| `RfbMeaning.HeaderRuns` | src/main/resources/static/js/viewer/noVNC-1.4.0/core/rfb.js:2543-2554 | a rectangle header is read back |
| `RfbMeaning.RawRuns` | src/main/resources/static/js/viewer/noVNC-1.4.0/core/decoders/raw.js:15-65 | an encoded raw rectangle is drawn as its pixels |
| `RfbMeaning.Raw8Runs` | src/main/resources/static/js/viewer/noVNC-1.4.0/core/decoders/raw.js:40-50 | at a depth of eight bits too, two bits a channel |
| `RfbMeaning.CopyRuns` | src/main/resources/static/js/viewer/noVNC-1.4.0/core/decoders/copyrect.js:11-26 | an encoded copy is drawn as the copy |
| `RfbMeaning.RreRuns` | src/main/resources/static/js/viewer/noVNC-1.4.0/core/decoders/rre.js:15-43 | an encoded RRE rectangle is drawn as background and subrectangles in order |
| `RfbMeaning.HextileRuns` | src/main/resources/static/js/viewer/noVNC-1.4.0/core/decoders/hextile.js:19-142 | encoded tiles are drawn as their meaning, colours carried from tile to tile |
| `RfbMeaning.RectRuns` | src/main/resources/static/js/viewer/noVNC-1.4.0/core/rfb.js:2569-2598 | an encoded rectangle of any of the four encodings, or a new desktop size, is drawn and leaves the client ready |
| `RfbMeaning.LastRectRuns` | src/main/resources/static/js/viewer/noVNC-1.4.0/core/rfb.js:2571-2573 | however many rectangles are still announced, the header of a last rectangle ends the update |
| `RfbMeaning.BellRuns` | src/main/resources/static/js/viewer/noVNC-1.4.0/core/rfb.js:2482-2487 | a bell changes nothing |
| `RfbMeaning.UpdateRuns` | src/main/resources/static/js/viewer/noVNC-1.4.0/core/rfb.js:2527-2567 | an encoded update is drawn, be its number of rectangles announced exactly or larger and cut short by a last rectangle |
| `RfbMeaning.ClientDrawsTheUpdates` | src/main/resources/static/js/viewer/noVNC-1.4.0/core/rfb.js:961-995 | end to end: any sequence of bells and encoded updates, cut into arrivals anywhere, ends with the picture its meaning says and no byte left |
| `RfbFailures.TileFailsIff` | src/main/resources/static/js/viewer/noVNC-1.4.0/core/decoders/hextile.js:81-134 | a tile that is all there fails if and only if it falls back on a colour that was never set |
| `RfbFailures.FailsExactlyWhen` | src/main/resources/static/js/viewer/noVNC-1.4.0/core/rfb.js:2513-2598 | a step fails the connection if and only if it meets another message, another encoding, an illegal tile, or one that needs a colour never set |
| `RfbDisplay.StepPaints` | src/main/resources/static/js/viewer/noVNC-1.4.0/core/rfb.js:2527-2598 | the drawing a step of the update loop asks the display for is the drawing it does |
| `RfbDisplay.BackbufferIsFramebuffer` | src/main/resources/static/js/viewer/noVNC-1.4.0/core/rfb.js:2527-2598 | for every state of the loop and every way its bytes arrive: on a display where nothing waits nothing ever waits, and the backbuffer is the framebuffer the decoders draw |
| `RfbDisplay.RunEndsWithFlip` | src/main/resources/static/js/viewer/noVNC-1.4.0/core/rfb.js:2527-2567 | between updates the last call to the display was a flip |
| `RfbDisplay.UpdatesAreShown` | src/main/resources/static/js/viewer/noVNC-1.4.0/core/rfb.js:961-995 | from the bytes to the screen: after any sequence of encoded updates, cut anywhere, the backbuffer is their meaning, no damage is left, and every painted pixel in the viewport is visible |
| `Zrle.LengthRoundTrip` | src/main/resources/static/js/viewer/noVNC-1.4.0/core/decoders/zrle.js:176-184 | every run length is read back from its encoding |
| `Zrle.LengthIsCanonical` | src/main/resources/static/js/viewer/noVNC-1.4.0/core/decoders/zrle.js:176-184 | what was consumed is the encoding of the length read: no other byte string gives it |
| `Zrle.SpansDecode` | src/main/resources/static/js/viewer/noVNC-1.4.0/core/decoders/zrle.js:127-142 | the run-length loop inverts the encoder of plain runs |
| `Zrle.TokensDecode` | src/main/resources/static/js/viewer/noVNC-1.4.0/core/decoders/zrle.js:144-174 | the palette run-length loop inverts the encoder of palette runs |
| `Zrle.GuardIsOffByOne` | src/main/resources/static/js/viewer/noVNC-1.4.0/core/decoders/zrle.js:158-160 | the guard refuses an index if and only if it is greater than the palette size; equal to it passes |
| `Zrle.PaletteAlone` | src/main/resources/static/js/viewer/noVNC-1.4.0/core/decoders/zrle.js:144-174 | if no index equals the palette size the tile depends on the palette alone |
| `Zrle.StalePixelShows` | src/main/resources/static/js/viewer/noVNC-1.4.0/core/decoders/zrle.js:158-172 | if one does, what an earlier read left behind the palette shows in the tile |
| `PackedPixels.BitsPerPixel` | src/main/resources/static/js/viewer/noVNC-1.4.0/core/decoders/zrle.js:73-81 | the least of 1, 2 and 4 bits that tells the colours of the palette apart |
| `PackedPixels.RowUnpacks` | src/main/resources/static/js/viewer/noVNC-1.4.0/core/decoders/zrle.js:104-119 | each column of a packed row gives its index back |
| `PackedPixels.RowsUnpack` | src/main/resources/static/js/viewer/noVNC-1.4.0/core/decoders/zrle.js:104-123 | packed rows take height times ceil(width * bits / 8) bytes and give every pixel its row-padded field back |
| `ZrleTiles.WidthsAgree` | src/main/resources/static/js/viewer/noVNC-1.4.0/core/decoders/zrle.js:73-81 | it is the field width that section 7.7.6 of RFC 6143 gives for that number of colours |
| `ZrleTiles.TilesCover` | src/main/resources/static/js/viewer/noVNC-1.4.0/core/decoders/zrle.js:39-43 | tiles of 64 by 64 pixels cover every column and row exactly once |
| `ZrleTiles.PackedDecodes` | src/main/resources/static/js/viewer/noVNC-1.4.0/core/decoders/zrle.js:95-125 | a packed tile decodes to the palette colours of its indices |
| `ZrleTiles.TileRoundTrip` | src/main/resources/static/js/viewer/noVNC-1.4.0/core/decoders/zrle.js:45-66 | every well-formed tile of every subencoding decodes to its pixels, whatever follows |
| `ZrleTiles.RectRoundTrip` | src/main/resources/static/js/viewer/noVNC-1.4.0/core/decoders/zrle.js:39-68 | a rectangle of well-formed tiles is drawn tile by tile and leaves the bytes after it |
| `ZrleTiles.ThrowEndsIt` | src/main/resources/static/js/viewer/noVNC-1.4.0/core/decoders/zrle.js:39-68 | a rectangle comes through if and only if every tile of it decodes; the first that throws ends it, with picture and bytes as the tiles before it left them |
| `ZrleTiles.IllegalSubencodings` | src/main/resources/static/js/viewer/noVNC-1.4.0/core/decoders/zrle.js:45-66 | subencodings 17 to 127 and 129 throw |
| `ZrleClass.Decoder.ReadPixels` | src/main/resources/static/js/viewer/noVNC-1.4.0/core/decoders/zrle.js:83-93 | the copying loop reads three bytes a pixel and leaves the rest of the buffer as it was |
| `ZrleClass.Decoder.ReadRLELength` | src/main/resources/static/js/viewer/noVNC-1.4.0/core/decoders/zrle.js:176-184 | the do-while loop reads the length |
| `ZrleClass.Decoder.DecodeRLETile` | src/main/resources/static/js/viewer/noVNC-1.4.0/core/decoders/zrle.js:127-142 | the loop refines the run-length specification |
| `ZrleClass.Decoder.DecodeRLEPaletteTile` | src/main/resources/static/js/viewer/noVNC-1.4.0/core/decoders/zrle.js:144-174 | the loop refines the palette run-length specification |
| `ZrleClass.Decoder.DecodePaletteRow` | src/main/resources/static/js/viewer/noVNC-1.4.0/core/decoders/zrle.js:104-123 | one row: the shift variable walks the bit fields and the next byte is read exactly when needed |
| `ZrleClass.Decoder.DecodePaletteTile` | src/main/resources/static/js/viewer/noVNC-1.4.0/core/decoders/zrle.js:95-125 | the nested loops consume exactly the padded rows and give every pixel its field, or throw when bytes are missing |
| `ZrleClass.Decoder.DecodeTile` | src/main/resources/static/js/viewer/noVNC-1.4.0/core/decoders/zrle.js:45-66 | a tile of any subencoding is drawn as specified, or nothing when it throws |
| `ZrleClass.Decoder.DecodeTiles` | src/main/resources/static/js/viewer/noVNC-1.4.0/core/decoders/zrle.js:39-68 | the nested tile loops refine the tile-by-tile specification |
| `Tight.CompactRoundTrip` | src/main/resources/static/js/viewer/noVNC-1.4.0/core/decoders/tight.js:301-313 | lengths below 2^22 are read back from their one to three bytes |
| `Tight.DataRoundTrip` | src/main/resources/static/js/viewer/noVNC-1.4.0/core/decoders/tight.js:295-323 | data with its length is read back whole |
| `Tight.DataOutIff` | src/main/resources/static/js/viewer/noVNC-1.4.0/core/decoders/tight.js:295-324 | for every cut of the stream: data comes out, unchanged, if and only if it is there whole with its length and three bytes have arrived |
| `Tight.LastDataOutIff` | src/main/resources/static/js/viewer/noVNC-1.4.0/core/decoders/tight.js:296-299 | data that ends the stream comes out if and only if it has two bytes or more |
| `Tight.ReadResumes` | src/main/resources/static/js/viewer/noVNC-1.4.0/core/decoders/tight.js:295-323 | going on after a wait is the same as having had all bytes |
| `Tight.MonoDrawsTheBits` | src/main/resources/static/js/viewer/noVNC-1.4.0/core/decoders/tight.js:243-274 | a packed bitmap of any width is drawn with every pixel in the colour its bit names |
| `Tight.PaletteFilterResumes` | src/main/resources/static/js/viewer/noVNC-1.4.0/core/decoders/tight.js:185-241 | a palette rectangle does not depend on how its bytes arrive |
| `Tight.PaletteForgottenIff` | src/main/resources/static/js/viewer/noVNC-1.4.0/core/decoders/tight.js:204-240 | the palette is forgotten after a rectangle if and only if the rectangle had an area |
| `Tight.PaletteNotReread` | src/main/resources/static/js/viewer/noVNC-1.4.0/core/decoders/tight.js:186-212 | after a rectangle without area the next one is drawn with the old palette |
| `Tight.OneColourIff` | src/main/resources/static/js/viewer/noVNC-1.4.0/core/decoders/tight.js:204-236 | a one-colour picture is right if and only if its rows are at most one pixel wide or its colour is black |
| `TightMeaning.PaletteRectDrawn` | src/main/resources/static/js/viewer/noVNC-1.4.0/core/decoders/tight.js:185-289 | for every palette of 2 to 256 colours and every picture in it, compressed or not: each pixel is drawn in its own colour, the bytes behind are left, and the decoder is ready for the next palette |
| `TightClass.Decoder.ReadData` | src/main/resources/static/js/viewer/noVNC-1.4.0/core/decoders/tight.js:295-323 | the method refines the resumable reader |
| `TightClass.Decoder.MonoRow` | src/main/resources/static/js/viewer/noVNC-1.4.0/core/decoders/tight.js:251-270 | one row: whole bytes, then the top bits of the last |
| `TightClass.Decoder.MonoRect` | src/main/resources/static/js/viewer/noVNC-1.4.0/core/decoders/tight.js:243-274 | the nested loops give every pixel its bit, for every width |
| `TightClass.Decoder.PaletteRect` | src/main/resources/static/js/viewer/noVNC-1.4.0/core/decoders/tight.js:276-289 | the loop gives every pixel its colour, black past the data |
| `TightClass.Decoder.ReadPalette` | src/main/resources/static/js/viewer/noVNC-1.4.0/core/decoders/tight.js:185-202 | the palette is read once |
| `TightClass.Decoder.PaletteFilter` | src/main/resources/static/js/viewer/noVNC-1.4.0/core/decoders/tight.js:185-241 | the resumable filter refines its specification |
| `Tables.AddProper` | src/main/resources/UVNCRepeater/repeater.cpp:442-460 | a new code goes to the first free slot and nowhere else |
| `Tables.RemoveProper` | src/main/resources/UVNCRepeater/repeater.cpp:463-476 | a removed code is gone |
| `Tables.ActivateProper` | src/main/resources/UVNCRepeater/repeater.cpp:479-491 | activation marks exactly the entry of the code |
| `Tables.OthersKept` | src/main/resources/UVNCRepeater/repeater.cpp:442-491 | adding, removing and activating one code leaves every other as it was |
| `Tables.FreeProc` | src/main/resources/UVNCRepeater/repeater.cpp:390-403 | pigeonhole: when each busy process names a different code and one more code has none, a process slot is free |
| `SlotTable.Connections.AddList` | src/main/resources/UVNCRepeater/repeater.cpp:442-460 | the scanning loop takes the first free slot, or answers -1 |
| `SlotTable.Connections.RemoveList` | src/main/resources/UVNCRepeater/repeater.cpp:463-476 | the loop clears the entry of the code |
| `SlotTable.Connections.SetActive` | src/main/resources/UVNCRepeater/repeater.cpp:479-491 | the loop activates it |
| `SlotTable.Connections.FindList` | src/main/resources/UVNCRepeater/repeater.cpp:494-507 | the loop finds its first slot |
| `SlotTable.Children.AddList` | src/main/resources/UVNCRepeater/repeater.cpp:390-403 | the loop takes the first free process slot |
| `SlotTable.Children.RemoveList` | src/main/resources/UVNCRepeater/repeater.cpp:406-420 | the loop clears the entry of a pid |
| `SlotTable.Children.FindList` | src/main/resources/UVNCRepeater/repeater.cpp:425-439 | the loop finds the entry of a pid |
| `Broker.ForkKeeps` | src/main/resources/UVNCRepeater/repeater.cpp:1100-1126 | a fork for a newly active pair finds a process slot and keeps the process table in order |
| `BrokerRuns.ViewerKeeps` | src/main/resources/UVNCRepeater/repeater.cpp:1466-1548 | a viewer keeps the table invariant, whether it waits, is paired or refused |
| `BrokerRuns.ServerKeeps` | src/main/resources/UVNCRepeater/repeater.cpp:1549-1630 | a server keeps the table invariant, whether it waits, is paired or refused |
| `BrokerRuns.Mode1Leaves` | src/main/resources/UVNCRepeater/repeater.cpp:1361-1457 | what a Mode 1 connection leaves in each table: an active entry on each side that has room, a child only when both have |
| `BrokerRuns.Mode1Keeps` | src/main/resources/UVNCRepeater/repeater.cpp:1361-1457 | Mode 1 keeps the invariant, with one more leaked code when exactly one side had room |
| `BrokerRuns.SweepKeeps` | src/main/resources/UVNCRepeater/repeater.cpp:745-817 | removing idle entries keeps the invariant |
| `BrokerRuns.BothEndsFound` | src/main/resources/UVNCRepeater/repeater.cpp:1786-1788 | the code of an ended child is found in both tables: the illegal-index branch is never taken |
| `BrokerRuns.ExitKeeps` | src/main/resources/UVNCRepeater/repeater.cpp:1775-1846 | cleaning up after a child keeps the invariant |
| `BrokerRuns.ReapKeeps` | src/main/resources/UVNCRepeater/repeater.cpp:1849-1863 | the loop over all children keeps the table invariant |
| `BrokerRuns.RunKeeps` | src/main/resources/UVNCRepeater/repeater.cpp:1288-1863 | pairing safety over all runs: codes unique in each table, server and viewer with one code never both idle, none active alone except exactly the leaked ones, each child between the sockets active under its own code |
| `BrokerAdmission.ViewerAdmittedIff` | src/main/resources/UVNCRepeater/repeater.cpp:1286-1548 | a viewer gets an entry if and only if its code is listed, not in the table yet, and a slot is free; otherwise tables and log are unchanged. The entry is active, with a child between the two sockets, if and only if the server waits |
| `BrokerAdmission.ServerAdmittedIff` | src/main/resources/UVNCRepeater/repeater.cpp:1286-1629 | the same for a server |
| `BrokerAdmission.SweepExact` | src/main/resources/UVNCRepeater/repeater.cpp:745-817 | a sweep clears, in both tables, exactly the slots of those that wait and are gone |
| `BrokerAdmission.OnlyTheListed` | src/main/resources/UVNCRepeater/repeater.cpp:1296-1304 | over all runs: whoever is in a table under a code of its own came with a code on the list, and with the socket that stands there |
| `BrokerAdmission.OnlyTheListedAreServed` | src/main/resources/UVNCRepeater/repeater.cpp:1296-1304 | so no child relays for a connection whose code was not on the list, but in Mode 1 |
| `BrokerChildren.ExitServes` | src/main/resources/UVNCRepeater/repeater.cpp:1775-1846 | a child that ends with 1 to 5 takes its entries along; any other leaves both active with no child |
| `BrokerChildren.RunServes` | src/main/resources/UVNCRepeater/repeater.cpp:1288-1863 | in every run a server and viewer active under one code have a child, except exactly the sessions whose child ended outside 1 to 5, which are stranded |
| `BrokerChildren.ActiveMeansServed` | src/main/resources/UVNCRepeater/repeater.cpp:99-107 | the documented connection levels, over all runs: the entries of a code that has not leaked are active exactly while a relay child is listed under it, if and only if no child of that code ended outside 1 to 5 |
| `BrokerChildren.AllServedUnlessLost` | src/main/resources/UVNCRepeater/repeater.cpp:99-107 | active means served for every code that has not leaked if and only if no listed child ended outside 1 to 5 |
| `BrokerChildren.StrandedForGood` | src/main/resources/UVNCRepeater/repeater.cpp:1775-1846 | after such an exit both entries stay active with no child for the rest of the run |
| `BrokerCases.KilledChildStrands` | src/main/resources/UVNCRepeater/repeater.cpp:1849-1863 | counterexample: a viewer and a server meet, their child is killed and ends with code 0, and the session is stranded |
| `BrokerCases.Mode1CanLeak` | src/main/resources/UVNCRepeater/repeater.cpp:1361-1457 | counterexample: a viewer waits in the only slot, and a Mode 1 connection leaks its code |
| `BrokerSystem.EverySessionIsListed` | src/main/resources/UVNCRepeater/repeater.cpp:1100-1126 | whenever a session starts its child is listed, between the two sockets active under its code |
| `BrokerSystem.InventedCodesAreFresh` | src/main/resources/UVNCRepeater/repeater.cpp:1361-1363 | until a million Mode 1 connections have been made, every invented code is unused |
| `BrokerSystem.WrapCanRepeatACode` | src/main/resources/UVNCRepeater/repeater.cpp:1361-1363 | after the counter wraps, a code still in use gets a second slot |
| `BrokerCases.WrapRepeatsACode` | src/main/resources/UVNCRepeater/repeater.cpp:1361-1363 | the bound is tight: a run with one Mode 1 connection more than a million gives the code of a running session away again |
| `BrokerLog.ViewerReplays` | src/main/resources/UVNCRepeater/repeater.cpp:1466-1548 | the events of a viewer replay to the tables |
| `BrokerLog.ServerReplays` | src/main/resources/UVNCRepeater/repeater.cpp:1549-1629 | the events of a server replay to the tables |
| `BrokerLog.Mode1Replays` | src/main/resources/UVNCRepeater/repeater.cpp:1361-1457 | the events of a Mode 1 connection replay to the tables, the entry of a half failure left out |
| `BrokerLog.SweepReplays` | src/main/resources/UVNCRepeater/repeater.cpp:745-817 | the events of a sweep replay to the tables |
| `BrokerLog.ReapReplays` | src/main/resources/UVNCRepeater/repeater.cpp:1790-1836 | the events of ended children replay to the tables, the entries of lost children left out |
| `BrokerLog.LogReplays` | src/main/resources/UVNCRepeater/repeater.cpp:766-1836 | over every run, with any exit codes: folding the whole log by table index rebuilds code and active flag of every slot; only leaked entries and those of lost children show as free |
| `BrokerHeartbeats.EveryBeatIsLogged` | src/main/resources/UVNCRepeater/repeater.cpp:1747-1757 | the log holds one heartbeat for every beat of a run, and no others |
| `BrokerLog.LogIsTrueUnlessLeaked` | src/main/resources/UVNCRepeater/repeater.cpp:1444-1457 | the log tells the truth about all slots if and only if no Mode 1 connection failed half way and no listed child ended outside 1 to 5 |
| `BrokerLog.PairedUnlessLeaked` | src/main/resources/UVNCRepeater/repeater.cpp:1444-1457 | every code is paired if and only if none failed half way |
| `EventQueue.PostAllAccepts` | src/main/resources/UVNCRepeater/repeaterevents.cpp:227-242 | a burst of events is accepted in order up to the free room, the rest refused |
| `EventQueue.HandleKeeps` | src/main/resources/UVNCRepeater/repeaterevents.cpp:247-280 | handing the fifo to a child neither loses, repeats nor reorders an event |
| `EventQueue.ChildrenTakeTurns` | src/main/resources/UVNCRepeater/repeaterevents.cpp:247-280 | while an event child runs nothing is handed over; once it is seen to have ended the next one takes all that waits |
| `BrokerSystem.NothingLostMeansAll` | src/main/resources/UVNCRepeater/repeaterevents.cpp:227-280 | if no event was refused, the snapshots of the event children followed by the fifo are the whole log, in order, once each |
| `BrokerSystem.ListenersSeeTheTables` | src/main/resources/UVNCRepeater/repeaterevents.cpp:109-196 | if no event was refused, what the event children were given and what still waits replays to the tables, leaked entries and those of lost children left out |
| `EventFifo.Fifo.constructor` | src/main/resources/UVNCRepeater/repeaterevents.cpp:217-222 | an empty fifo |
| `EventFifo.Fifo.Send` | src/main/resources/UVNCRepeater/repeaterevents.cpp:227-242 | appends to the ring, or refuses when 500 events wait |
| `EventFifo.Fifo.Clear` | src/main/resources/UVNCRepeater/repeaterevents.cpp:81-86 | empties the ring |
| `EventFifo.Fifo.HandleEvents` | src/main/resources/UVNCRepeater/repeaterevents.cpp:247-280 | the parent side of the fork |
| `EventFifo.Fifo.Drain` | src/main/resources/UVNCRepeater/repeaterevents.cpp:131-134 | the child takes out every event, oldest first, around the end of the ring |
| `RepeaterProcess.Repeater.constructor` | src/main/resources/UVNCRepeater/repeater.cpp:378-387 | the repeater with empty tables |
| `RepeaterProcess.Repeater.AcceptViewer` | src/main/resources/UVNCRepeater/repeater.cpp:1466-1548 | tables, children and fifo after a viewer are those of the specification |
| `RepeaterProcess.Repeater.AcceptServer` | src/main/resources/UVNCRepeater/repeater.cpp:1549-1629 | tables, children and fifo after a server are those of the specification |
| `RepeaterProcess.Repeater.AcceptMode1` | src/main/resources/UVNCRepeater/repeater.cpp:1361-1457 | counter, tables, children and fifo after a Mode 1 connection are those of the specification |
| `RepeaterProcess.Repeater.ConnectionRemover` | src/main/resources/UVNCRepeater/repeater.cpp:745-801 | table and fifo after looking at one slot are those of the specification |
| `RepeaterProcess.Repeater.RemoveOldOrBrokenConnections` | src/main/resources/UVNCRepeater/repeater.cpp:805-817 | tables and fifo after the sweep loop are those of the recursive specification |
| `RepeaterProcess.Repeater.CleanUpAfterExit` | src/main/resources/UVNCRepeater/repeater.cpp:1775-1846 | tables, children and fifo after a child ended are those of the specification |
| `RepeaterProcess.Repeater.CleanUpAfterRepeaterProcs` | src/main/resources/UVNCRepeater/repeater.cpp:1849-1863 | tables, children and fifo after the loop are those of the recursive specification |
| `Relay.UpIsConserved` | src/main/resources/UVNCRepeater/repeaterproc.cpp:133-184 | in every run the bytes sent to the server followed by the held ones are the bytes received from the viewer, at most 1024 held |
| `Relay.ShiftIsRightExactly` | src/main/resources/UVNCRepeater/repeaterproc.cpp:195-202 | moving the buffer only when less was sent than remains is right for all data if and only if all or less than half was sent |
| `Relay.DownIsConservedWhenSafe` | src/main/resources/UVNCRepeater/repeaterproc.cpp:99-204 | with such sends only, the server bytes reach the viewer once and in order too |
| `Relay.FrontStays` | src/main/resources/UVNCRepeater/repeaterproc.cpp:186-204 | a byte sent, or at the front of the buffer, is never replaced |
| `Relay.DownIsConservedIff` | src/main/resources/UVNCRepeater/repeaterproc.cpp:99-204 | over all data of the shape of a run: the server bytes reach the viewer once and in order, whatever they are, if and only if every send takes all that is held or less than half of it |
| `Relay.DownCountIsConserved` | src/main/resources/UVNCRepeater/repeaterproc.cpp:99-204 | their number is right in every run |
| `Relay.UnsafeSendCorrupts` | src/main/resources/UVNCRepeater/repeaterproc.cpp:196-201 | counterexample: three bytes, two taken, the first stays instead of the third |
| `Relay.CodesSayWhatEnded` | src/main/resources/UVNCRepeater/repeaterproc.cpp:48-161 | the child returns 1 to 5 only, each for the documented reason |
| `Relay.EveryTurnMoves` | src/main/resources/UVNCRepeater/repeaterproc.cpp:99-204 | no turn wastes what the network offers: in each direction the bytes that have room are taken in, and as many are passed on as the other side takes |
| `Relay.EndsExactlyWhen` | src/main/resources/UVNCRepeater/repeaterproc.cpp:77-161 | which turn ends the relay, and with which code: the server is looked at first, and nobody while its buffer is full |
| `Relay.LastTurnSendsNothing` | src/main/resources/UVNCRepeater/repeaterproc.cpp:99-161 | the turn that ends the relay sends nothing on; what the server sent in the turn in which the viewer ends is held for nobody |
| `RelayLoop.Child.FlushToServer` | src/main/resources/UVNCRepeater/repeaterproc.cpp:163-184 | the bytes the server took leave the front of the buffer, in place |
| `RelayLoop.Child.FlushToViewer` | src/main/resources/UVNCRepeater/repeaterproc.cpp:186-203 | the bytes the viewer took are sent, and the buffer is moved only when fewer were taken than remain |
| `RelayLoop.Child.Turn` | src/main/resources/UVNCRepeater/repeaterproc.cpp:77-203 | one turn of the loop, with its return codes, is a turn of the specification |
| `RelayLoop.Child.DoRepeater` | src/main/resources/UVNCRepeater/repeaterproc.cpp:54-205 | the whole loop ends with the code and state of the specified run |
| `Base64.Feed` | src/main/resources/static/js/viewer/noVNC-1.4.0/core/base64.js:71-92 | the accumulator keeps fewer than 2^leftbits in at most six bits |
| `Base64.DigitIsOfTheAlphabet` | src/main/resources/static/js/viewer/noVNC-1.4.0/core/base64.js:11 | the digits are the alphabet of section 4 of RFC 4648 |
| `Base64.LegalIff` | src/main/resources/static/js/viewer/noVNC-1.4.0/core/base64.js:71-78 | for every character: it is legal if and only if its low seven bits are a digit or the padding, and its value is its place in the table |
| `Base64.EncodedIsRfc` | src/main/resources/static/js/viewer/noVNC-1.4.0/core/base64.js:14-43 | the text digit by digit, for every byte string: six bits a digit, most significant first, and padding for what is missing of the last three bytes |
| `Base64.GroupDecodes` | src/main/resources/static/js/viewer/noVNC-1.4.0/core/base64.js:71-93 | four digits give three bytes back |
| `Base64.TailDecodes` | src/main/resources/static/js/viewer/noVNC-1.4.0/core/base64.js:28-40 | a padded tail gives its one or two bytes back |
| `Base64.RoundTrip` | src/main/resources/static/js/viewer/noVNC-1.4.0/core/base64.js:14-103 | every byte string survives encoding and decoding without error and fills the preallocated result exactly |
| `Base64.CorruptedIff` | src/main/resources/static/js/viewer/noVNC-1.4.0/core/base64.js:95-100 | a string is refused if and only if its legal characters are no multiple of four |
| `Base64.WhitespaceIsHarmless` | src/main/resources/static/js/viewer/noVNC-1.4.0/core/base64.js:74-78 | characters outside the alphabet change no byte |
| `Base64.ResultLengthIff` | src/main/resources/static/js/viewer/noVNC-1.4.0/core/base64.js:58-93 | for every way of strewing illegal characters over an encoding: the bytes come out, and the result has their length if and only if no illegal character stands before the first padding, or one does and there is no padding; otherwise it is longer |
| `Base64.TrailingWhitespaceLeavesHoles` | src/main/resources/static/js/viewer/noVNC-1.4.0/core/base64.js:60-65 | instance: line feeds behind whole groups leave that many bytes of holes |
| `Base64Loops.Encode` | src/main/resources/static/js/viewer/noVNC-1.4.0/core/base64.js:14-43 | the loop over groups and the tail give the specified text |
| `Base64Loops.Decode` | src/main/resources/static/js/viewer/noVNC-1.4.0/core/base64.js:59-103 | the loop over characters gives the corrupted flag, the bytes and the holes of the specification |
| `Base64Loops.EncodeThenDecode` | src/main/resources/static/js/viewer/noVNC-1.4.0/core/base64.js:14-103 | the two loops in a row return the bytes |
| `Modular.TurnKeeps` | src/main/resources/static/js/viewer/noVNC-1.4.0/core/ra2.js:212-218 | one turn of square and multiply keeps r * b^e mod m |
| `Modular.ModPow` | src/main/resources/static/js/viewer/noVNC-1.4.0/core/ra2.js:206-220 | the loop computes b^e mod m for every exponent and modulus |
| `Rsa.HexRoute` | src/main/resources/static/js/viewer/noVNC-1.4.0/core/ra2.js:192-204 | the way over padded hexadecimal digits gives the fixed-width big-endian bytes |
| `Rsa.Stretch` | src/main/resources/static/js/viewer/noVNC-1.4.0/core/ra2.js:258-260 | a random padding byte stays what it is, but that zero becomes one |
| `Rsa.UnpaddedIff` | src/main/resources/static/js/viewer/noVNC-1.4.0/core/ra2.js:277-289 | unpadding finds a message if and only if the block is the padding of it |
| `Rsa.Inverse` | src/main/resources/static/js/viewer/noVNC-1.4.0/core/ra2.js:265-275 | the private exponent undoes the public one |
| `Rsa.RoundTrip` | src/main/resources/static/js/viewer/noVNC-1.4.0/core/ra2.js:252-290 | decrypt(encrypt(M)) = M for every M up to keyBytes - 11, every random padding and every key pair with a full modulus |
| `Rsa.RoundTripIff` | src/main/resources/static/js/viewer/noVNC-1.4.0/core/ra2.js:252-290 | a message comes back if and only if it leaves room for eight bytes of padding, and is refused otherwise |
| `Rsa.EncryptedIsPkcs1` | src/main/resources/static/js/viewer/noVNC-1.4.0/core/ra2.js:252-268 | the ciphertext is the power of 00 02, at least eight non-zero bytes, 00 and the message, as section 7.2 of RFC 8017 has it; what is refused |
| `Rsa.DecryptedIs` | src/main/resources/static/js/viewer/noVNC-1.4.0/core/ra2.js:270-290 | decryption gives a message if and only if the ciphertext has the size of the key and its power is some padding of that message |
| `Rsa.DefaultRoute` | src/main/resources/static/js/viewer/noVNC-1.4.0/core/ra2.js:192-204 | without a pad length the bytes hold the number, in twice the room it needs |
| `Rsa.TooLargeRoute` | src/main/resources/static/js/viewer/noVNC-1.4.0/core/ra2.js:192-204 | a number too large for its pad length is kept if its digits are even in number, and otherwise loses the last one |
| `RsaCipher.U8ArrayToBigInt` | src/main/resources/static/js/viewer/noVNC-1.4.0/core/ra2.js:178-184 | the loop over hexadecimal digits gives the big-endian number |
| `RsaCipher.BigIntToU8Array` | src/main/resources/static/js/viewer/noVNC-1.4.0/core/ra2.js:192-204 | the loop over digit pairs gives the big-endian bytes of fixed width, and what comes out for every other number and pad length |
| `RsaCipher.Cipher.SetPublicKey` | src/main/resources/static/js/viewer/noVNC-1.4.0/core/ra2.js:240-250 | a key of the wrong size is ignored |
| `RsaCipher.Cipher.Encrypt` | src/main/resources/static/js/viewer/noVNC-1.4.0/core/ra2.js:252-268 | the loops write the padding, and the result is the specified encryption |
| `RsaCipher.Cipher.Decrypt` | src/main/resources/static/js/viewer/noVNC-1.4.0/core/ra2.js:270-290 | the search loop finds the zero, and the result is the specified decryption |
| `Doubling.DoubleTwice` | src/main/resources/static/js/viewer/noVNC-1.4.0/core/ra2.js:24-38 | two doublings at once are a shift by two and a table look-up on the two top bits |
| `Doubling.ShiftInValue` | src/main/resources/static/js/viewer/noVNC-1.4.0/core/ra2.js:28-31 | the byte loop shifts the whole block |
| `Cmac.SubkeysAreDoublings` | src/main/resources/static/js/viewer/noVNC-1.4.0/core/ra2.js:24-38 | the subkeys are the first and second doubling of the encrypted zero block in GF(2^128) |
| `Cmac.MacFromTheFront` | src/main/resources/static/js/viewer/noVNC-1.4.0/core/ra2.js:58-86 | the code computed block by block from the front, the last block complete or closed by a one bit and zeros, is the same |
| `Cmac.OnePassIsMac` | src/main/resources/static/js/viewer/noVNC-1.4.0/core/ra2.js:58-86 | one CBC pass over the masked buffer gives the specified code for every data length, zero included |
| `Eax.IncrementAdds` | src/main/resources/static/js/viewer/noVNC-1.4.0/core/ra2.js:144 | the byte counter adds one modulo 2^128, least significant byte first |
| `Eax.MessageRoundTrip` | src/main/resources/static/js/viewer/noVNC-1.4.0/core/ra2.js:141-156 | a message below 65536 bytes made with a counter is received with the same counter |
| `Eax.SealedIsEax` | src/main/resources/static/js/viewer/noVNC-1.4.0/core/ra2.js:97-128 | ciphertext and tag are those of EAX, the tag byte by byte from the codes of nonce, header and ciphertext; exactly that tag is accepted |
| `Eax.ConversationRoundTrip` | src/main/resources/static/js/viewer/noVNC-1.4.0/core/ra2.js:141-156 | counters that start equal stay in step over any number of messages, each received as sent |
| `Ra2.AESEAXCipher.constructor` | src/main/resources/static/js/viewer/noVNC-1.4.0/core/ra2.js:88-95 | the subkeys are set up |
| `Ra2.AESEAXCipher.InitCMAC` | src/main/resources/static/js/viewer/noVNC-1.4.0/core/ra2.js:24-38 | one pass over the block computes both subkeys |
| `Ra2.AESEAXCipher.ComputeCMAC` | src/main/resources/static/js/viewer/noVNC-1.4.0/core/ra2.js:58-86 | the specified code of prefix and data, or none for a prefix of another size |
| `Ra2.AESEAXCipher.Encrypt` | src/main/resources/static/js/viewer/noVNC-1.4.0/core/ra2.js:97-109 | the result is ciphertext and tag of the specification |
| `Ra2.AESEAXCipher.Decrypt` | src/main/resources/static/js/viewer/noVNC-1.4.0/core/ra2.js:111-128 | the result is the plain text, or none if the tag differs |
| `Ra2.RA2Cipher.constructor` | src/main/resources/static/js/viewer/noVNC-1.4.0/core/ra2.js:132-135 | the counter starts at zero |
| `Ra2.RA2Cipher.IncrementCounter` | src/main/resources/static/js/viewer/noVNC-1.4.0/core/ra2.js:144 | the carrying loop adds one |
| `Ra2.RA2Cipher.MakeMessage` | src/main/resources/static/js/viewer/noVNC-1.4.0/core/ra2.js:141-149 | message bytes, and the counter moved on |
| `Ra2.RA2Cipher.ReceiveMessage` | src/main/resources/static/js/viewer/noVNC-1.4.0/core/ra2.js:151-156 | message or none, and the counter moved on in either case |

## Left out

- Client-mode sending in the WebSocket endpoint: it adds a number to a byte string and cannot run (websocket.py line 734); masking is covered through the key argument of the encoder.
- The WebSocket handshake, TLS, sockets and clocks: what a socket answers, which peers are gone, which children ended and with what code are parameters of the steps.
- UTF-8: whether a close reason is valid is a parameter, and the codec is not part of this model.
- RfbClient.Client.NormalMsg: messages other than framebuffer updates and the bell halt the client.
- RfbClient.Client.HandleMessage: the pause while the display is flushing; no image is queued by the encodings modelled, so nothing is ever waited for (`RfbDisplay.BackbufferIsFramebuffer`).
- RfbClient.Client.OnData: the same pause.
- RfbClient.Client.FramebufferUpdate: the pause for a queue that still waits, and the closing flip, which `RfbDisplay.StepCalls` adds.
- RfbClient.Client.HandleRect: pseudo-encodings other than last rectangle and desktop size halt the client.
- RfbClient.Client.HandleDataRect: encodings other than Raw, CopyRect, RRE and Hextile halt the client; ZRLE and Tight are proved by themselves.
- ReceiveQueue.Websock.SkipBytes: asking for more bytes than are unread, which the callers never do because they wait first; the index would pass the end.
- ReceiveQueue.Websock.ShiftBytes: the same.
- ReceiveQueue.Websock.Shift: the same.
- WebSocketClass.WebSocket.Attach: the states of the handshake around it.
- ZRLE and Tight draw on a plain surface here, not through the render queue.
- The zlib length and stream of ZRLE and the zlib streams of Tight: the inflated bytes are given. JPEG, PNG and the copy filter of Tight are left out.
- Pixels that are neither opaque nor transparent, fractional viewport movements, scaling and the fill-style cache of the display.
- HextileClass.Hextile.DecodeRect: after an exception the decoder state is not specified, because the client stops.
- ZrleClass.Decoder.DecodeTiles: after an exception only the drawn tiles are specified, because the client stops.
- ReceiveQueue.Websock.DecodeMessage: after the exception nothing is promised of the size field beyond its value, because no caller goes on.
- RelayLoop.Child.FlushToServer: the overlapping memcpy of the source is modelled as a move that allows overlap, the effect it has in practice.
- Repeater handshake strings, address lists, host name parsing, peer addresses and times in events, and codes too large for an int: easy text and table work beside the tables.
- RepeaterProcess.Repeater.AcceptViewer: the fork is assumed to succeed with a pid no listed child has; the program ends when it fails.
- EventFifo.Fifo.Drain: formatting and sending the event lines, and a listener that cannot be reached, in which case the child drops its copy.
- AES itself: the block cipher and the counter mode are abstract; for the conversation theorem counter-mode decryption undoes encryption.
- RSA key generation: the key equation is a hypothesis, and the modulus has a non-zero top byte.
- Eax.MessageRoundTrip: messages of 65536 bytes and more, whose length the two header bytes cannot say.
- Authentication, clipboard, cursor, input and user interface code, DES, the Java application and the repeater's configuration files.
