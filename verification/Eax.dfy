/**
  * RA2 messages: EAX built from CMAC and a counter mode, with a 16-byte message
  * counter as the nonce on each side.
  */
module Eax {
  import opened Arith
  import opened Bytes
  import opened Cmac
  import opened Wrappers

  /** Counter mode under the key: what encrypts, and what decrypts. */
  type Mode = (seq<byte>, Block) -> seq<byte>

  datatype Key = Key(cipher: Cipher, encryptCtr: Mode, decryptCtr: Mode)

  ghost predicate KeyOk(k: Key) {
    forall m, c :: |k.encryptCtr(m, c)| == |m| && k.decryptCtr(k.encryptCtr(m, c), c) == m
  }

  function Tag(k: Key, prefix: byte, data: seq<byte>): Block {
    var l := k.cipher(Zero());
    Mac(k.cipher, FirstKey(l), SecondKey(l), Zero()[15 := prefix] + data)
  }

  // The counter, least significant byte first

  function LittleEndian(s: seq<byte>): nat {
    if s == [] then 0 else s[0] as nat + 256 * LittleEndian(s[1..])
  }

  function Increment(s: seq<byte>): (t: seq<byte>)
    ensures |t| == |s|
  {
    if s == [] then [] else if s[0] == 255 then [0] + Increment(s[1..]) else [s[0] + 1] + s[1..]
  }

  lemma {:induction false} IncrementAdds(s: seq<byte>)
    ensures LittleEndian(s) < Pow2(8 * |s|)
    ensures LittleEndian(Increment(s)) == (LittleEndian(s) + 1) % Pow2(8 * |s|)
    decreases |s|
  {
    if s == [] {
      assert Pow2(0) == 1;
    } else {
      IncrementAdds(s[1..]);
      Pow2Byte(|s| - 1);
      var t := Increment(s);
      assert t[1..] == if s[0] == 255 then Increment(s[1..]) else s[1..];
      hide Pow2, Increment;
      CarryStep(s[0], LittleEndian(s[1..]), LittleEndian(t[1..]), Pow2(8 * (|s| - 1)));
    }
  }

  lemma {:induction false} CarryStep(b: byte, rest: nat, rest': nat, p: nat)
    requires rest < p && rest' == if b == 255 then (rest + 1) % p else rest
    ensures b as nat + 256 * rest < 256 * p
    ensures (if b == 255 then 0 else b as nat + 1) + 256 * rest' == (b as nat + 256 * rest + 1) % (256 * p)
  {
    var x, m := b as nat + 256 * rest + 1, 256 * p;
    if b == 255 && rest + 1 == p {
      DivisionUnique(rest + 1, p, 1, 0);
      DivisionUnique(x, m, 1, 0);
    } else {
      if b == 255 {
        DivisionUnique(rest + 1, p, 0, rest + 1);
      }
      DivisionUnique(x, m, 0, x);
    }
  }

  // Messages

  /** The two length bytes that are sent in the clear and authenticated. */
  function LengthBytes(n: nat): seq<byte> {
    [n / 256 % 256, n % 256]
  }

  function Sealed(k: Key, message: seq<byte>, ad: seq<byte>, nonce: Block): (r: (seq<byte>, Block)) {
    var n := Tag(k, 0, nonce);
    var c := k.encryptCtr(message, n);
    (c, XorBlock(Tag(k, 2, c), XorBlock(n, Tag(k, 1, ad))))
  }

  function Opened(k: Key, c: seq<byte>, ad: seq<byte>, nonce: Block, mac: seq<byte>): Option<seq<byte>> {
    var n := Tag(k, 0, nonce);
    if XorBlock(Tag(k, 2, c), XorBlock(n, Tag(k, 1, ad))) == mac then Some(k.decryptCtr(c, n)) else None
  }

  /** The code of a number in one block followed by data, as EAX writes it. */
  function Omac(k: Key, number: byte, data: seq<byte>): Block {
    var l := k.cipher(Zero());
    Mac(k.cipher, FirstKey(l), SecondKey(l), [0, 0, 0, 0, 0, 0, 0, 0, 0, 0, 0, 0, 0, 0, 0, number] + data)
  }

  lemma {:induction false} TagIsOmac(k: Key, number: byte, data: seq<byte>)
    ensures Tag(k, number, data) == Omac(k, number, data)
  {
    assert Zero()[15 := number] == [0, 0, 0, 0, 0, 0, 0, 0, 0, 0, 0, 0, 0, 0, 0, number];
  }

  /** EAX: the nonce under number 0 starts the counter mode, and the tag is, byte by byte, the codes of nonce,
      header under number 1 and ciphertext under number 2 together. A tag is accepted exactly if it is that one. */
  lemma {:induction false} SealedIsEax(k: Key, message: seq<byte>, ad: seq<byte>, nonce: Block)
    ensures var (c, tag) := Sealed(k, message, ad, nonce);
            && c == k.encryptCtr(message, Omac(k, 0, nonce))
            && (forall i :: 0 <= i < 16 ==>
                  tag[i] == XorByte(Omac(k, 2, c)[i], XorByte(Omac(k, 0, nonce)[i], Omac(k, 1, ad)[i])))
            && forall mac: Block ::
                 Opened(k, c, ad, nonce, mac) == if mac == tag then Some(k.decryptCtr(c, Omac(k, 0, nonce))) else None
  {
    hide Omac, Tag, XorByte;
    var c := Sealed(k, message, ad, nonce).0;
    TagIsOmac(k, 0, nonce);
    TagIsOmac(k, 1, ad);
    TagIsOmac(k, 2, c);
  }

  /** makeMessage: the bytes on the wire. */
  function Made(k: Key, counter: Block, message: seq<byte>): seq<byte> {
    var ad := LengthBytes(|message|);
    var s := Sealed(k, message, ad, counter);
    ad + s.0 + s.1
  }

  /** receiveMessage for a message taken apart by the length in front of it. */
  function Received(k: Key, counter: Block, wire: seq<byte>): Option<seq<byte>>
    requires |wire| >= 2 && |wire| == 2 + (wire[0] as nat * 256 + wire[1]) + 16
  {
    var n := wire[0] as nat * 256 + wire[1];
    Opened(k, wire[2..2 + n], LengthBytes(n), counter, wire[2 + n..])
  }

  lemma {:induction false} MessageRoundTrip(k: Key, counter: Block, message: seq<byte>)
    requires KeyOk(k) && |message| < 65536
    ensures var w := Made(k, counter, message);
            |w| == 2 + |message| + 16 && w[0] as nat * 256 + w[1] == |message|
            && Received(k, counter, w) == Some(message)
  {
    hide Tag, XorBlock;
    var ad := LengthBytes(|message|);
    var s := Sealed(k, message, ad, counter);
    var w := Made(k, counter, message);
    assert w[2..2 + |message|] == s.0 && w[2 + |message|..] == s.1;
  }

  /** The messages a sender makes one after the other. */
  function MadeAll(k: Key, counter: Block, messages: seq<seq<byte>>): seq<seq<byte>>
    decreases |messages|
  {
    if messages == [] then [] else
      [Made(k, counter, messages[0])] + MadeAll(k, Increment(counter), messages[1..])
  }

  ghost predicate Arrive(k: Key, counter: Block, wires: seq<seq<byte>>, messages: seq<seq<byte>>)
    decreases |wires|
  {
    if wires == [] then messages == [] else
      && messages != []
      && |wires[0]| >= 2 && |wires[0]| == 2 + (wires[0][0] as nat * 256 + wires[0][1]) + 16
      && Received(k, counter, wires[0]) == Some(messages[0])
      && Arrive(k, Increment(counter), wires[1..], messages[1..])
  }

  /** Counters that start equal stay in step: a whole conversation is received as it was sent. */
  lemma {:induction false} ConversationRoundTrip(k: Key, counter: Block, messages: seq<seq<byte>>)
    requires KeyOk(k) && forall i :: 0 <= i < |messages| ==> |messages[i]| < 65536
    ensures Arrive(k, counter, MadeAll(k, counter, messages), messages)
    decreases |messages|
  {
    if messages != [] {
      hide Made, Received, KeyOk;
      MessageRoundTrip(k, counter, messages[0]);
      ConversationRoundTrip(k, Increment(counter), messages[1..]);
      var w := MadeAll(k, counter, messages);
      assert w[1..] == MadeAll(k, Increment(counter), messages[1..]);
    }
  }
}
