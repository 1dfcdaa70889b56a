/** WebSocket frames (RFC 6455, section 5.2): encoder, decoder and the two masking routines. */
module HybiCodec {
  import opened Bytes
  import opened Wrappers

  /** A payload whose length fits the 64-bit length field. */
  type Payload = s: seq<byte> | |s| < Pow2(64)

  datatype Frame = Frame(fin: bool, opcode: nat, masked: bool, length: nat, payload: Payload)

  // ----- masking -----

  /** Section 5.3 of RFC 6455: byte i is combined with byte i mod 4 of the key. */
  function Unmask(buf: seq<byte>, key: seq<byte>): (r: seq<byte>)
    requires |key| == 4
    ensures |r| == |buf|
  {
    seq(|buf|, i requires 0 <= i < |buf| => XorByte(buf[i], key[i % 4]))
  }

  /** The fallback loop over a copy of the buffer. */
  method UnmaskInPlace(buf: seq<byte>, key: seq<byte>) returns (r: seq<byte>)
    requires |key| == 4
    ensures r == Unmask(buf, key)
  {
    var data := new byte[|buf|](i requires 0 <= i < |buf| => buf[i]);
    for i := 0 to data.Length
      invariant data.Length == |buf|
      invariant data[..i] == Unmask(buf, key)[..i]
      invariant data[i..] == buf[i..]
    {
      var b := data[i];
      assert b == buf[i] by {
        assert data[i..][0] == buf[i..][0];
      }
      data[i] := XorByte(b, key[i % 4]);
      assert data[..i + 1] == data[..i] + [Unmask(buf, key)[i]];
    }
    r := data[..];
    assert r == data[..data.Length];
  }

  /** A little-endian word of numpy's dtype '<u4'. */
  function Word(s: seq<byte>): nat
    requires |s| == 4
  {
    Above(s[0], Above(s[1], Above(s[2], s[3])))
  }

  /** `low` in the low eight bits and `high` above them. */
  function Above(low: byte, high: nat): nat {
    low as int + 256 * high
  }

  function WordBytes(w: nat): (s: seq<byte>)
    ensures |s| == 4
  {
    [w % 256, w / 256 % 256, w / 256 / 256 % 256, w / 256 / 256 / 256 % 256]
  }

  function UnmaskWords(buf: seq<byte>, count: nat, w: nat): (r: seq<byte>)
    requires 4 * count <= |buf|
    ensures |r| == 4 * count
    decreases count
  {
    if count == 0 then []
    else UnmaskWords(buf, count - 1, w) + WordBytes(Xor(Word(buf[4 * count - 4..4 * count]), w))
  }

  /** The numpy path: whole words first, then the remaining 0 to 3 bytes. */
  function UnmaskFast(buf: seq<byte>, key: seq<byte>): seq<byte>
    requires |key| == 4
  {
    var plen := |buf|;
    var b := if plen >= 4 then UnmaskWords(buf, plen / 4, Word(key)) else [];
    var c := if plen % 4 != 0
             then var tail := buf[plen - plen % 4..];
                  seq(plen % 4, i requires 0 <= i < plen % 4 => XorByte(tail[i], key[i]))
             else [];
    b + c
  }

  lemma XorAbove(x: byte, y: byte, c: nat, d: nat)
    ensures Xor(Above(x, c), Above(y, d)) == Above(XorByte(x, y), Xor(c, d))
  {
    hide Xor;
    assert Pow2(8) == 256;
    XorSplit(8, x, y, c, d);
  }

  lemma AboveSplit(low: byte, high: nat)
    ensures Above(low, high) % 256 == low && Above(low, high) / 256 == high
  {
  }

  lemma WordXor(s: seq<byte>, t: seq<byte>)
    requires |s| == |t| == 4
    ensures WordBytes(Xor(Word(s), Word(t))) ==
            [XorByte(s[0], t[0]), XorByte(s[1], t[1]), XorByte(s[2], t[2]), XorByte(s[3], t[3])]
  {
    hide Xor, Above, XorByte;
    var x3 := Xor(s[3], t[3]);
    var x2 := Xor(Above(s[2], s[3]), Above(t[2], t[3]));
    var x1 := Xor(Above(s[1], Above(s[2], s[3])), Above(t[1], Above(t[2], t[3])));
    XorAbove(s[0], t[0], Above(s[1], Above(s[2], s[3])), Above(t[1], Above(t[2], t[3])));
    XorAbove(s[1], t[1], Above(s[2], s[3]), Above(t[2], t[3]));
    XorAbove(s[2], t[2], s[3], t[3]);
    AboveSplit(XorByte(s[0], t[0]), x1);
    AboveSplit(XorByte(s[1], t[1]), x2);
    AboveSplit(XorByte(s[2], t[2]), x3);
    XorByteIsXor(s[3], t[3]);
  }

  lemma XorByteIsXor(a: byte, b: byte)
    ensures XorByte(a, b) == Xor(a, b) && Xor(a, b) % 256 == Xor(a, b)
  {
    hide Xor;
  }

  lemma UnmaskWordAt(buf: seq<byte>, i: nat, key: seq<byte>)
    requires 4 * i + 4 <= |buf| && |key| == 4
    ensures Unmask(buf, key)[4 * i..4 * i + 4] == WordBytes(Xor(Word(buf[4 * i..4 * i + 4]), Word(key)))
  {
    hide Word, WordBytes, XorByte, Xor;
    WordXor(buf[4 * i..4 * i + 4], key);
    assert 4 * i % 4 == 0 && (4 * i + 1) % 4 == 1 && (4 * i + 2) % 4 == 2 && (4 * i + 3) % 4 == 3;
  }

  lemma {:induction false} UnmaskWordsBytewise(buf: seq<byte>, count: nat, key: seq<byte>)
    requires 4 * count <= |buf| && |key| == 4
    ensures UnmaskWords(buf, count, Word(key)) == Unmask(buf, key)[..4 * count]
    decreases count
  {
    if count > 0 {
      hide Word, WordBytes, XorByte, Xor, Unmask;
      UnmaskWordsBytewise(buf, count - 1, key);
      UnmaskWordAt(buf, count - 1, key);
      var all := Unmask(buf, key);
      assert all[..4 * count] == all[..4 * (count - 1)] + all[4 * (count - 1)..4 * (count - 1) + 4];
    }
  }

  /** The word-at-a-time routine computes the bytewise one for every buffer and key. */
  lemma {:induction false} UnmaskFastIsBytewise(buf: seq<byte>, key: seq<byte>)
    requires |key| == 4
    ensures UnmaskFast(buf, key) == Unmask(buf, key)
  {
    hide Word, WordBytes, XorByte, UnmaskWords, Unmask;
    UnmaskWordsBytewise(buf, |buf| / 4, key);
    LastBytes(buf, key);
    var all, k := Unmask(buf, key), |buf| - |buf| % 4;
    assert k == 4 * (|buf| / 4);
    assert all == all[..k] + all[k..];
  }

  /** Behind the whole words the key starts again. */
  lemma LastBytes(buf: seq<byte>, key: seq<byte>)
    requires |key| == 4
    ensures var k := |buf| - |buf| % 4;
            forall i :: 0 <= i < |buf| % 4 ==> Unmask(buf, key)[k..][i] == XorByte(buf[k..][i], key[i])
  {
    hide XorByte;
    var k := |buf| - |buf| % 4;
    forall i | 0 <= i < |buf| % 4
      ensures Unmask(buf, key)[k..][i] == XorByte(buf[k..][i], key[i])
    {
      assert (k + i) % 4 == i;
    }
  }

  lemma UnmaskInvolutive(buf: seq<byte>, key: seq<byte>)
    requires |key| == 4
    ensures Unmask(Unmask(buf, key), key) == buf
  {
    hide Xor;
    forall i | 0 <= i < |buf|
      ensures Unmask(Unmask(buf, key), key)[i] == buf[i]
    {
      XorInvolutive(buf[i], key[i % 4]);
    }
  }

  // ----- encoding -----

  /** struct.pack of the two fixed bytes and the extended length. */
  function Header(b1: byte, len: nat, maskBit: nat): seq<byte>
    requires len < Pow2(64) && (maskBit == 0 || maskBit == 128)
  {
    if len <= 125 then [b1, len + maskBit]
    else if len < 65536 then [b1, 126 + maskBit] + ToBigEndian(len, 2)
    else [b1, 127 + maskBit] + ToBigEndian(len, 8)
  }

  function Encode(opcode: nat, payload: Payload, key: Option<seq<byte>>, fin: bool): seq<byte>
    requires key.Some? ==> |key.value| == 4
  {
    var b1 := opcode % 16 + (if fin then 128 else 0);
    match key
    case Some(k) => Header(b1, |payload|, 128) + k + Unmask(payload, k)
    case None => Header(b1, |payload|, 0) + payload
  }

  // ----- decoding -----

  function MaskLen(b2: byte): nat {
    if b2 >= 128 then 4 else 0
  }

  function ExtendedLen(b2: byte): nat {
    if b2 % 128 == 126 then 2 else if b2 % 128 == 127 then 8 else 0
  }

  function HeaderLen(b2: byte): nat {
    2 + MaskLen(b2) + ExtendedLen(b2)
  }

  function PayloadLen(buf: seq<byte>): (len: nat)
    requires |buf| >= 2 && |buf| >= HeaderLen(buf[1])
    ensures len < Pow2(64)
  {
    LengthFits(buf[2..2 + ExtendedLen(buf[1])]);
    if ExtendedLen(buf[1]) == 0 then buf[1] % 128 else BigEndian(buf[2..2 + ExtendedLen(buf[1])])
  }

  lemma LengthFits(ext: seq<byte>)
    requires |ext| <= 8
    ensures 128 <= Pow2(64) && BigEndian(ext) < Pow2(64)
  {
    BigEndianBound(ext);
    assert Pow2(7) == 128;
    hide Pow2;
    Pow2Add(7, 57);
    Pow2Add(8 * |ext|, 64 - 8 * |ext|);
    GrowsByFactor(Pow2(7), Pow2(57));
    GrowsByFactor(Pow2(8 * |ext|), Pow2(64 - 8 * |ext|));
  }

  lemma GrowsByFactor(a: nat, b: nat)
    requires b > 0
    ensures a <= a * b
  {
  }

  /** The first frame in the buffer, or None while its last byte has not arrived. */
  function Decode(buf: seq<byte>): Option<Frame> {
    if |buf| < 2 || |buf| < HeaderLen(buf[1]) then None else
    var masked := buf[1] >= 128;
    var hlen := HeaderLen(buf[1]);
    var length := PayloadLen(buf);
    if |buf| < hlen + length then None else
    var body := buf[hlen..hlen + length];
    var payload := if masked then Unmask(body, buf[hlen - 4..hlen]) else body;
    Some(Frame(buf[0] >= 128, buf[0] % 16, masked, hlen + length, payload))
  }

  lemma FrameIsAtLeastTwoBytes(buf: seq<byte>)
    ensures Decode(buf).Some? ==> 2 <= Decode(buf).value.length <= |buf|
  {
  }

  /** Two buffers that agree on every byte of the first frame decode to the same frame. */
  lemma DecodeLocal(a: seq<byte>, b: seq<byte>)
    requires Decode(a).Some?
    requires |b| >= Decode(a).value.length && b[..Decode(a).value.length] == a[..Decode(a).value.length]
    ensures Decode(b) == Decode(a)
  {
    hide BigEndian, Unmask;
    var n := Decode(a).value.length;
    var hlen := HeaderLen(a[1]);
    SlicesAgree(a, b, n, 0, 1);
    SlicesAgree(a, b, n, 1, 2);
    SlicesAgree(a, b, n, 2, 2 + ExtendedLen(a[1]));
    SlicesAgree(a, b, n, hlen, n);
    if a[1] >= 128 {
      SlicesAgree(a, b, n, hlen - 4, hlen);
    }
  }

  lemma SlicesAgree(a: seq<byte>, b: seq<byte>, n: nat, i: nat, j: nat)
    requires i <= j <= n <= |a| && n <= |b| && b[..n] == a[..n]
    ensures b[i..j] == a[i..j]
    ensures i < j ==> b[i] == a[i]
  {
    assert b[i..j] == b[..n][i..j];
    assert a[i..j] == a[..n][i..j];
    assert i < j ==> b[i] == b[..n][i] && a[i] == a[..n][i];
  }

  /** Bytes that arrive later never change a frame that is already complete. */
  lemma DecodeStable(buf: seq<byte>, more: seq<byte>)
    requires Decode(buf).Some?
    ensures Decode(buf + more) == Decode(buf)
  {
    hide Decode;
    FrameIsAtLeastTwoBytes(buf);
    DecodeLocal(buf, buf + more);
  }

  /** A frame is decoded exactly when its last byte is there: every strict prefix yields None. */
  lemma DecodePrefixSafe(buf: seq<byte>, k: nat)
    requires Decode(buf).Some? && k <= |buf|
    ensures Decode(buf[..k]).Some? <==> k >= Decode(buf).value.length
  {
    hide Decode;
    var n := Decode(buf).value.length;
    FrameIsAtLeastTwoBytes(buf);
    if k >= n {
      assert buf[..k][..n] == buf[..n];
      DecodeLocal(buf, buf[..k]);
    } else if Decode(buf[..k]).Some? {
      DecodeStable(buf[..k], buf[k..]);
      assert buf[..k] + buf[k..] == buf;
      FrameIsAtLeastTwoBytes(buf[..k]);
      assert false;
    }
  }

  lemma EncodeLength(opcode: nat, payload: Payload, key: Option<seq<byte>>, fin: bool)
    requires key.Some? ==> |key.value| == 4
    ensures |Encode(opcode, payload, key, fin)| ==
            |payload| + (if key.Some? then 4 else 0) + (if |payload| <= 125 then 2 else if |payload| < 65536 then 4 else 10)
  {
  }

  lemma HeaderDecodes(b1: byte, len: nat, maskBit: nat, rest: seq<byte>)
    requires len < Pow2(64) && (maskBit == 0 || maskBit == 128)
    requires |rest| >= (if maskBit == 128 then 4 else 0)
    ensures var h := Header(b1, len, maskBit);
            var buf := h + rest;
            |h| >= 2 && buf[0] == b1 && (buf[1] >= 128 <==> maskBit == 128)
            && |h| + MaskLen(buf[1]) == HeaderLen(buf[1])
            && PayloadLen(buf) == len
  {
    hide BigEndian, ToBigEndian, PayloadLen, Pow2;
    SixteenBits();
    if len <= 125 {
      ShortHeader(b1, len + maskBit, rest);
    } else if len < 65536 {
      WideHeader(b1, 126 + maskBit, len, 2, rest);
    } else {
      WideHeader(b1, 127 + maskBit, len, 8, rest);
    }
  }

  /** Two bytes are a number below 65536, the more significant one first. */
  lemma {:induction false} TwoBytes(n: nat)
    requires n < 65536
    ensures ToBigEndian(n, 2) == [n / 256, n % 256]
  {
    assert ToBigEndian(n, 2) == ToBigEndian(n / 256, 1) + [n % 256];
    assert ToBigEndian(n / 256, 1) == ToBigEndian(n / 256 / 256, 0) + [n / 256 % 256];
  }

  /** Where the length puts the key, or the payload if there is none. */
  function BehindLength(n: nat): nat {
    if n < 126 then 2 else if n < 65536 then 4 else 10
  }

  lemma {:induction false} HeaderLayout(b1: byte, n: nat, maskBit: nat)
    requires n < Pow2(64) && (maskBit == 0 || maskBit == 128)
    ensures var h := Header(b1, n, maskBit);
            && |h| == BehindLength(n) && h[0] == b1
            && h[1] == maskBit + (if n < 126 then n else if n < 65536 then 126 else 127)
            && (126 <= n < 65536 ==> h[2] == n / 256 && h[3] == n % 256)
            && (65536 <= n ==> BigEndian(h[2..10]) == n)
  {
    hide Pow2;
    if 126 <= n < 65536 {
      TwoBytes(n);
    } else if 65536 <= n {
      BigEndianRoundTrip(n, 8);
      assert Header(b1, n, maskBit)[2..10] == ToBigEndian(n, 8);
    }
  }

  /** The bytes of a frame, one by one (RFC 6455, section 5.2): the fin bit and the opcode, the mask bit and the
      short length or its form, the long length with its most significant byte first, the key, and the payload. */
  lemma {:induction false} FrameLayout(opcode: nat, payload: Payload, key: Option<seq<byte>>, fin: bool)
    requires key.Some? ==> |key.value| == 4
    ensures var s, n := Encode(opcode, payload, key, fin), |payload|;
            var at := BehindLength(n);
            && |s| == at + (if key.Some? then 4 else 0) + n
            && s[0] == (if fin then 0x80 else 0) + opcode % 16
            && s[1] == (if key.Some? then 0x80 else 0) + (if n < 126 then n else if n < 65536 then 126 else 127)
            && (126 <= n < 65536 ==> s[2] == n / 256 && s[3] == n % 256)
            && (65536 <= n ==> BigEndian(s[2..10]) == n)
            && (if key.Some? then s[at..at + 4] == key.value && forall i :: 0 <= i < n ==> s[at + 4 + i] == XorByte(payload[i], key.value[i % 4])
                else s[at..] == payload)
  {
    hide Pow2, BigEndian, Header, XorByte;
    var b1 := opcode % 16 + (if fin then 128 else 0);
    var h := Header(b1, |payload|, if key.Some? then 128 else 0);
    HeaderLayout(b1, |payload|, if key.Some? then 128 else 0);
    var s := Encode(opcode, payload, key, fin);
    assert s[..|h|] == h;
    assert 65536 <= |payload| ==> s[2..10] == h[2..10];
  }

  lemma ShortHeader(b1: byte, b2: byte, rest: seq<byte>)
    requires ExtendedLen(b2) == 0 && |rest| >= MaskLen(b2)
    ensures PayloadLen([b1, b2] + rest) == b2 % 128
  {
  }

  lemma WideHeader(b1: byte, b2: byte, len: nat, width: nat, rest: seq<byte>)
    requires ExtendedLen(b2) == width > 0 && len < Pow2(8 * width)
    requires |rest| >= MaskLen(b2)
    ensures var buf := [b1, b2] + ToBigEndian(len, width) + rest;
            |buf| >= HeaderLen(b2) && buf[0] == b1 && buf[1] == b2 && PayloadLen(buf) == len
  {
    hide Pow2, BigEndian, ToBigEndian;
    BigEndianRoundTrip(len, width);
    var ext := ToBigEndian(len, width);
    var buf := [b1, b2] + ext + rest;
    assert buf[2..2 + width] == ext;
  }

  lemma SixteenBits()
    ensures Pow2(16) == 65536
  {
    assert Pow2(8) == 256;
    Pow2Add(8, 8);
  }

  lemma LaidOut<T>(h: seq<T>, k: seq<T>, body: seq<T>, rest: seq<T>)
    ensures var buf := h + (k + body + rest);
            buf[|h|..|h| + |k|] == k && buf[|h| + |k|..|h| + |k| + |body|] == body
            && h + k + body + rest == buf
  {
  }

  /** Frame round trip over all three length forms, with and without a key, whatever bytes follow. */
  lemma {:induction false} DecodeEncode(opcode: nat, payload: Payload, key: Option<seq<byte>>, fin: bool, rest: seq<byte>)
    requires key.Some? ==> |key.value| == 4
    ensures var e := Encode(opcode, payload, key, fin);
            Decode(e + rest) == Some(Frame(fin, opcode % 16, key.Some?, |e|, payload))
  {
    hide Unmask, Pow2, Header, PayloadLen;
    var b1 := opcode % 16 + (if fin then 128 else 0);
    var h := Header(b1, |payload|, if key.Some? then 128 else 0);
    var k := if key.Some? then key.value else [];
    var body := if key.Some? then Unmask(payload, k) else payload;
    LaidOut(h, k, body, rest);
    HeaderDecodes(b1, |payload|, if key.Some? then 128 else 0, k + body + rest);
    assert Encode(opcode, payload, key, fin) == h + k + body;
    if key.Some? {
      UnmaskInvolutive(payload, k);
    }
  }
}
