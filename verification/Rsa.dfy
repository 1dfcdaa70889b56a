/** RSA with the padding of section 7.2 of RFC 8017: conversions, padding and their inverses. */
module Rsa {
  import opened Bytes
  import opened Modular
  import opened Wrappers

  // Hexadecimal digits

  type Hex = x: nat | x < 16

  function HexOfBytes(s: seq<byte>): (h: seq<Hex>)
    ensures |h| == 2 * |s|
  {
    if s == [] then [] else HexOfBytes(s[..|s| - 1]) + [s[|s| - 1] / 16, s[|s| - 1] % 16]
  }

  /** The number a string of hexadecimal digits denotes. */
  function HexValue(h: seq<Hex>): nat {
    if h == [] then 0 else HexValue(h[..|h| - 1]) * 16 + h[|h| - 1]
  }

  /** A number written in hexadecimal without leading zeros; zero is one digit. */
  function ToHex(n: nat): (h: seq<Hex>)
    ensures h != []
  {
    if n < 16 then [n] else ToHex(n / 16) + [n % 16]
  }

  function PadStart(h: seq<Hex>, width: nat): (r: seq<Hex>)
    ensures |r| == if |h| < width then width else |h|
  {
    if |h| < width then seq(width - |h|, _ => 0) + h else h
  }

  lemma {:induction false} HexOfBytesValue(s: seq<byte>)
    ensures HexValue(HexOfBytes(s)) == BigEndian(s)
  {
    if s != [] {
      var init, b := s[..|s| - 1], s[|s| - 1];
      HexOfBytesValue(init);
      var h := HexOfBytes(s);
      assert h[..|h| - 1] == HexOfBytes(init) + [b / 16];
      assert (HexOfBytes(init) + [b / 16])[..|h| - 2] == HexOfBytes(init);
    }
  }

  lemma {:induction false} ToHexValue(n: nat)
    ensures HexValue(ToHex(n)) == n
  {
    var h := ToHex(n);
    if n >= 16 {
      ToHexValue(n / 16);
      assert h[..|h| - 1] == ToHex(n / 16);
    }
  }

  lemma {:induction false} ToHexFits(n: nat, width: nat)
    requires n < Pow2(4 * width) && width > 0
    ensures |ToHex(n)| <= width
  {
    if n >= 16 {
      assert width > 1 by {
        assert Pow2(4) == 16;
      }
      Pow2Add(4, 4 * (width - 1));
      assert Pow2(4) == 16;
      ToHexFits(n / 16, width - 1);
    }
  }

  lemma {:induction false} ZerosAddNothing(k: nat, h: seq<Hex>)
    ensures HexValue(seq(k, _ => 0) + h) == HexValue(h)
    decreases |h| + k
  {
    var s: seq<Hex> := seq(k, _ => 0) + h;
    if h != [] {
      assert s[..|s| - 1] == seq(k, _ => 0) + h[..|h| - 1];
      ZerosAddNothing(k, h[..|h| - 1]);
    } else if k > 0 {
      assert s[..|s| - 1] == seq(k - 1, _ => 0) + h;
      ZerosAddNothing(k - 1, h);
    }
  }

  function Pairs(h: seq<Hex>): (s: seq<byte>)
    requires |h| % 2 == 0
    ensures |s| == |h| / 2
  {
    if h == [] then [] else Pairs(h[..|h| - 2]) + [h[|h| - 2] as nat * 16 + h[|h| - 1]]
  }

  lemma {:induction false} PairsValue(h: seq<Hex>)
    requires |h| % 2 == 0
    ensures BigEndian(Pairs(h)) == HexValue(h)
  {
    if h != [] {
      var init := h[..|h| - 2];
      PairsValue(init);
      assert h[..|h| - 1] == init + [h[|h| - 2]];
      assert (init + [h[|h| - 2]])[..|init|] == init;
      var s := Pairs(h);
      assert s[..|s| - 1] == Pairs(init);
    }
  }

  /** A number below 256^width, written by way of its padded hexadecimal digits, is its fixed-width big-endian form. */
  lemma HexRoute(n: nat, width: nat)
    requires width > 0 && n < Pow2(8 * width)
    ensures var h := PadStart(ToHex(n), 2 * width);
            |h| == 2 * width && Pairs(h) == ToBigEndian(n, width)
  {
    hide Pow2, ToHex, HexValue, Pairs, BigEndian, ToBigEndian;
    assert 4 * (2 * width) == 8 * width;
    ToHexFits(n, 2 * width);
    ToHexValue(n);
    var h := PadStart(ToHex(n), 2 * width);
    if |ToHex(n)| < 2 * width {
      ZerosAddNothing(2 * width - |ToHex(n)|, ToHex(n));
    }
    PairsValue(h);
    ToBigEndianRoundTrip(Pairs(h));
  }

  lemma {:induction false} HexBound(h: seq<Hex>)
    ensures HexValue(h) < Pow2(4 * |h|)
  {
    if h != [] {
      HexBound(h[..|h| - 1]);
      Pow2Add(4, 4 * (|h| - 1));
      assert Pow2(4) == 16;
    }
  }

  lemma {:induction false} Pow2Grows(a: nat, b: nat)
    requires a <= b
    ensures Pow2(a) <= Pow2(b)
    decreases b
  {
    if a < b {
      Pow2Grows(a, b - 1);
    }
  }

  /** Without a pad length the array gets two bytes for each pair of digits, and still holds the number. */
  lemma DefaultRoute(n: nat)
    ensures var k := (|ToHex(n)| + 1) / 2; var h := PadStart(ToHex(n), 4 * k);
            |h| == 4 * k && |Pairs(h)| == 2 * k && BigEndian(Pairs(h)) == n
  {
    hide ToHex, HexValue, Pairs, BigEndian;
    var h := PadStart(ToHex(n), 4 * ((|ToHex(n)| + 1) / 2));
    ToHexValue(n);
    if |ToHex(n)| < |h| {
      ZerosAddNothing(|h| - |ToHex(n)|, ToHex(n));
    }
    PairsValue(h);
  }

  /** A number too large for its pad length is not padded; of an odd number of digits the last one is lost. */
  lemma {:induction false} TooLargeRoute(n: nat, width: nat)
    requires n >= Pow2(8 * width)
    ensures var h := PadStart(ToHex(n), 2 * width); var k := |ToHex(n)| / 2;
            |h| / 2 == k && BigEndian(Pairs(h[..2 * k])) == if |ToHex(n)| % 2 == 0 then n else n / 16
  {
    var h := ToHex(n);
    ToHexValue(n);
    HexBound(h);
    if |h| <= 2 * width {
      Pow2Grows(4 * |h|, 8 * width);
    }
    PairsValue(h[..2 * (|h| / 2)]);
    if |h| % 2 == 0 {
      assert h[..2 * (|h| / 2)] == h;
    } else {
      assert h[..2 * (|h| / 2)] == h[..|h| - 1];
      assert HexValue(h) == HexValue(h[..|h| - 1]) * 16 + h[|h| - 1];
    }
  }

  // Padding

  predicate NonZero(s: seq<byte>) {
    forall i :: 0 <= i < |s| ==> s[i] != 0
  }

  /** A random byte, moved off zero: every other byte stays what it is. */
  function Stretch(b: byte): (r: byte)
    ensures r == if b == 0 then 1 else b
  {
    b as nat * 254 / 255 + 1
  }

  function Padded(ps: seq<byte>, message: seq<byte>): seq<byte> {
    [0, 2] + ps + [0] + message
  }

  function FirstZero(s: seq<byte>, from: nat): (i: nat)
    requires from <= |s|
    ensures from <= i <= |s| && (i < |s| ==> s[i] == 0)
    ensures forall k :: from <= k < i ==> s[k] != 0
    decreases |s| - from
  {
    if from == |s| || s[from] == 0 then from else FirstZero(s, from + 1)
  }

  function Unpadded(em: seq<byte>): Option<seq<byte>> {
    if |em| < 2 || em[0] != 0 || em[1] != 2 then None
    else if FirstZero(em, 2) == |em| then None
    else Some(em[FirstZero(em, 2) + 1..])
  }

  /** Unpadding finds the message exactly of the strings that padding makes, however short the padding is. */
  lemma UnpaddedIff(em: seq<byte>, message: seq<byte>)
    ensures Unpadded(em) == Some(message) <==> exists ps :: NonZero(ps) && em == Padded(ps, message)
  {
    if Unpadded(em) == Some(message) {
      var z := FirstZero(em, 2);
      var ps := em[2..z];
      assert em == Padded(ps, message);
      assert NonZero(ps);
    }
    if ps :| NonZero(ps) && em == Padded(ps, message) {
      PaddedUnpads(ps, message);
    }
  }

  lemma PaddedUnpads(ps: seq<byte>, message: seq<byte>)
    requires NonZero(ps)
    ensures Unpadded(Padded(ps, message)) == Some(message)
  {
    var em := Padded(ps, message);
    assert em[2 + |ps|] == 0;
    assert forall k :: 2 <= k < 2 + |ps| ==> em[k] == ps[k - 2];
    assert FirstZero(em, 2) == 2 + |ps|;
    assert em[2 + |ps| + 1..] == message;
  }

  // Round trip

  /** m^(e*d) = m mod n for every m below n: what makes (n, e) and (n, d) a key pair. */
  ghost predicate KeyPair(n: nat, e: nat, d: nat) {
    n > 0 && forall m: nat :: m < n ==> Pow(m, e * d) % n == m
  }

  lemma Inverse(m: nat, n: nat, e: nat, d: nat)
    requires KeyPair(n, e, d) && m < n
    ensures Pow(Pow(m, e) % n, d) % n == m
  {
    PowMod(Pow(m, e), d, n);
    PowMul(m, e, d);
  }

  function Encrypted(n: nat, e: nat, keyBytes: nat, message: seq<byte>, random: seq<byte>): Option<seq<byte>>
    requires n > 0 && |random| == if |message| + 3 <= keyBytes then keyBytes - |message| - 3 else 0
  {
    if |message| + 11 > keyBytes then None else
      var ps := seq(|random|, i requires 0 <= i < |random| => Stretch(random[i]));
      Some(ToBigEndian(Pow(BigEndian(Padded(ps, message)), e) % n, keyBytes))
  }

  function Decrypted(n: nat, d: nat, keyBytes: nat, c: seq<byte>): Option<seq<byte>>
    requires n > 0
  {
    if |c| != keyBytes then None else Unpadded(ToBigEndian(Pow(BigEndian(c), d) % n, keyBytes))
  }

  /** The modulus fills the key: its top byte is not zero. */
  predicate FullModulus(n: nat, keyBytes: nat) {
    keyBytes > 0 && Pow2(8 * (keyBytes - 1)) <= n < Pow2(8 * keyBytes)
  }

  lemma {:induction false} LeadingZero(em: seq<byte>)
    requires em != [] && em[0] == 0
    ensures BigEndian(em) == BigEndian(em[1..]) < Pow2(8 * (|em| - 1))
  {
    BigEndianHead(em);
    BigEndianBound(em[1..]);
    assert 0 * Pow2(8 * (|em| - 1)) == 0;
  }

  /** Decrypting an encryption returns every message short enough, whatever the random padding. */
  lemma RoundTrip(n: nat, e: nat, d: nat, keyBytes: nat, message: seq<byte>, random: seq<byte>)
    requires KeyPair(n, e, d) && FullModulus(n, keyBytes)
    requires |message| + 11 <= keyBytes && |random| == keyBytes - |message| - 3
    ensures var c := Encrypted(n, e, keyBytes, message, random);
            c.Some? && Decrypted(n, d, keyBytes, c.value) == Some(message)
  {
    hide Pow, Pow2, BigEndian, ToBigEndian, KeyPair, Unpadded;
    var ps := seq(|random|, i requires 0 <= i < |random| => Stretch(random[i]));
    var em := Padded(ps, message);
    LeadingZero(em);
    var m := BigEndian(em);
    var x := Pow(m, e) % n;
    BigEndianRoundTrip(x, keyBytes);
    Inverse(m, n, e, d);
    ToBigEndianRoundTrip(em);
    PaddedUnpads(ps, message);
  }

  /** The whole range: a message comes back if and only if it leaves room for eight bytes of padding; any
      other is refused before anything is encrypted. */
  lemma RoundTripIff(n: nat, e: nat, d: nat, keyBytes: nat, message: seq<byte>, random: seq<byte>)
    requires KeyPair(n, e, d) && FullModulus(n, keyBytes)
    requires |random| == if |message| + 3 <= keyBytes then keyBytes - |message| - 3 else 0
    ensures var c := Encrypted(n, e, keyBytes, message, random);
            && (c.Some? <==> |random| >= 8)
            && (c.Some? && Decrypted(n, d, keyBytes, c.value) == Some(message) <==> |message| + 11 <= keyBytes)
  {
    if |message| + 11 <= keyBytes {
      RoundTrip(n, e, d, keyBytes, message, random);
    }
  }

  /** What is encrypted and what is refused (section 7.2 of RFC 8017): the ciphertext, read most significant byte first, is
      the power of 00 02, at least eight non-zero bytes, 00 and the message. */
  lemma {:induction false} EncryptedIsPkcs1(n: nat, e: nat, keyBytes: nat, message: seq<byte>, random: seq<byte>)
    requires FullModulus(n, keyBytes)
    requires |random| == if |message| + 3 <= keyBytes then keyBytes - |message| - 3 else 0
    ensures var c := Encrypted(n, e, keyBytes, message, random);
            var ps := seq(|random|, i requires 0 <= i < |random| => if random[i] == 0 then 1 else random[i]);
            && (c.None? <==> keyBytes < |message| + 11)
            && (c.Some? ==> |c.value| == keyBytes && |ps| >= 8
                            && BigEndian(c.value) == Pow(BigEndian([0, 2] + ps + [0] + message), e) % n)
  {
    hide Pow, Pow2, BigEndian, ToBigEndian;
    var ps := seq(|random|, i requires 0 <= i < |random| => if random[i] == 0 then 1 else random[i]);
    assert ps == seq(|random|, i requires 0 <= i < |random| => Stretch(random[i]));
    if |message| + 11 <= keyBytes {
      BigEndianRoundTrip(Pow(BigEndian(Padded(ps, message)), e) % n, keyBytes);
    }
  }

  /** A ciphertext of another size than the key is refused; of the right size, what unpads is taken out of the power. */
  lemma {:induction false} DecryptedIs(n: nat, d: nat, keyBytes: nat, c: seq<byte>, message: seq<byte>)
    requires FullModulus(n, keyBytes)
    ensures |c| != keyBytes ==> Decrypted(n, d, keyBytes, c).None?
    ensures Decrypted(n, d, keyBytes, c) == Some(message) <==>
            |c| == keyBytes && exists ps :: NonZero(ps) && |ps| + |message| + 3 == keyBytes
                                            && BigEndian(Padded(ps, message)) == Pow(BigEndian(c), d) % n
  {
    hide Pow, Pow2, BigEndian, ToBigEndian, Unpadded;
    var x := Pow(BigEndian(c), d) % n;
    BigEndianRoundTrip(x, keyBytes);
    var em := ToBigEndian(x, keyBytes);
    UnpaddedIff(em, message);
    if ps :| NonZero(ps) && |ps| + |message| + 3 == keyBytes && BigEndian(Padded(ps, message)) == x {
      ToBigEndianRoundTrip(Padded(ps, message));
    }
  }
}
