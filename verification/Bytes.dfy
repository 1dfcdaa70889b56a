/** Bytes, exclusive or and big-endian numbers, as the protocol code in every module reads them. */
module Bytes {

  type byte = x: int | 0 <= x < 256

  function Pow2(k: nat): (p: nat)
    ensures p > 0
  {
    if k == 0 then 1 else 2 * Pow2(k - 1)
  }

  /** Bitwise exclusive or of two naturals. */
  function Xor(a: nat, b: nat): nat
    decreases a + b
  {
    if a == 0 && b == 0 then 0 else (a % 2 + b % 2) % 2 + 2 * Xor(a / 2, b / 2)
  }

  lemma {:induction false} XorBound(a: nat, b: nat, k: nat)
    requires a < Pow2(k) && b < Pow2(k)
    ensures Xor(a, b) < Pow2(k)
    decreases k
  {
    if k > 0 && (a != 0 || b != 0) {
      XorBound(a / 2, b / 2, k - 1);
    }
  }

  lemma XorHalves(a: nat, b: nat)
    ensures Xor(a, b) % 2 == (a % 2 + b % 2) % 2 && Xor(a, b) / 2 == Xor(a / 2, b / 2)
  {
  }

  lemma {:induction false} XorInvolutive(a: nat, b: nat)
    ensures Xor(Xor(a, b), b) == a
    decreases a + b
  {
    if a != 0 || b != 0 {
      XorInvolutive(a / 2, b / 2);
      XorHalves(a, b);
      XorHalves(Xor(a, b), b);
      hide Xor;
      Parity(a % 2, b % 2);
      SameHalves(Xor(Xor(a, b), b), a);
    }
  }

  lemma Parity(p: nat, q: nat)
    requires p < 2 && q < 2
    ensures ((p + q) % 2 + q) % 2 == p
  {
  }

  lemma SameHalves(a: nat, b: nat)
    requires a / 2 == b / 2 && a % 2 == b % 2
    ensures a == b
  {
  }

  lemma {:induction false} XorZero(a: nat)
    ensures Xor(a, 0) == a
  {
    if a != 0 {
      XorZero(a / 2);
    }
  }

  lemma XorStep(a: nat, b: nat)
    ensures Xor(a, b) == (a % 2 + b % 2) % 2 + 2 * Xor(a / 2, b / 2)
  {
  }

  lemma ParityShifted(a: nat, b: nat, q: nat, r: nat)
    ensures (a + 2 * q) / 2 == a / 2 + q && (b + 2 * r) / 2 == b / 2 + r
    ensures (a + 2 * q) % 2 == a % 2 && (b + 2 * r) % 2 == b % 2
  {
  }

  lemma XorShifted(a: nat, b: nat, q: nat, r: nat, t: nat)
    requires Xor(a / 2 + q, b / 2 + r) == Xor(a / 2, b / 2) + t
    ensures Xor(a + 2 * q, b + 2 * r) == Xor(a, b) + 2 * t
  {
    hide Xor;
    XorStep(a + 2 * q, b + 2 * r);
    XorStep(a, b);
    ParityShifted(a, b, q, r);
  }

  lemma DoubleProduct(p: nat, c: nat)
    ensures 2 * p * c == 2 * (p * c)
  {
  }

  lemma {:induction false} XorScaled(a: nat, b: nat, p: nat, c: nat, d: nat, h: nat)
    requires Xor(a / 2 + p * c, b / 2 + p * d) == Xor(a / 2, b / 2) + p * h
    ensures Xor(a + 2 * p * c, b + 2 * p * d) == Xor(a, b) + 2 * p * h
  {
    hide Xor;
    DoubleProduct(p, c);
    DoubleProduct(p, d);
    DoubleProduct(p, h);
    XorShifted(a, b, p * c, p * d, p * h);
  }

  /** Exclusive or works on the low k bits and on the rest independently. */
  lemma {:induction false} XorSplit(k: nat, a: nat, b: nat, c: nat, d: nat)
    requires a < Pow2(k) && b < Pow2(k)
    ensures Xor(a + Pow2(k) * c, b + Pow2(k) * d) == Xor(a, b) + Pow2(k) * Xor(c, d)
    decreases k
  {
    if k > 0 {
      hide Xor;
      XorSplit(k - 1, a / 2, b / 2, c, d);
      XorScaled(a, b, Pow2(k - 1), c, d, Xor(c, d));
    }
  }

  function XorByte(a: byte, b: byte): byte {
    ByteFitsXor(a, b);
    Xor(a, b)
  }

  lemma ByteFitsXor(a: byte, b: byte)
    ensures Xor(a, b) < 256
  {
    assert Pow2(8) == 256;
    XorBound(a, b, 8);
  }

  /** The number a byte string denotes, most significant byte first. */
  function BigEndian(s: seq<byte>): nat {
    if |s| == 0 then 0 else BigEndian(s[..|s| - 1]) * 256 + s[|s| - 1]
  }

  /** n written in exactly `width` bytes, most significant byte first. */
  function ToBigEndian(n: nat, width: nat): (s: seq<byte>)
    ensures |s| == width
  {
    if width == 0 then [] else ToBigEndian(n / 256, width - 1) + [n % 256]
  }

  lemma {:induction false} BigEndianRoundTrip(n: nat, width: nat)
    requires n < Pow2(8 * width)
    ensures BigEndian(ToBigEndian(n, width)) == n
  {
    if width > 0 {
      Pow2Byte(width - 1);
      BigEndianRoundTrip(n / 256, width - 1);
      var s := ToBigEndian(n, width);
      assert s[..|s| - 1] == ToBigEndian(n / 256, width - 1);
    }
  }

  lemma {:induction false} BigEndianBound(s: seq<byte>)
    ensures BigEndian(s) < Pow2(8 * |s|)
  {
    if |s| > 0 {
      var init := s[..|s| - 1];
      BigEndianBound(init);
      Pow2Byte(|init|);
    }
  }

  lemma Pow2Byte(k: nat)
    ensures Pow2(8 * (k + 1)) == 256 * Pow2(8 * k)
  {
    Pow2Add(8, 8 * k);
    assert Pow2(8) == 256;
  }

  lemma {:induction false} ToBigEndianRoundTrip(s: seq<byte>)
    ensures ToBigEndian(BigEndian(s), |s|) == s
  {
    if |s| > 0 {
      var init, last := s[..|s| - 1], s[|s| - 1];
      ToBigEndianRoundTrip(init);
      assert s == init + [last];
      assert BigEndian(s) == BigEndian(init) * 256 + last;
      LowByte(BigEndian(init), last);
    }
  }

  lemma LowByte(q: nat, r: byte)
    ensures (q * 256 + r) / 256 == q && (q * 256 + r) % 256 == r
  {
  }

  lemma {:induction false} BigEndianHead(s: seq<byte>)
    requires |s| > 0
    ensures BigEndian(s) == s[0] * Pow2(8 * (|s| - 1)) + BigEndian(s[1..])
  {
    if |s| == 1 {
      assert s[..0] == [] && s[1..] == [];
    } else {
      var init := s[..|s| - 1];
      BigEndianHead(init);
      assert s[1..][..|s| - 2] == init[1..];
      Pow2Byte(|s| - 2);
      Scale256(s[0], Pow2(8 * (|s| - 2)));
    }
  }

  lemma Scale256(a: nat, p: nat)
    ensures a * p * 256 == a * (256 * p)
  {
  }

  lemma {:induction false} Pow2Add(a: nat, b: nat)
    ensures Pow2(a + b) == Pow2(a) * Pow2(b)
  {
    if a > 0 {
      Pow2Add(a - 1, b);
      assert 2 * Pow2(a - 1) * Pow2(b) == 2 * (Pow2(a - 1) * Pow2(b));
    }
  }

  /** Concatenation of a list of byte strings. */
  function Concat<T>(parts: seq<seq<T>>): seq<T> {
    if |parts| == 0 then [] else parts[0] + Concat(parts[1..])
  }

  lemma {:induction false} ConcatAppend<T>(a: seq<seq<T>>, b: seq<seq<T>>)
    ensures Concat(a + b) == Concat(a) + Concat(b)
  {
    if |a| == 0 {
      assert a + b == b;
    } else {
      assert (a + b)[1..] == a[1..] + b;
      ConcatAppend(a[1..], b);
    }
  }
}
