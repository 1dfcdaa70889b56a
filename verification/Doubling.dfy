/** Doubling in GF(2^128), on numbers and on big-endian byte strings (section 2.3 of RFC 4493). */
module Doubling {
  import opened Arith
  import opened Bytes

  // Exclusive or

  lemma {:induction false} XorCommutes(a: nat, b: nat)
    ensures Xor(a, b) == Xor(b, a)
    decreases a + b
  {
    if a != 0 || b != 0 {
      XorCommutes(a / 2, b / 2);
    }
  }

  lemma {:induction false} XorAssociates(a: nat, b: nat, c: nat)
    ensures Xor(Xor(a, b), c) == Xor(a, Xor(b, c))
    decreases a + b + c
  {
    if a == 0 && b == 0 {
      XorCommutes(0, c);
      XorZero(c);
    } else {
      hide Xor;
      XorAssociates(a / 2, b / 2, c / 2);
      var left, right := XorOfThree(a, b, c), XorOfThree(b, c, a);
      ThreeHalves(a, b, c);
      ThreeHalves(b, c, a);
      XorCommutes(Xor(b, c), a);
      XorCommutes(Xor(b / 2, c / 2), a / 2);
      ParityAssociates(a % 2, b % 2, c % 2);
      XorMeets(left, right);
    }
  }

  function XorOfThree(a: nat, b: nat, c: nat): nat {
    Xor(Xor(a, b), c)
  }

  lemma {:induction false} ThreeHalves(a: nat, b: nat, c: nat)
    ensures XorOfThree(a, b, c) / 2 == XorOfThree(a / 2, b / 2, c / 2)
    ensures XorOfThree(a, b, c) % 2 == ((a % 2 + b % 2) % 2 + c % 2) % 2
  {
    XorHalf(a, b);
    XorHalf(Xor(a, b), c);
    hide Xor;
  }

  lemma ParityAssociates(p: nat, q: nat, r: nat)
    ensures ((p + q) % 2 + r) % 2 == ((q + r) % 2 + p) % 2
  {
  }

  lemma XorHalf(a: nat, b: nat)
    ensures Xor(a, b) / 2 == Xor(a / 2, b / 2) && Xor(a, b) % 2 == (a % 2 + b % 2) % 2
  {
    hide Xor;
    XorStep(a, b);
  }

  lemma XorMeets(x: nat, y: nat)
    requires x / 2 == y / 2 && x % 2 == y % 2
    ensures x == y
  {
  }

  lemma XorDoubles(a: nat, b: nat)
    ensures Xor(2 * a, 2 * b) == 2 * Xor(a, b)
  {
    XorStep(2 * a, 2 * b);
  }

  // The specification

  const R := 0x87

  /** The block size in bits. */
  function Width(): (n: nat)
    ensures n == 128
  {
    128
  }

  /** Shift left by one in 128 bits; a one that falls out comes back as the constant of the field. */
  function Double(x: nat): nat
    requires x < Pow2(Width())
  {
    Xor(2 * x % Pow2(Width()), if x >= Pow2(Width() - 1) then R else 0)
  }

  /** lut: what two bits that fall out come back as, in the low byte. */
  function Lut(v: nat): byte
    requires v < 4
  {
    if v == 0 then 0 else if v == 1 then 0x87 else if v == 2 then 0x0e else 0x89
  }

  /** The reduction constant, or nothing. */
  function Back(bit: bool): (c: nat)
    ensures c < 256
  {
    if bit then R else 0
  }

  function Lookup(hi: bool, lo: bool): byte {
    Lut((if hi then 2 else 0) + if lo then 1 else 0)
  }

  lemma LutIsReduction(hi: bool, lo: bool)
    ensures Xor(2 * Back(hi), Back(lo)) == (if hi then 256 else 0) + Lookup(hi, lo)
  {
    hide Xor, Pow2;
    XorZero(0x10e);
    XorZero(0);
    XorCommutes(0, 0x87);
    XorZero(0x87);
    ReductionOverlap();
  }

  lemma {:induction false} ReductionOverlap()
    ensures Xor(0x10e, 0x87) == 0x189
  {
    hide Xor;
    XorZero(1);
    XorStep(0x10e, 0x87);
    XorStep(0x87, 0x43);
    XorStep(0x43, 0x21);
    XorStep(0x21, 0x10);
    XorStep(0x10, 8);
    XorStep(8, 4);
    XorStep(4, 2);
    XorStep(2, 1);
  }

  function Top(bit: bool): nat {
    if bit then Pow2(Width() - 1) else 0
  }

  function Second(bit: bool): nat {
    if bit then Pow2(Width() - 2) else 0
  }

  lemma Halves()
    ensures Pow2(Width()) == 2 * Pow2(Width() - 1) && Pow2(Width() - 1) == 2 * Pow2(Width() - 2)
    ensures 512 < Pow2(Width() - 1)
  {
    assert Pow2(10) == 1024;
    Pow2Add(10, Width() - 11);
  }

  lemma {:induction false} TopSplit(x: nat, hi: bool, low: nat)
    requires low < Pow2(Width() - 1) && x == Top(hi) + low
    ensures x < Pow2(Width()) && (x >= Pow2(Width() - 1) <==> hi) && 2 * x % Pow2(Width()) == 2 * low
  {
    Halves();
    hide Pow2, Width;
    DivisionUnique(2 * x, Pow2(Width()), if hi then 1 else 0, 2 * low);
  }

  lemma XorBelowTop(low: nat, c: nat, bit: bool)
    requires low < Pow2(Width() - 1) && c < Pow2(Width() - 1)
    ensures Xor(low + Top(bit), c) == Xor(low, c) + Top(bit) && Xor(low, c) < Pow2(Width() - 1)
  {
    hide Pow2, Width, Xor;
    XorBound(low, c, Width() - 1);
    XorSplit(Width() - 1, low, c, if bit then 1 else 0, 0);
    XorZero(0);
    XorZero(1);
  }

  lemma DoubleOnce(x: nat, hi: bool, lo: bool, low: nat)
    requires low < Pow2(Width() - 2) && x == Top(hi) + Second(lo) + low
    ensures x < Pow2(Width())
    ensures Xor(2 * low, Back(hi)) < Pow2(Width() - 1)
    ensures Double(x) == Xor(2 * low + Top(lo), Back(hi)) == Xor(2 * low, Back(hi)) + Top(lo)
  {
    Halves();
    hide Pow2, Xor, Width;
    Reduced(x, hi, Second(lo) + low);
    XorBelowTop(2 * low, Back(hi), lo);
  }

  /** Doubling twice at once: shift by two, and bring the two bits that fall out back by the table. */
  lemma {:induction false} DoubleTwice(x: nat, hi: bool, lo: bool, low: nat)
    requires low < Pow2(Width() - 2) && x == Top(hi) + Second(lo) + low
    ensures x < Pow2(Width()) && Double(x) < Pow2(Width())
    ensures Double(x) == Xor(2 * low + Top(lo), Back(hi))
    ensures Double(Double(x)) == Xor(4 * low, (if hi then 256 else 0) + Lookup(hi, lo))
  {
    hide Pow2, Xor, Width, Lookup, Top, Second, Back, Double;
    DoubleOnce(x, hi, lo, low);
    var y := Xor(2 * low, Back(hi));
    Reduced(Double(x), lo, y);
    XorDoubles(2 * low, Back(hi));
    XorAssociates(4 * low, 2 * Back(hi), Back(lo));
    LutIsReduction(hi, lo);
    assert 2 * (2 * low) == 4 * low;
  }

  lemma {:induction false} Reduced(x: nat, hi: bool, low: nat)
    requires low < Pow2(Width() - 1) && x == Top(hi) + low
    ensures x < Pow2(Width()) && Double(x) == Xor(2 * low, Back(hi))
  {
    hide Pow2, Xor, Width;
    TopSplit(x, hi, low);
  }

  // The byte strings

  /** Shift left by one or two bits with the bits c coming in at the low end. */
  function ShiftIn(s: seq<byte>, two: bool, c: nat): (t: seq<byte>)
    requires c < (if two then 4 else 2)
    ensures |t| == |s|
  {
    if s == [] then [] else
      var b := s[|s| - 1];
      ShiftIn(s[..|s| - 1], two, if two then b / 64 else b / 128) + [(if two then b as nat * 4 else b as nat * 2) % 256 + c]
  }

  lemma {:induction false} ScaleMod(x: nat, m: nat, y: nat)
    requires m > 0 && y < 256
    ensures 256 * m > 0 && (x % m) * 256 + y == (x * 256 + y) % (256 * m)
  {
    DivisionBounds(x, m);
    var q, r := x / m, x % m;
    MulMonotone(r + 1, m, 256);
    assert x * 256 + y == q * (256 * m) + (r * 256 + y);
    DivisionUnique(x * 256 + y, 256 * m, q, r * 256 + y);
  }

  lemma {:induction false} ShiftInValue(s: seq<byte>, two: bool, c: nat)
    requires c < (if two then 4 else 2)
    ensures BigEndian(ShiftIn(s, two, c)) == (BigEndian(s) * (if two then 4 else 2) + c) % Pow2(8 * |s|)
    decreases |s|
  {
    if s == [] {
      assert Pow2(0) == 1;
    } else {
      var init, b, f := s[..|s| - 1], s[|s| - 1], if two then 4 else 2;
      var carry := if two then b / 64 else b / 128;
      ShiftInValue(init, two, carry);
      var t := ShiftIn(s, two, c);
      assert t[..|t| - 1] == ShiftIn(init, two, carry);
      Pow2Byte(|init|);
      var y := b as nat * f % 256 + c;
      assert t[|t| - 1] == y;
      hide Pow2, ShiftIn, BigEndian;
      ShiftByte(BigEndian(init), b, two, c);
      ScaleMod(BigEndian(init) * f + carry, Pow2(8 * |init|), y);
      LastByte(s);
      LastByte(t);
    }
  }

  lemma ShiftByte(high: nat, b: byte, two: bool, c: nat)
    requires c < (if two then 4 else 2)
    ensures var f := if two then 4 else 2;
            var carry, y := if two then b / 64 else b / 128, b as nat * f % 256 + c;
            y < 256 && (high * f + carry) * 256 + y == (high * 256 + b) * f + c
  {
    if two {
      assert b as nat * 4 == b / 64 * 256 + b as nat * 4 % 256;
    } else {
      assert b as nat * 2 == b / 128 * 256 + b as nat * 2 % 256;
    }
  }

  lemma LastByte(s: seq<byte>)
    requires s != []
    ensures BigEndian(s) == BigEndian(s[..|s| - 1]) * 256 + s[|s| - 1]
  {
  }

  /** Exclusive or with a number of two bytes touches the last two bytes only. */
  lemma XorLastTwo(s: seq<byte>, a: byte, b: byte)
    requires |s| >= 2
    ensures var t := s[|s| - 2 := XorByte(s[|s| - 2], a)][|s| - 1 := XorByte(s[|s| - 1], b)];
            BigEndian(t) == Xor(BigEndian(s), a as nat * 256 + b)
  {
    var n := |s|;
    var u := s[n - 2 := XorByte(s[n - 2], a)];
    var t := u[n - 1 := XorByte(s[n - 1], b)];
    assert u[..n - 1] == s[..n - 1][n - 2 := XorByte(s[n - 2], a)] && t[..n - 1] == u[..n - 1];
    XorLast(s[..n - 1], a);
    LastByte(s);
    LastByte(t);
    assert Pow2(8) == 256;
    hide BigEndian, Xor, Pow2;
    XorSplit(8, s[n - 1], b, BigEndian(s[..n - 1]), a);
  }

  lemma XorLast(s: seq<byte>, a: byte)
    requires s != []
    ensures BigEndian(s[|s| - 1 := XorByte(s[|s| - 1], a)]) == Xor(BigEndian(s), a)
  {
    var n := |s|;
    var t := s[n - 1 := XorByte(s[n - 1], a)];
    assert t[..n - 1] == s[..n - 1];
    LastByte(s);
    LastByte(t);
    assert Pow2(8) == 256;
    hide BigEndian, Xor, Pow2;
    XorSplit(8, s[n - 1], a, BigEndian(s[..n - 1]), 0);
    XorZero(BigEndian(s[..n - 1]));
  }
}
