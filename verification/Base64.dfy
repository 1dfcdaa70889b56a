/** Base64, with the bit accumulator of the decoder. Section 4 of RFC 4648 gives the encoding. */
module Base64 {
  import opened Bytes
  import opened Wrappers

  const PAD := '='

  /** The table of digits. */
  function Digit(i: nat): (c: char)
    requires i < 64
    ensures c != PAD
  {
    if i < 26 then 'A' + i as char
    else if i < 52 then 'a' + (i - 26) as char
    else if i < 62 then '0' + (i - 52) as char
    else if i == 62 then '+' else '/'
  }

  /** The table read backwards, by the low seven bits of the character code; padding counts as 0, -1 is an illegal character. */
  function Value(c: char): (v: int)
    ensures -1 <= v < 64
  {
    var k := c as int % 128;
    if 65 <= k <= 90 then k - 65
    else if 97 <= k <= 122 then k - 71
    else if 48 <= k <= 57 then k + 4
    else if k == 43 then 62
    else if k == 47 then 63
    else if k == 61 then 0
    else -1
  }

  lemma DigitHasItsValue(i: nat)
    requires i < 64
    ensures Value(Digit(i)) == i
  {
  }

  /** A character is legal exactly if its low seven bits are those of a digit, whose place in the table is its value, or
      of the padding, which counts as 0. */
  lemma {:induction false} LegalIff(c: char)
    ensures Value(c) == -1 <==> c as int % 128 != 61 && forall i :: 0 <= i < 64 ==> Digit(i) as int != c as int % 128
    ensures Value(c) >= 0 && c as int % 128 != 61 ==> Digit(Value(c)) as int == c as int % 128
    ensures c as int % 128 == 61 ==> Value(c) == 0
  {
    if Value(c) >= 0 && c as int % 128 != 61 {
      assert Digit(Value(c)) as int == c as int % 128;
    }
  }

  // The encoder

  function Group(x: byte, y: byte, z: byte): (s: string)
    ensures |s| == 4
  {
    [Digit(x / 4), Digit(x % 4 * 16 + y / 16), Digit(y % 16 * 4 + z / 64), Digit(z % 64)]
  }

  function Tail(data: seq<byte>): (s: string)
    requires |data| < 3
  {
    if |data| == 2 then [Digit(data[0] / 4), Digit(data[0] % 4 * 16 + data[1] / 16), Digit(data[1] % 16 * 4), PAD]
    else if |data| == 1 then [Digit(data[0] / 4), Digit(data[0] % 4 * 16), PAD, PAD]
    else ""
  }

  function Encoded(data: seq<byte>): string {
    if |data| < 3 then Tail(data) else Group(data[0], data[1], data[2]) + Encoded(data[3..])
  }

  // What the text means

  /** The alphabet of section 4 of RFC 4648, in ASCII codes. */
  lemma {:induction false} DigitIsOfTheAlphabet(i: nat)
    requires i < 64
    ensures Digit(i) as int == if i < 26 then 65 + i else if i < 52 then 97 + i - 26 else if i < 62 then 48 + i - 52 else if i == 62 then 43 else 47
  {
  }

  /** Four digits of a number, six bits each, the most significant first. */
  function Sextets(n: nat): (s: string)
    requires n < 0x100_0000
    ensures |s| == 4
  {
    [Digit(n / 0x4_0000), Digit(n / 0x1000 % 64), Digit(n / 64 % 64), Digit(n % 64)]
  }

  /** Four sextets put together and taken apart again. */
  lemma {:induction false} SextetsApart(i: nat, j: nat, k: nat, l: nat)
    requires i < 64 && j < 64 && k < 64 && l < 64
    ensures var n := ((i * 64 + j) * 64 + k) * 64 + l;
            n / 0x4_0000 == i && n / 0x1000 % 64 == j && n / 64 % 64 == k && n % 64 == l
  {
    var n := ((i * 64 + j) * 64 + k) * 64 + l;
    assert n / 64 == (i * 64 + j) * 64 + k;
    assert n / 0x1000 == i * 64 + j;
  }

  /** Three bytes are the same number as the four sextets cut from them. */
  lemma {:induction false} SextetsOfBytes(x: byte, y: byte, z: byte)
    ensures (((x / 4) * 64 + (x % 4 * 16 + y / 16)) * 64 + (y % 16 * 4 + z / 64)) * 64 + z % 64 == (x * 256 + y) * 256 + z
    ensures x / 4 < 64 && x % 4 * 16 + y / 16 < 64 && y % 16 * 4 + z / 64 < 64
  {
  }

  lemma {:induction false} GroupIsNumber(x: byte, y: byte, z: byte)
    ensures Group(x, y, z) == Sextets((x * 256 + y) * 256 + z)
  {
    hide Digit;
    SextetsOfBytes(x, y, z);
    SextetsApart(x / 4, x % 4 * 16 + y / 16, y % 16 * 4 + z / 64, z % 64);
  }

  /** The bits of the group that starts at byte 3 * g, with zeros for the bytes that are missing. */
  function GroupBits(data: seq<byte>, g: nat): (n: nat)
    requires 3 * g < |data|
    ensures n < 0x100_0000
  {
    var x: nat, y: nat, z: nat := data[3 * g], if 3 * g + 1 < |data| then data[3 * g + 1] else 0, if 3 * g + 2 < |data| then data[3 * g + 2] else 0;
    (x * 256 + y) * 256 + z
  }

  /** How many digits of the group that starts at byte 3 * g are not padding. */
  function DigitsOf(data: seq<byte>, g: nat): nat {
    if |data| >= 3 * g + 3 then 4 else if |data| == 3 * g + 2 then 3 else 2
  }

  lemma {:induction false} TailIsNumber(data: seq<byte>)
    requires 1 <= |data| <= 2
    ensures |Tail(data)| == 4 && Tail(data)[..DigitsOf(data, 0)] == Sextets(GroupBits(data, 0))[..DigitsOf(data, 0)]
    ensures forall i :: DigitsOf(data, 0) <= i < 4 ==> Tail(data)[i] == PAD
  {
    var x, y := data[0], if |data| == 2 then data[1] else 0;
    GroupIsNumber(x, y, 0);
    assert Group(x, y, 0)[0] == Digit(x / 4) && Group(x, y, 0)[1] == Digit(x % 4 * 16 + y / 16) && Group(x, y, 0)[2] == Digit(y % 16 * 4);
    hide Sextets, Digit;
  }

  /** The four characters from `at` on are the first n digits, and then padding. */
  predicate Spells(s: string, at: nat, digits: string, n: nat)
    requires |digits| == 4 && n <= 4
  {
    at + 4 <= |s| && s[at..at + n] == digits[..n] && forall i :: at + n <= i < at + 4 ==> s[i] == PAD
  }

  lemma {:induction false} SpellsBehind(first: string, rest: string, at: nat, digits: string, n: nat)
    requires |digits| == 4 && n <= 4 && |first| == 4 && Spells(rest, at, digits, n)
    ensures Spells(first + rest, at + 4, digits, n)
  {
    var s := first + rest;
    assert s[at + 4..at + 4 + n] == rest[at..at + n];
    forall i | at + 4 + n <= i < at + 8
      ensures s[i] == PAD
    {
      assert s[i] == rest[i - 4];
    }
  }

  /** The encoding, digit by digit: every three bytes are four digits of six bits, the most significant first, and
      what is missing of the last three is padding. */
  lemma {:induction false} EncodedIsRfc(data: seq<byte>, g: nat)
    requires 3 * g < |data|
    ensures |Encoded(data)| == (|data| + 2) / 3 * 4
    ensures Spells(Encoded(data), 4 * g, Sextets(GroupBits(data, g)), DigitsOf(data, g))
    decreases |data|
  {
    hide Group, Tail, Digit, Sextets;
    EncodedSize(data);
    if |data| < 3 {
      TailIsNumber(data);
    } else {
      var first, rest := Group(data[0], data[1], data[2]), Encoded(data[3..]);
      if g == 0 {
        GroupIsNumber(data[0], data[1], data[2]);
        assert (first + rest)[0..4] == first;
      } else {
        hide Spells;
        EncodedIsRfc(data[3..], g - 1);
        assert GroupBits(data[3..], g - 1) == GroupBits(data, g) && DigitsOf(data[3..], g - 1) == DigitsOf(data, g);
        SpellsBehind(first, rest, 4 * (g - 1), Sextets(GroupBits(data, g)), DigitsOf(data, g));
      }
    }
  }

  lemma {:induction false} EncodedSize(data: seq<byte>)
    ensures |Encoded(data)| == (|data| + 2) / 3 * 4
    decreases |data|
  {
    if |data| >= 3 {
      EncodedSize(data[3..]);
    }
  }

  // The decoder

  /** Bits decoded but not yet appended, their number, and the bytes appended. */
  datatype Acc = Acc(bits: nat, left: nat, out: seq<byte>)

  predicate AccOk(a: Acc) {
    (a.bits == 0 || a.bits == 2 || a.bits == 4 || a.bits == 6) && a.left < Pow2(a.bits)
  }

  lemma SmallPowers()
    ensures Pow2(0) == 1 && Pow2(2) == 4 && Pow2(4) == 16 && Pow2(6) == 64
  {
    assert Pow2(4) == 16;
  }

  function Feed(a: Acc, c: char): (r: Acc)
    requires AccOk(a)
    ensures AccOk(r)
  {
    SmallPowers();
    var v := Value(c);
    if v == -1 then a else
      var left, bits := a.left * 64 + v, a.bits + 6;
      if bits < 8 then Acc(bits, left, a.out)
      else
        Acc(bits - 8, left % Pow2(bits - 8), if c == PAD then a.out else a.out + [left / Pow2(bits - 8) % 256])
  }

  function FeedAll(a: Acc, s: string): (r: Acc)
    requires AccOk(a)
    ensures AccOk(r)
    decreases |s|
  {
    if s == [] then a else Feed(FeedAll(a, s[..|s| - 1]), s[|s| - 1])
  }

  const START := Acc(0, 0, [])

  /** The bytes, or none for a corrupted string. */
  function Decoded(s: string): Option<seq<byte>> {
    SmallPowers();
    var a := FeedAll(START, s);
    if a.bits != 0 then None else Some(a.out)
  }

  function IndexOf(s: string, c: char): (i: int)
    ensures -1 <= i < |s|
  {
    if s == [] then -1
    else if s[0] == c then 0
    else if IndexOf(s[1..], c) == -1 then -1 else 1 + IndexOf(s[1..], c)
  }

  /** The length the result array is made with: everything before the first padding counts, legal or not. */
  function ResultLength(data: string, offset: nat): nat
    requires offset <= |data|
  {
    var n := IndexOf(data, PAD) - offset;
    var dataLength := if n < 0 then |data| - offset else n;
    dataLength / 4 * 3 + dataLength % 4 * 2 / 3
  }

  // Round trip

  lemma {:induction false} FeedAppend(a: Acc, s: string, t: string)
    requires AccOk(a)
    ensures FeedAll(a, s + t) == FeedAll(FeedAll(a, s), t)
    decreases |t|
  {
    if t == [] {
      assert s + t == s;
    } else {
      var st := s + t;
      assert st[..|st| - 1] == s + t[..|t| - 1];
      FeedAppend(a, s, t[..|t| - 1]);
    }
  }

  lemma FeedFour(a: Acc, c0: char, c1: char, c2: char, c3: char)
    requires AccOk(a)
    ensures FeedAll(a, [c0, c1, c2, c3]) == Feed(Feed(Feed(Feed(a, c0), c1), c2), c3)
  {
    var s := [c0, c1, c2, c3];
    assert s[..3] == [c0, c1, c2] && s[..3][..2] == [c0, c1] && [c0, c1][..1] == [c0] && [c0][..0] == [];
    assert FeedAll(a, [c0]) == Feed(a, c0);
    assert FeedAll(a, [c0, c1]) == Feed(Feed(a, c0), c1);
    assert FeedAll(a, [c0, c1, c2]) == Feed(Feed(Feed(a, c0), c1), c2);
  }

  /** What one digit does to the accumulator. */
  lemma FeedDigit(bits: nat, left: nat, out: seq<byte>, i: nat)
    requires AccOk(Acc(bits, left, out)) && i < 64
    ensures var a := Acc(bits, left, out); var d := left * 64 + i;
            Feed(a, Digit(i)) ==
            if bits == 0 then Acc(6, d, out)
            else if bits == 2 then Acc(0, 0, out + [d % 256])
            else if bits == 4 then Acc(2, d % 4, out + [d / 4 % 256])
            else Acc(4, d % 16, out + [d / 16 % 256])
  {
    SmallPowers();
    DigitHasItsValue(i);
  }

  lemma FeedPad(bits: nat, out: seq<byte>)
    requires AccOk(Acc(bits, 0, out))
    ensures Feed(Acc(bits, 0, out), PAD) == Acc(if bits == 0 then 6 else bits - 2, 0, out)
  {
    SmallPowers();
  }

  lemma JoinFirst(x: nat, y: nat)
    requires x < 256 && y < 256
    ensures var d := x / 4 * 64 + (x % 4 * 16 + y / 16);
            d / 16 == x && d / 16 % 256 == x && d % 16 == y / 16 && x % 4 * 16 + y / 16 < 64
  {
    assert x / 4 * 64 + x % 4 * 16 == 16 * x;
  }

  lemma JoinSecond(y: nat, z: nat)
    requires y < 256 && z < 256
    ensures var d := y / 16 * 64 + (y % 16 * 4 + z / 64);
            d / 4 == y && d / 4 % 256 == y && d % 4 == z / 64 && y % 16 * 4 + z / 64 < 64
  {
    assert y / 16 * 64 + y % 16 * 4 == 4 * y;
  }

  lemma GroupDecodes(x: byte, y: byte, z: byte, out: seq<byte>)
    ensures AccOk(Acc(0, 0, out))
    ensures FeedAll(Acc(0, 0, out), Group(x, y, z)) == Acc(0, 0, out + [x, y, z])
  {
    SmallPowers();
    hide Feed, Digit, Pow2;
    var i1, i2 := x % 4 * 16 + y / 16, y % 16 * 4 + z / 64;
    JoinFirst(x, y);
    JoinSecond(y, z);
    FeedDigit(0, 0, out, x / 4);
    FeedDigit(6, x / 4, out, i1);
    FeedDigit(4, y / 16, out + [x], i2);
    FeedDigit(2, z / 64, out + [x] + [y], z % 64);
    assert z / 64 * 64 + z % 64 == z;
    assert out + [x] + [y] + [z] == out + [x, y, z];
    FeedFour(Acc(0, 0, out), Digit(x / 4), Digit(i1), Digit(i2), Digit(z % 64));
  }

  lemma TailDecodes(data: seq<byte>, out: seq<byte>)
    requires |data| < 3
    ensures AccOk(Acc(0, 0, out))
    ensures FeedAll(Acc(0, 0, out), Tail(data)) == Acc(0, 0, out + data)
  {
    SmallPowers();
    hide Feed, Digit, Pow2;
    if |data| == 0 {
      assert out + data == out;
    } else if |data| == 1 {
      var x := data[0];
      JoinFirst(x, 0);
      FeedDigit(0, 0, out, x / 4);
      FeedDigit(6, x / 4, out, x % 4 * 16);
      FeedPad(4, out + [x]);
      FeedPad(2, out + [x]);
      assert out + [x] == out + data;
      FeedFour(Acc(0, 0, out), Digit(x / 4), Digit(x % 4 * 16), PAD, PAD);
    } else {
      var x, y := data[0], data[1];
      JoinFirst(x, y);
      JoinSecond(y, 0);
      FeedDigit(0, 0, out, x / 4);
      FeedDigit(6, x / 4, out, x % 4 * 16 + y / 16);
      FeedDigit(4, y / 16, out + [x], y % 16 * 4);
      FeedPad(2, out + [x] + [y]);
      assert out + [x] + [y] == out + data;
      FeedFour(Acc(0, 0, out), Digit(x / 4), Digit(x % 4 * 16 + y / 16), Digit(y % 16 * 4), PAD);
    }
  }

  lemma {:induction false} EncodedDecodes(data: seq<byte>, out: seq<byte>)
    ensures AccOk(Acc(0, 0, out))
    ensures FeedAll(Acc(0, 0, out), Encoded(data)) == Acc(0, 0, out + data)
    decreases |data|
  {
    if |data| < 3 {
      TailDecodes(data, out);
    } else {
      SmallPowers();
      hide Feed, FeedAll, Group, Tail, Pow2;
      var x, y, z, rest := data[0], data[1], data[2], data[3..];
      assert Encoded(data) == Group(x, y, z) + Encoded(rest);
      hide Encoded;
      var more := out + [x, y, z];
      assert more + rest == out + data;
      GroupDecodes(x, y, z, out);
      EncodedDecodes(rest, more);
      FeedAppend(Acc(0, 0, out), Group(x, y, z), Encoded(rest));
    }
  }

  lemma IndexOfNone(s: string, c: char)
    requires forall i :: 0 <= i < |s| ==> s[i] != c
    ensures IndexOf(s, c) == -1
  {
  }

  lemma {:induction false} IndexOfAppend(s: string, t: string, c: char)
    requires forall i :: 0 <= i < |s| ==> s[i] != c
    ensures IndexOf(s + t, c) == if IndexOf(t, c) == -1 then -1 else |s| + IndexOf(t, c)
  {
    if s == [] {
      assert s + t == t;
    } else {
      assert (s + t)[1..] == s[1..] + t && (s + t)[0] == s[0];
      IndexOfAppend(s[1..], t, c);
    }
  }

  lemma {:induction false} IndexOfFirst(s: string, c: char)
    ensures var p := IndexOf(s, c);
            if p == -1 then forall i :: 0 <= i < |s| ==> s[i] != c
            else s[p] == c && forall i :: 0 <= i < p ==> s[i] != c
  {
    if s != [] && s[0] != c {
      IndexOfFirst(s[1..], c);
    }
  }

  lemma TailPad(data: seq<byte>)
    requires |data| < 3
    ensures IndexOf(Tail(data), PAD) == if |data| == 0 then -1 else |data| + 1
    ensures |Tail(data)| == if |data| == 0 then 0 else 4
  {
    var t := Tail(data);
    if |data| == 2 {
      IndexOfAppend(t[..3], [PAD], PAD);
      assert t == t[..3] + [PAD];
    } else if |data| == 1 {
      IndexOfAppend(t[..2], [PAD, PAD], PAD);
      assert t == t[..2] + [PAD, PAD];
    }
  }

  /** Where the first padding of an encoding is, and how long the encoding is. */
  lemma {:induction false} EncodedPad(data: seq<byte>)
    ensures |Encoded(data)| == (|data| + 2) / 3 * 4
    ensures IndexOf(Encoded(data), PAD) == if |data| % 3 == 0 then -1 else |data| / 3 * 4 + |data| % 3 + 1
  {
    if |data| < 3 {
      TailPad(data);
    } else {
      EncodedPad(data[3..]);
      var n := |data| - 3;
      assert (n + 3) / 3 == n / 3 + 1 && (n + 3) % 3 == n % 3 && (n + 5) / 3 == (n + 2) / 3 + 1;
      IndexOfAppend(Group(data[0], data[1], data[2]), Encoded(data[3..]), PAD);
    }
  }

  /** Every byte string survives, without an error, and fills the preallocated result exactly. */
  lemma {:induction false} RoundTrip(data: seq<byte>)
    ensures Decoded(Encoded(data)) == Some(data)
    ensures ResultLength(Encoded(data), 0) == |data|
  {
    EncodedDecodes(data, []);
    assert [] + data == data;
    EncodedPad(data);
    GroupsOfFour(|data| / 3, |data| % 3);
    hide Encoded, IndexOf, Decoded;
  }

  lemma GroupsOfFour(q: nat, r: nat)
    requires r < 3
    ensures (3 * q + r + 2) / 3 * 4 == if r == 0 then 4 * q else 4 * q + 4
    ensures 4 * q / 4 * 3 + 4 * q % 4 * 2 / 3 == 3 * q
    ensures r > 0 ==> var n := 4 * q + r + 1; n / 4 * 3 + n % 4 * 2 / 3 == 3 * q + r
  {
    assert r > 0 ==> (4 * q + r + 1) / 4 == q && (4 * q + r + 1) % 4 == r + 1;
  }

  // Which strings are corrupted

  function LegalCount(s: string): nat
    decreases |s|
  {
    if s == [] then 0 else LegalCount(s[..|s| - 1]) + if Value(s[|s| - 1]) == -1 then 0 else 1
  }

  lemma {:induction false} BitsOfLegal(s: string)
    ensures AccOk(START) && FeedAll(START, s).bits == 6 * LegalCount(s) % 8
    decreases |s|
  {
    SmallPowers();
    if s != [] {
      var init, c := s[..|s| - 1], s[|s| - 1];
      BitsOfLegal(init);
      assert FeedAll(START, s) == Feed(FeedAll(START, init), c);
      assert LegalCount(s) == LegalCount(init) + if Value(c) == -1 then 0 else 1;
      hide Feed, FeedAll, Pow2, LegalCount, Value;
      FeedBits(FeedAll(START, init), c);
      SixMore(LegalCount(init));
    }
  }

  lemma SixMore(n: nat)
    ensures (6 * n % 8 + 6) % 8 == 6 * (n + 1) % 8
  {
  }

  lemma FeedBits(a: Acc, c: char)
    requires AccOk(a)
    ensures Feed(a, c).bits == if Value(c) == -1 then a.bits else (a.bits + 6) % 8
  {
  }

  /** A string is refused exactly when the number of its legal characters, padding included, is no multiple of four. */
  lemma CorruptedIff(s: string)
    ensures Decoded(s).None? <==> LegalCount(s) % 4 != 0
  {
    BitsOfLegal(s);
    SixBits(LegalCount(s));
    hide FeedAll, LegalCount;
  }

  lemma {:induction false} DivideByEight(n: nat, k: nat, d: nat)
    requires n == 8 * k + d && d < 8
    ensures n % 8 == d
  {
  }

  lemma {:induction false} SixBits(n: nat)
    ensures 6 * n % 8 == 0 <==> n % 4 == 0
  {
    var q, r := n / 4, n % 4;
    var k, d := 3 * q + (if r < 2 then 0 else r - 1), if r == 0 then 0 else 8 - 2 * r;
    assert n == 4 * q + r && 6 * n == 8 * k + d && 0 <= d < 8;
    DivideByEight(6 * n, k, d);
  }

  function Legal(s: string): string
    decreases |s|
  {
    if s == [] then [] else Legal(s[..|s| - 1]) + if Value(s[|s| - 1]) == -1 then [] else [s[|s| - 1]]
  }

  lemma {:induction false} IllegalSkipped(a: Acc, s: string)
    requires AccOk(a)
    ensures FeedAll(a, Legal(s)) == FeedAll(a, s)
    decreases |s|
  {
    if s != [] {
      var init, c := s[..|s| - 1], s[|s| - 1];
      IllegalSkipped(a, init);
      if Value(c) == -1 {
        assert Legal(s) == Legal(init);
      } else {
        var t := Legal(init) + [c];
        assert t[..|t| - 1] == Legal(init);
      }
    }
  }

  /** Characters outside the alphabet change nothing in the bytes ... */
  lemma WhitespaceIsHarmless(s: string)
    ensures Decoded(s) == Decoded(Legal(s))
  {
    SmallPowers();
    IllegalSkipped(START, s);
  }

  lemma {:induction false} FeedIllegal(a: Acc, s: string)
    requires AccOk(a) && forall i :: 0 <= i < |s| ==> Value(s[i]) == -1
    ensures FeedAll(a, s) == a
    decreases |s|
  {
    if s != [] {
      FeedIllegal(a, s[..|s| - 1]);
    }
  }

  /** ... but they are counted in the length of the result: line feeds behind an encoding leave holes at its end. */
  lemma {:induction false} TrailingWhitespaceLeavesHoles(data: seq<byte>, s: string)
    requires |data| % 3 == 0 && |s| >= 2 && forall i :: 0 <= i < |s| ==> Value(s[i]) == -1
    ensures Decoded(Encoded(data) + s) == Some(data)
    ensures ResultLength(Encoded(data) + s, 0) == |data| + |s| / 4 * 3 + |s| % 4 * 2 / 3 > |data|
  {
    TrailingDecodes(data, s);
    TrailingLength(data, s);
  }

  lemma TrailingDecodes(data: seq<byte>, s: string)
    requires forall i :: 0 <= i < |s| ==> Value(s[i]) == -1
    ensures Decoded(Encoded(data) + s) == Some(data)
  {
    EncodedDecodes(data, []);
    assert [] + data == data;
    hide Encoded, FeedAll, Value, Pow2;
    FeedAppend(START, Encoded(data), s);
    FeedIllegal(START.(out := data), s);
  }

  lemma {:induction false} TrailingLength(data: seq<byte>, s: string)
    requires |data| % 3 == 0 && |s| >= 2 && forall i :: 0 <= i < |s| ==> Value(s[i]) == -1
    ensures ResultLength(Encoded(data) + s, 0) == |data| + |s| / 4 * 3 + |s| % 4 * 2 / 3 > |data|
  {
    var e := Encoded(data);
    EncodedPad(data);
    NoPad(s);
    hide Encoded, IndexOf, Value;
    IndexOfFirst(e, PAD);
    IndexOfAppend(e, s, PAD);
    HolesBehind(|data|, |e|, |s|);
    assert |e + s| == |e| + |s|;
  }

  lemma HolesBehind(size: nat, encoded: nat, n: nat)
    requires size % 3 == 0 && encoded == (size + 2) / 3 * 4 && n >= 2
    ensures var d := encoded + n; d / 4 * 3 + d % 4 * 2 / 3 == size + n / 4 * 3 + n % 4 * 2 / 3 > size
  {
    var q := size / 3;
    assert size == 3 * q && encoded == 4 * q;
    assert (4 * q + n) / 4 == q + n / 4 && (4 * q + n) % 4 == n % 4;
  }

  lemma NoPad(s: string)
    requires forall i :: 0 <= i < |s| ==> Value(s[i]) == -1
    ensures IndexOf(s, PAD) == -1
  {
    assert forall i :: 0 <= i < |s| ==> s[i] != PAD;
    IndexOfNone(s, PAD);
  }

  // When the result has the right length

  /** How many characters are skipped. */
  function Illegal(s: string): nat
    decreases |s|
  {
    if s == [] then 0 else Illegal(s[..|s| - 1]) + if Value(s[|s| - 1]) == -1 then 1 else 0
  }

  lemma {:induction false} LegalPlusIllegal(s: string)
    ensures |Legal(s)| + Illegal(s) == |s|
    decreases |s|
  {
    if s != [] {
      LegalPlusIllegal(s[..|s| - 1]);
    }
  }

  lemma {:induction false} LegalAppend(s: string, t: string)
    ensures Legal(s + t) == Legal(s) + Legal(t)
    decreases |t|
  {
    hide Value;
    if t == [] {
      assert s + t == s;
    } else {
      var st := s + t;
      assert st[..|st| - 1] == s + t[..|t| - 1];
      LegalAppend(s, t[..|t| - 1]);
    }
  }

  lemma {:induction false} LegalPart(s: string, c: char)
    requires forall i :: 0 <= i < |s| ==> s[i] != c
    ensures forall i :: 0 <= i < |Legal(s)| ==> Legal(s)[i] != c
    decreases |s|
  {
    hide Value;
    if s != [] {
      LegalPart(s[..|s| - 1], c);
    }
  }

  /** What stands before the first padding; the whole string if there is none. */
  function BeforePad(s: string): string {
    if IndexOf(s, PAD) == -1 then s else s[..IndexOf(s, PAD)]
  }

  lemma {:induction false} LegalBeforePad(s: string)
    ensures |Legal(BeforePad(s))| == |BeforePad(Legal(s))|
  {
    hide Legal;
    var p := IndexOf(s, PAD);
    IndexOfFirst(s, PAD);
    if p == -1 {
      LegalPart(s, PAD);
      IndexOfNone(Legal(s), PAD);
    } else {
      assert s == s[..p] + ([PAD] + s[p + 1..]);
      FirstPadStays(s[..p], s[p + 1..]);
    }
  }

  lemma PadIsLegal()
    ensures Legal([PAD]) == [PAD]
  {
    assert [PAD][..0] == [];
  }

  lemma FirstPadStays(before: string, after: string)
    requires forall i :: 0 <= i < |before| ==> before[i] != PAD
    ensures IndexOf(Legal(before + ([PAD] + after)), PAD) == |Legal(before)|
  {
    PadIsLegal();
    hide Legal, IndexOf, Value;
    LegalAppend(before, [PAD] + after);
    LegalAppend([PAD], after);
    LegalPart(before, PAD);
    var rest := [PAD] + Legal(after);
    AtOnce(rest, PAD);
    IndexOfAppend(Legal(before), rest, PAD);
  }

  lemma AtOnce(s: string, c: char)
    requires s != [] && s[0] == c
    ensures IndexOf(s, c) == 0
  {
  }

  /** The length computed for n characters, when the bytes take 4 * q + (r == 0 ? 0 : r + 1) of them. */
  lemma {:induction false} LengthRightIff(q: nat, r: nat, illegal: nat)
    requires r < 3
    ensures var n := 4 * q + (if r == 0 then 0 else r + 1) + illegal;
            && (n / 4 * 3 + n % 4 * 2 / 3 == 3 * q + r <==> illegal == 0 || (illegal == 1 && r == 0))
            && n / 4 * 3 + n % 4 * 2 / 3 >= 3 * q + r
  {
    var k := (if r == 0 then 0 else r + 1) + illegal;
    assert (4 * q + k) / 4 == q + k / 4 && (4 * q + k) % 4 == k % 4;
  }

  /** For every way of strewing illegal characters over an encoding: the bytes come out, and the result has
      their length if and only if no illegal character stands before the first padding, or a single one
      does and the encoding has no padding. Otherwise the result is longer, with holes at its end. */
  lemma {:induction false} ResultLengthIff(data: seq<byte>, s: string)
    requires Legal(s) == Encoded(data)
    ensures Decoded(s) == Some(data)
    ensures ResultLength(s, 0) == |data| <==>
            Illegal(BeforePad(s)) == 0 || (Illegal(BeforePad(s)) == 1 && |data| % 3 == 0)
    ensures ResultLength(s, 0) >= |data|
  {
    WhitespaceIsHarmless(s);
    RoundTrip(data);
    LegalBeforePad(s);
    LegalPlusIllegal(BeforePad(s));
    EncodedPad(data);
    LengthRightIff(|data| / 3, |data| % 3, Illegal(BeforePad(s)));
    hide Decoded, Encoded, Legal, Illegal, IndexOf;
    PadLength(data);
  }

  lemma {:induction false} PadLength(data: seq<byte>)
    requires |Encoded(data)| == (|data| + 2) / 3 * 4
    requires IndexOf(Encoded(data), PAD) == if |data| % 3 == 0 then -1 else |data| / 3 * 4 + |data| % 3 + 1
    ensures |BeforePad(Encoded(data))| == 4 * (|data| / 3) + if |data| % 3 == 0 then 0 else |data| % 3 + 1
  {
    hide Encoded, IndexOf;
    GroupsOfFour(|data| / 3, |data| % 3);
  }
}
