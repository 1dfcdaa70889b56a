/** CMAC over an abstract block cipher (section 2.4 of RFC 4493), and the one-pass CBC computation that gives it. */
module Cmac {
  import opened Arith
  import opened Bytes
  import opened Doubling

  type Block = b: seq<byte> | |b| == 16 witness seq(16, _ => 0)

  /** The block cipher under a fixed key. */
  type Cipher = Block -> Block

  function Zero(): Block {
    seq(16, _ => 0)
  }

  function XorBlock(a: Block, b: Block): Block {
    seq(16, i requires 0 <= i < 16 => XorByte(a[i], b[i]))
  }

  // Subkeys

  /** The two bits of the block that fall out of a shift by two. */
  function TopBits(l: Block): (v: nat)
    ensures v < 4
  {
    l[0] / 64
  }

  function FirstKey(l: Block): Block {
    var t := ShiftIn(l, false, 0);
    t[15 := XorByte(t[15], Lut(TopBits(l) / 2))]
  }

  function SecondKey(l: Block): Block {
    var t := ShiftIn(l, true, 0);
    t[14 := XorByte(t[14], TopBits(l) / 2)][15 := XorByte(t[15], Lut(TopBits(l)))]
  }

  predicate Hi(l: Block) {
    l[0] >= 128
  }

  predicate Lo(l: Block) {
    l[0] / 64 % 2 == 1
  }

  function LowBits(l: Block): nat {
    l[0] % 64 * Pow2(Width() - 8) + BigEndian(l[1..])
  }

  lemma {:induction false} TopByte(b: byte, p: nat, rest: nat)
    requires rest < p
    ensures b * p + rest == (if b >= 128 then 128 * p else 0) + (if b / 64 % 2 == 1 then 64 * p else 0) + (b % 64 * p + rest)
    ensures b % 64 * p + rest < 64 * p
  {
    var r := b % 64;
    var high: nat := (if b >= 128 then 128 else 0) + if b / 64 % 2 == 1 then 64 else 0;
    assert b == high + r;
    assert b * p == high * p + r * p;
    MulMonotone(r + 1, 64, p);
    assert (r + 1) * p == r * p + p;
  }

  lemma {:induction false} BlockSplit(l: Block)
    ensures BigEndian(l) == Top(Hi(l)) + Second(Lo(l)) + LowBits(l) && LowBits(l) < Pow2(Width() - 2)
  {
    assert Pow2(6) == 64 && Pow2(7) == 128;
    hide Pow2, BigEndian, Width;
    BigEndianHead(l);
    BigEndianBound(l[1..]);
    Pow2Add(6, Width() - 8);
    Pow2Add(7, Width() - 8);
    TopByte(l[0], Pow2(Width() - 8), BigEndian(l[1..]));
  }

  lemma {:induction false} ShiftedOnce(l: Block)
    ensures BigEndian(ShiftIn(l, false, 0)) == 2 * LowBits(l) + Top(Lo(l))
  {
    hide Pow2, BigEndian, ShiftIn, Width, LowBits, Hi, Lo;
    BlockSplit(l);
    ShiftInValue(l, false, 0);
    Halves();
    DivisionUnique(BigEndian(l) * 2, Pow2(Width()), if Hi(l) then 1 else 0, 2 * LowBits(l) + Top(Lo(l)));
  }

  lemma ShiftedTwice(l: Block)
    ensures BigEndian(ShiftIn(l, true, 0)) == 4 * LowBits(l)
  {
    hide Pow2, BigEndian, ShiftIn, Width, LowBits, Hi, Lo;
    BlockSplit(l);
    ShiftInValue(l, true, 0);
    Halves();
    DivisionUnique(BigEndian(l) * 4, Pow2(Width()), (if Hi(l) then 2 else 0) + if Lo(l) then 1 else 0, 4 * LowBits(l));
  }

  lemma TableBytes(l: Block)
    ensures Lut(TopBits(l) / 2) == Back(Hi(l))
    ensures TopBits(l) / 2 * 256 + Lut(TopBits(l)) == (if Hi(l) then 256 else 0) + Lookup(Hi(l), Lo(l))
  {
  }

  /** The keys computed byte by byte are the doublings of the encrypted zero block in the field. */
  lemma SubkeysAreDoublings(l: Block)
    ensures BigEndian(l) < Pow2(Width()) && Double(BigEndian(l)) < Pow2(Width())
    ensures BigEndian(FirstKey(l)) == Double(BigEndian(l))
    ensures BigEndian(SecondKey(l)) == Double(Double(BigEndian(l)))
  {
    hide Pow2, BigEndian, ShiftIn, TopBits, Width, Xor, XorByte, Double, Lut, Back, Lookup, Top, Second, LowBits, Hi, Lo;
    BlockSplit(l);
    ShiftedOnce(l);
    ShiftedTwice(l);
    DoubleTwice(BigEndian(l), Hi(l), Lo(l), LowBits(l));
    XorLast(ShiftIn(l, false, 0), Lut(TopBits(l) / 2));
    XorLastTwo(ShiftIn(l, true, 0), TopBits(l) / 2, Lut(TopBits(l)));
    TableBytes(l);
  }

  // The specification

  function BlockAt(m: seq<byte>, i: nat): Block
    requires 16 * i + 16 <= |m|
  {
    m[16 * i..16 * i + 16]
  }

  /** The chaining value after the first n blocks. */
  function Chain(e: Cipher, m: seq<byte>, n: nat): Block
    requires 16 * n <= |m|
  {
    if n == 0 then Zero() else e(XorBlock(Chain(e, m, n - 1), BlockAt(m, n - 1)))
  }

  /** A one and zeros behind an incomplete last block. */
  function PadBlock(tail: seq<byte>): Block
    requires |tail| < 16
  {
    tail + [0x80] + seq(15 - |tail|, _ => 0)
  }

  /** CMAC of a non-empty message: the last block is masked with the first key when complete, with the second when padded. */
  function Mac(e: Cipher, k1: Block, k2: Block, m: seq<byte>): Block
    requires m != []
  {
    var n := (|m| + 15) / 16;
    var last := if |m| % 16 == 0 then XorBlock(BlockAt(m, n - 1), k1) else XorBlock(PadBlock(m[16 * (n - 1)..]), k2);
    e(XorBlock(Chain(e, m, n - 1), last))
  }

  /** The same code block by block from the front: every block but the last is chained; a complete last block goes
      under the first key, an incomplete one is closed by a one bit and zeros and goes under the second. */
  function MacFrom(e: Cipher, k1: Block, k2: Block, chained: Block, m: seq<byte>): Block
    requires m != []
    decreases |m|
  {
    if |m| > 16 then MacFrom(e, k1, k2, e(XorBlock(chained, m[..16])), m[16..])
    else if |m| == 16 then e(XorBlock(chained, XorBlock(m, k1)))
    else e(XorBlock(chained, XorBlock(seq(16, i requires 0 <= i < 16 => if i < |m| then m[i] else if i == |m| then 128 else 0), k2)))
  }

  lemma {:induction false} PadBlockBytes(tail: seq<byte>)
    requires |tail| < 16
    ensures PadBlock(tail) == seq(16, i requires 0 <= i < 16 => if i < |tail| then tail[i] else if i == |tail| then 128 else 0)
  {
  }

  lemma {:induction false} MacFromAt(e: Cipher, k1: Block, k2: Block, m: seq<byte>, i: nat)
    requires 16 * i < |m|
    ensures MacFrom(e, k1, k2, Chain(e, m, i), m[16 * i..]) == Mac(e, k1, k2, m)
    decreases |m| - 16 * i
  {
    hide XorBlock;
    var rest := m[16 * i..];
    if |rest| > 16 {
      MacFromAt(e, k1, k2, m, i + 1);
      assert rest[..16] == BlockAt(m, i) && rest[16..] == m[16 * (i + 1)..];
    } else {
      assert (|m| + 15) / 16 - 1 == i;
      if |rest| == 16 {
        assert rest == BlockAt(m, i);
      } else {
        PadBlockBytes(rest);
      }
    }
  }

  /** Both ways of computing the code agree on every message. */
  lemma {:induction false} MacFromTheFront(e: Cipher, k1: Block, k2: Block, m: seq<byte>)
    requires m != []
    ensures MacFrom(e, k1, k2, Zero(), m) == Mac(e, k1, k2, m)
  {
    hide MacFrom, Mac;
    MacFromAt(e, k1, k2, m, 0);
    assert m[16 * 0..] == m;
  }

  // CBC mode

  /** CBC encryption of whole blocks from a zero vector. */
  function Cbc(e: Cipher, m: seq<byte>, n: nat): (c: seq<byte>)
    requires 16 * n <= |m|
    ensures |c| == 16 * n
  {
    if n == 0 then [] else Cbc(e, m, n - 1) + Chain(e, m, n)
  }

  lemma {:induction false} CbcBlock(e: Cipher, m: seq<byte>, n: nat, i: nat)
    requires 16 * n <= |m| && i < n
    ensures Cbc(e, m, n)[16 * i..16 * i + 16] == Chain(e, m, i + 1)
    decreases n
  {
    var c := Cbc(e, m, n);
    if i == n - 1 {
      assert c[16 * i..] == Chain(e, m, n);
    } else {
      CbcBlock(e, m, n - 1, i);
      assert c[16 * i..16 * i + 16] == Cbc(e, m, n - 1)[16 * i..16 * i + 16];
    }
  }

  lemma {:induction false} ChainLocal(e: Cipher, a: seq<byte>, b: seq<byte>, n: nat)
    requires 16 * n <= |a| && 16 * n <= |b| && a[..16 * n] == b[..16 * n]
    ensures Chain(e, a, n) == Chain(e, b, n)
  {
    if n > 0 {
      var k := 16 * (n - 1);
      assert a[..k] == a[..16 * n][..k] && b[..k] == b[..16 * n][..k];
      assert a[k..k + 16] == a[..16 * n][k..] && b[k..k + 16] == b[..16 * n][k..];
      ChainLocal(e, a, b, n - 1);
    }
  }

  /** The PKCS#7 block the library adds behind whole blocks. */
  function Padding(): Block {
    seq(16, _ => 16)
  }

  /** What _computeCMAC returns for the masked buffer: the last but one block of its CBC encryption. */
  function LastButOne(e: Cipher, buffer: seq<byte>): (mac: seq<byte>)
    requires |buffer| % 16 == 0 && |buffer| >= 16
  {
    var c := Cbc(e, buffer + Padding(), |buffer| / 16 + 1);
    c[|c| - 32..|c| - 16]
  }

  /** The buffer: prefix and data, zero filled to whole blocks and masked in the last one. */
  function Masked(k1: Block, k2: Block, prefix: Block, data: seq<byte>): (b: seq<byte>)
    ensures |b| == ((|data| + 15) / 16 + 1) * 16
  {
    var m := prefix + data;
    var n := (|m| + 15) / 16;
    m[..16 * (n - 1)]
    + if |data| % 16 == 0 then XorBlock(BlockAt(m, n - 1), k1) else XorBlock(PadBlock(m[16 * (n - 1)..]), k2)
  }

  /** The blocks of the masked buffer: those of the message, but for the last. */
  lemma {:induction false} MaskedBlocks(k1: Block, k2: Block, prefix: Block, data: seq<byte>)
    ensures var m := prefix + data;
            var n := (|m| + 15) / 16;
            var buffer := Masked(k1, k2, prefix, data);
            var whole := buffer + Padding();
            && |m| % 16 == |data| % 16 && n > 0 && |buffer| == 16 * n && whole[..16 * (n - 1)] == m[..16 * (n - 1)]
            && BlockAt(whole, n - 1) ==
               if |data| % 16 == 0 then XorBlock(BlockAt(m, n - 1), k1) else XorBlock(PadBlock(m[16 * (n - 1)..]), k2)
  {
    hide XorBlock, PadBlock;
    var m := prefix + data;
    var n := (|m| + 15) / 16;
    assert BlockAt(Masked(k1, k2, prefix, data) + Padding(), n - 1) == Masked(k1, k2, prefix, data)[16 * (n - 1)..];
  }

  /** One CBC pass over the masked buffer gives the specified code of prefix and data, for every length including zero. */
  lemma {:induction false} OnePassIsMac(e: Cipher, k1: Block, k2: Block, prefix: Block, data: seq<byte>)
    ensures LastButOne(e, Masked(k1, k2, prefix, data)) == Mac(e, k1, k2, prefix + data)
  {
    hide XorBlock, PadBlock, Cbc, Chain, Masked, BlockAt;
    var m := prefix + data;
    var n := (|m| + 15) / 16;
    MaskedBlocks(k1, k2, prefix, data);
    var whole := Masked(k1, k2, prefix, data) + Padding();
    CbcBlock(e, whole, n + 1, n - 1);
    ChainLocal(e, whole, m, n - 1);
    ChainStep(e, whole, n);
  }

  lemma ChainStep(e: Cipher, m: seq<byte>, n: nat)
    requires n > 0 && 16 * n <= |m|
    ensures Chain(e, m, n) == e(XorBlock(Chain(e, m, n - 1), BlockAt(m, n - 1)))
  {
  }
}
