/** What every rectangle decoder works on: the unread bytes, the framebuffer and the rectangle. */
module DecoderIO {
  import opened Bytes
  import opened Canvas

  datatype IO = IO(inp: seq<byte>, fb: Image)

  datatype Rect = Rect(x: nat, y: nat, w: nat, h: nat)

  /** How one smallest step of a decoder ends: it waits for bytes, it made progress, the rectangle is
      finished, or the data is broken and the decoder threw. */
  datatype Verdict = Blocked | More | Finished | Broken

  function Extend(io: IO, more: seq<byte>): IO {
    io.(inp := io.inp + more)
  }

  function Skip(io: IO, n: nat): IO
    requires n <= |io.inp|
  {
    io.(inp := io.inp[n..])
  }

  lemma SkipExtend(io: IO, n: nat, more: seq<byte>)
    requires n <= |io.inp|
    ensures Skip(Extend(io, more), n) == Extend(Skip(io, n), more)
    ensures Extend(io, more).inp[..n] == io.inp[..n]
  {
    assert (io.inp + more)[n..] == io.inp[n..] + more;
  }

  /** rQshift16: two bytes, most significant first. */
  function U16(s: seq<byte>, at: nat): (n: nat)
    requires at + 2 <= |s|
    ensures n < 65536
  {
    s[at] as nat * 256 + s[at + 1]
  }

  /** rQshift32, and the encoding number of a rectangle header: four bytes, signed. */
  function S32(s: seq<byte>, at: nat): int
    requires at + 4 <= |s|
  {
    var n := ((s[at] as int * 256 + s[at + 1]) * 256 + s[at + 2]) * 256 + s[at + 3];
    if n >= 0x8000_0000 then n - 0x1_0000_0000 else n
  }

  function ColorAt(s: seq<byte>, at: nat): Color
    requires at + 3 <= |s|
  {
    Color(s[at], s[at + 1], s[at + 2])
  }

  /** Four bytes a pixel; the fourth is overwritten with full opacity. */
  function Pixels32(s: seq<byte>, n: nat): (r: seq<Pixel>)
    requires 4 * n <= |s|
    ensures |r| == n
  {
    seq(n, i requires 0 <= i < n => Opaque(ColorAt(s, 4 * i)))
  }

  /** One byte a pixel with two bits a channel. */
  function Pixel8(b: byte): Pixel {
    Opaque(Color(b % 4 * 85, b / 4 % 4 * 85, b / 16 % 4 * 85))
  }

  function Pixels8(s: seq<byte>, n: nat): (r: seq<Pixel>)
    requires n <= |s|
    ensures |r| == n
  {
    seq(n, i requires 0 <= i < n => Pixel8(s[i]))
  }

  class Sock {
    var q: seq<byte>

    constructor (q: seq<byte>)
      ensures this.q == q
    {
      this.q := q;
    }

    /** rQwait without rollback. */
    predicate Wait(num: nat)
      reads this
    {
      |q| < num
    }

    method SkipBytes(n: nat)
      requires n <= |q|
      modifies this
      ensures q == old(q)[n..]
    {
      q := q[n..];
    }
  }

  class Surface {
    var fb: Image

    constructor (fb: Image)
      ensures this.fb == fb
    {
      this.fb := fb;
    }
  }
}
