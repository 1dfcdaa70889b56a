/** Raw rectangles: whole lines are drawn as they arrive. */
module RawDecoder {
  import opened Arith
  import opened Bytes
  import opened Canvas
  import opened DecoderIO

  function PixelSize(depth8: bool): nat {
    if depth8 then 1 else 4
  }

  function PixelsOf(s: seq<byte>, n: nat, depth8: bool): (r: seq<Pixel>)
    requires n * PixelSize(depth8) <= |s|
    ensures |r| == n
  {
    if depth8 then Pixels8(s, n) else Pixels32(s, n)
  }

  /** The smallest step: start the rectangle, or draw one line. `lines` is how many are still to come. */
  function Unit(lines: nat, io: IO, r: Rect, depth8: bool): (nat, IO, Verdict) {
    if r.w == 0 || r.h == 0 then (lines, io, Finished)
    else if lines == 0 then (r.h, io, More)
    else if |io.inp| < r.w * PixelSize(depth8) then (lines, io, Blocked)
    else
      var row := r.y + r.h - lines;
      var fb := Put(io.fb, r.x, row, r.w, 1, PixelsOf(io.inp, r.w, depth8));
      (lines - 1, IO(io.inp[r.w * PixelSize(depth8)..], fb), if lines == 1 then Finished else More)
  }

  function Decode(lines: nat, io: IO, r: Rect, depth8: bool): (nat, IO, Verdict)
    decreases if lines == 0 then 1 else 0, lines
  {
    var (l, io1, v) := Unit(lines, io, r, depth8);
    if v == More then Decode(l, io1, r, depth8) else (l, io1, v)
  }

  lemma UnitExtends(lines: nat, io: IO, r: Rect, depth8: bool, more: seq<byte>)
    requires Unit(lines, io, r, depth8).2 != Blocked
    ensures var (l, io1, v) := Unit(lines, io, r, depth8);
            Unit(lines, Extend(io, more), r, depth8) == (l, Extend(io1, more), v)
  {
    hide Put;
    if r.w != 0 && r.h != 0 && lines != 0 {
      var n := r.w * PixelSize(depth8);
      SkipExtend(io, n, more);
      PixelsPrefix(io.inp, io.inp + more, r.w, depth8);
    }
  }

  lemma PixelsPrefix(s: seq<byte>, t: seq<byte>, n: nat, depth8: bool)
    requires n * PixelSize(depth8) <= |s| <= |t| && s == t[..|s|]
    ensures PixelsOf(s, n, depth8) == PixelsOf(t, n, depth8)
  {
    assert forall i | 0 <= i < |s| :: s[i] == t[i];
  }

  // ----- drawing several lines at once -----

  /** k lines drawn one at a time, from the top. */
  function PutLines(fb: Image, x: int, y: int, w: nat, k: nat, data: seq<Pixel>): Image
    requires |data| == w * k
    decreases k
  {
    if k == 0 then fb
    else
      LineSizes(w, k);
      PutLines(Put(fb, x, y, w, 1, data[..w]), x, y + 1, w, k - 1, data[w..])
  }

  lemma LineSizes(w: nat, k: nat)
    requires k > 0
    ensures w * k == w + w * (k - 1) && w <= w * k
  {
    assert w * (k - 1) >= 0;
  }

  lemma RowMajorSplit(w: nat, dx: int, dy: int)
    ensures RowMajor(w, dx, dy) == w + RowMajor(w, dx, dy - 1)
  {
  }

  /** The pixel of a blit at p. */
  lemma {:induction false} PutAt(fb: Image, x: int, y: int, w: nat, h: nat, data: seq<Pixel>, p: Point)
    requires p in fb && |data| == w * h && InBox(p, x, y, w, h)
    ensures 0 <= RowMajor(w, p.0 - x, p.1 - y) < |data|
    ensures Put(fb, x, y, w, h, data)[p] == data[RowMajor(w, p.0 - x, p.1 - y)]
  {
    RowMajorInside(w, h, p.0 - x, p.1 - y);
  }

  lemma {:induction false} PutLinesIsBlit(fb: Image, x: int, y: int, w: nat, k: nat, data: seq<Pixel>)
    requires |data| == w * k
    ensures PutLines(fb, x, y, w, k, data) == Put(fb, x, y, w, k, data)
    decreases k
  {
    var whole := Put(fb, x, y, w, k, data);
    if k > 0 {
      LineSizes(w, k);
      var first := Put(fb, x, y, w, 1, data[..w]);
      PutLinesIsBlit(first, x, y + 1, w, k - 1, data[w..]);
      var rest := Put(first, x, y + 1, w, k - 1, data[w..]);
      forall p | p in fb
        ensures rest[p] == whole[p]
      {
        FirstThenRest(fb, x, y, w, k, data, p);
      }
      assert rest == whole;
    }
  }

  lemma {:induction false} FirstThenRest(fb: Image, x: int, y: int, w: nat, k: nat, data: seq<Pixel>, p: Point)
    requires |data| == w * k && k > 0 && p in fb
    requires w <= |data| && |data| - w == w * (k - 1)
    ensures var first := Put(fb, x, y, w, 1, data[..w]);
            Put(first, x, y + 1, w, k - 1, data[w..])[p] == Put(fb, x, y, w, k, data)[p]
  {
    var first := Put(fb, x, y, w, 1, data[..w]);
    if InBox(p, x, y, w, k) {
      PutAt(fb, x, y, w, k, data, p);
      if p.1 == y {
        PutAt(fb, x, y, w, 1, data[..w], p);
      } else {
        PutAt(first, x, y + 1, w, k - 1, data[w..], p);
        RowMajorSplit(w, p.0 - x, p.1 - y);
      }
    }
  }

  lemma LineBytes(w: nat, k: nat, ps: nat)
    requires k > 0
    ensures w * k * ps == w * ps + w * (k - 1) * ps
  {
    LineSizes(w, k);
    assert (w + w * (k - 1)) * ps == w * ps + w * (k - 1) * ps;
  }

  lemma DropPixels(s: seq<byte>, a: nat, b: nat, depth8: bool)
    requires (a + b) * PixelSize(depth8) <= |s|
    ensures a * PixelSize(depth8) <= |s| && b * PixelSize(depth8) <= |s| - a * PixelSize(depth8)
    ensures PixelsOf(s, a + b, depth8)[..a] == PixelsOf(s, a, depth8)
    ensures PixelsOf(s, a + b, depth8)[a..] == PixelsOf(s[a * PixelSize(depth8)..], b, depth8)
  {
    if depth8 {
      assert Pixels8(s, a + b)[a..] == Pixels8(s[a..], b);
      assert Pixels8(s, a + b)[..a] == Pixels8(s, a);
    } else {
      DropPixels32(s, a, b);
    }
  }

  lemma DropPixels32(s: seq<byte>, a: nat, b: nat)
    requires 4 * (a + b) <= |s|
    ensures Pixels32(s, a + b)[..a] == Pixels32(s, a)
    ensures Pixels32(s, a + b)[a..] == Pixels32(s[4 * a..], b)
  {
    forall i | 0 <= i < b
      ensures ColorAt(s[4 * a..], 4 * i) == ColorAt(s, 4 * (a + i))
    {
    }
  }

  /** How many bytes k lines of w pixels take. */
  function Span(w: nat, k: nat, depth8: bool): nat {
    w * k * PixelSize(depth8)
  }

  /** The bytes left and the framebuffer after k lines have been drawn with one blit. */
  function AfterLines(lines: nat, io: IO, r: Rect, depth8: bool, k: nat): IO
    requires Span(r.w, k, depth8) <= |io.inp|
  {
    IO(io.inp[Span(r.w, k, depth8)..],
       Put(io.fb, r.x, r.y + r.h - lines, r.w, k, PixelsOf(io.inp, r.w * k, depth8)))
  }

  lemma {:induction false} AfterLinesSteps(lines: nat, io: IO, r: Rect, depth8: bool, k: nat)
    requires 0 < lines && 0 < k && Span(r.w, k, depth8) <= |io.inp|
    ensures Span(r.w, 1, depth8) == r.w * PixelSize(depth8) <= |io.inp|
    ensures var io1 := AfterLines(lines, io, r, depth8, 1);
            && Span(r.w, k - 1, depth8) <= |io1.inp|
            && AfterLines(lines, io, r, depth8, k) == AfterLines(lines - 1, io1, r, depth8, k - 1)
  {
    hide Put, PixelsOf;
    var ps := PixelSize(depth8);
    LineSizes(r.w, k);
    LineBytes(r.w, k, ps);
    var y := r.y + r.h - lines;
    var data := PixelsOf(io.inp, r.w * k, depth8);
    DropPixels(io.inp, r.w, r.w * (k - 1), depth8);
    PutLinesIsBlit(io.fb, r.x, y, r.w, k, data);
    var io1 := AfterLines(lines, io, r, depth8, 1);
    PutLinesIsBlit(io1.fb, r.x, y + 1, r.w, k - 1, data[r.w..]);
    assert io.inp[r.w * ps..][r.w * (k - 1) * ps..] == io.inp[r.w * k * ps..];
  }

  lemma OneLine(lines: nat, io: IO, r: Rect, depth8: bool)
    requires r.w > 0 && r.h > 0 && 0 < lines && Span(r.w, 1, depth8) <= |io.inp|
    ensures Unit(lines, io, r, depth8) == (lines - 1, AfterLines(lines, io, r, depth8, 1), if lines == 1 then Finished else More)
  {
    hide Put;
    assert r.w * 1 == r.w;
  }

  /** Drawing as many whole lines as have arrived is drawing them one at a time. */
  lemma {:induction false} LinesAtOnce(lines: nat, io: IO, r: Rect, depth8: bool, k: nat)
    requires r.w > 0 && r.h > 0 && 0 < k <= lines
    requires Span(r.w, k, depth8) <= |io.inp|
    ensures var io1 := AfterLines(lines, io, r, depth8, k);
            Decode(lines, io, r, depth8) == if k == lines then (0, io1, Finished) else Decode(lines - k, io1, r, depth8)
    decreases k
  {
    hide Span, AfterLines, Unit;
    AfterLinesSteps(lines, io, r, depth8, k);
    OneLine(lines, io, r, depth8);
    if k > 1 {
      LinesAtOnce(lines - 1, AfterLines(lines, io, r, depth8, 1), r, depth8, k - 1);
    }
  }

  /** As many whole units of n as fit into len, at most `limit`; if the limit is not reached, what is left
      is less than a unit. */
  lemma WholeUnits(len: nat, n: nat, limit: nat)
    requires n > 0
    ensures var k := if limit < len / n then limit else len / n;
            k * n <= len && (k < limit ==> len - k * n < n)
    ensures len >= n ==> len / n > 0
  {
    DivisionBounds(len, n);
    MulMonotone(if limit < len / n then limit else len / n, len / n, n);
  }

  /** Math.min(lines, Math.floor(rQlen / bytesPerLine)). */
  function LinesArrived(len: nat, w: nat, lines: nat, depth8: bool): (k: nat)
    requires w > 0 && lines > 0 && len >= w * PixelSize(depth8)
    ensures 0 < k <= lines && Span(w, k, depth8) <= len
    ensures k < lines ==> len - Span(w, k, depth8) < w * PixelSize(depth8)
  {
    var n := w * PixelSize(depth8);
    PositiveProduct(w, PixelSize(depth8));
    WholeUnits(len, n, lines);
    var k := if lines < len / n then lines else len / n;
    SpanIsLines(w, k, depth8);
    k
  }

  lemma SpanIsLines(w: nat, k: nat, depth8: bool)
    ensures Span(w, k, depth8) == k * (w * PixelSize(depth8))
  {
    assert w * k == k * w;
    assert k * w * PixelSize(depth8) == k * (w * PixelSize(depth8));
  }

  lemma LinesThenBlocked(lines: nat, io: IO, r: Rect, depth8: bool, k: nat)
    requires r.w > 0 && r.h > 0 && 0 < k <= lines
    requires Span(r.w, k, depth8) <= |io.inp|
    requires k < lines ==> |io.inp| - Span(r.w, k, depth8) < r.w * PixelSize(depth8)
    ensures Decode(lines, io, r, depth8) == (lines - k, AfterLines(lines, io, r, depth8, k), if k == lines then Finished else Blocked)
  {
    LinesAtOnce(lines, io, r, depth8, k);
    hide Span;
    var io1 := AfterLines(lines, io, r, depth8, k);
    if k < lines {
      assert Unit(lines - k, io1, r, depth8) == (lines - k, io1, Blocked);
    }
  }

  lemma DecodeStarts(lines: nat, io: IO, r: Rect, depth8: bool)
    ensures r.w == 0 || r.h == 0 ==> Decode(lines, io, r, depth8) == (lines, io, Finished)
    ensures r.w > 0 && r.h > 0 ==> Decode(0, io, r, depth8) == Decode(r.h, io, r, depth8)
    ensures r.w > 0 && r.h > 0 && lines > 0 && |io.inp| < r.w * PixelSize(depth8) ==>
              Decode(lines, io, r, depth8) == (lines, io, Blocked)
  {
    hide Put, PixelsOf;
  }

  class Raw {
    var lines: nat

    constructor ()
      ensures lines == 0
    {
      lines := 0;
    }

    /** The loops that widen 8-bit pixels or make 32-bit ones opaque. Only bytes about to be consumed are
        touched, so the rest of the queue is not affected. */
    method ConvertPixels(s: seq<byte>, n: nat, depth8: bool) returns (r: seq<Pixel>)
      requires n * PixelSize(depth8) <= |s|
      ensures r == PixelsOf(s, n, depth8)
    {
      r := [];
      var i := 0;
      while i < n
        invariant 0 <= i <= n && r == PixelsOf(s, n, depth8)[..i]
      {
        r := r + [if depth8 then Pixel8(s[i]) else Opaque(ColorAt(s, 4 * i))];
        i := i + 1;
      }
    }

    /** Draws the whole lines that have arrived; done when the last has been drawn. */
    method DecodeRect(r: Rect, sock: Sock, display: Surface, depth8: bool) returns (done: bool)
      modifies this, sock, display
      ensures (lines, IO(sock.q, display.fb), if done then Finished else Blocked)
              == Decode(old(lines), old(IO(sock.q, display.fb)), r, depth8)
    {
      hide Decode, Put, PixelsOf, Span, LinesArrived;
      DecodeStarts(lines, IO(sock.q, display.fb), r, depth8);
      if r.w == 0 || r.h == 0 {
        return true;
      }
      if lines == 0 {
        lines := r.h;
      }
      ghost var io := IO(sock.q, display.fb);
      DecodeStarts(lines, io, r, depth8);
      if sock.Wait(r.w * PixelSize(depth8)) {
        return false;
      }
      var currHeight := LinesArrived(|sock.q|, r.w, lines, depth8);
      LinesThenBlocked(lines, io, r, depth8, currHeight);
      DrawLines(r, r.y + r.h - lines, currHeight, sock, display, depth8);
      lines := lines - currHeight;
      return lines == 0;
    }

    method DrawLines(r: Rect, curY: int, currHeight: nat, sock: Sock, display: Surface, depth8: bool)
      requires Span(r.w, currHeight, depth8) <= |sock.q|
      modifies sock, display
      ensures sock.q == old(sock.q)[Span(r.w, currHeight, depth8)..]
      ensures display.fb == Put(old(display.fb), r.x, curY, r.w, currHeight, PixelsOf(old(sock.q), r.w * currHeight, depth8))
    {
      hide Put, PixelsOf;
      var data := ConvertPixels(sock.q, r.w * currHeight, depth8);
      display.fb := Put(display.fb, r.x, curY, r.w, currHeight, data);
      sock.SkipBytes(r.w * currHeight * PixelSize(depth8));
    }
  }
}
