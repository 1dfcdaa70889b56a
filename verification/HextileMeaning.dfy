/** What a hextile tile means (RFC 6143, section 7.7.4): a background, overpainted in order by
    subrectangles, with the colours carried from tile to tile; and that the decoder draws exactly that. */
module HextileMeaning {
  import opened Arith
  import opened Bytes
  import opened Wrappers
  import opened Canvas
  import opened DecoderIO
  import opened HextileDecoder

  /** A pixel on the wire: three colour bytes and one the client ignores. */
  datatype WirePixel = WirePixel(color: Color, pad: byte)

  function PixelBytes(p: WirePixel): (s: seq<byte>)
    ensures |s| == 4
  {
    [p.color.r, p.color.g, p.color.b, p.pad]
  }

  function PixelsBytes(ps: seq<WirePixel>): (s: seq<byte>)
    ensures |s| == 4 * |ps|
  {
    if ps == [] then [] else PixelsBytes(ps[..|ps| - 1]) + PixelBytes(ps[|ps| - 1])
  }

  function Colors(ps: seq<WirePixel>): (r: seq<Pixel>)
    ensures |r| == |ps|
  {
    seq(|ps|, i requires 0 <= i < |ps| => Opaque(ps[i].color))
  }

  lemma {:induction false} PixelsReadBack(ps: seq<WirePixel>, rest: seq<byte>)
    ensures Pixels32(PixelsBytes(ps) + rest, |ps|) == Colors(ps)
  {
    if ps != [] {
      var n := |ps| - 1;
      var init := PixelsBytes(ps[..n]);
      PixelsReadBack(ps[..n], PixelBytes(ps[n]) + rest);
      var all := PixelsBytes(ps) + rest;
      assert all == init + (PixelBytes(ps[n]) + rest);
      var r, r0 := Pixels32(all, |ps|), Pixels32(init + (PixelBytes(ps[n]) + rest), n);
      forall i | 0 <= i < |ps|
        ensures r[i] == Colors(ps)[i]
      {
        if i < n {
          assert r[i] == r0[i] == Colors(ps[..n])[i];
        }
      }
    }
  }

  // ----- tiles -----

  /** A subrectangle inside a tile; its own colour counts only in tiles with coloured subrectangles. */
  datatype TileSub = TileSub(x: nat, y: nat, w: nat, h: nat, pixel: WirePixel)

  datatype TileContent =
    | RawTile(pixels: seq<WirePixel>)
    | CodedTile(bg: Option<WirePixel>, fg: Option<WirePixel>, subs: Option<seq<TileSub>>, coloured: bool)

  /** The colours the next tile inherits, and whether this tile was raw. */
  datatype Carry = Carry(bg: Option<Color>, fg: Option<Color>, afterRaw: bool)

  predicate SubFits(s: TileSub, t: Tile) {
    1 <= s.w && 1 <= s.h && s.x + s.w <= t.w && s.y + s.h <= t.h
  }

  predicate Blank(c: TileContent) {
    c == CodedTile(None, None, None, false)
  }

  function BgAfter(c: TileContent, carry: Carry): Option<Color>
    requires c.CodedTile?
  {
    if c.bg.Some? then Some(c.bg.value.color) else carry.bg
  }

  function FgAfter(c: TileContent, carry: Carry): Option<Color>
    requires c.CodedTile?
  {
    if c.fg.Some? then Some(c.fg.value.color) else carry.fg
  }

  function SubsOf(c: TileContent): seq<TileSub>
    requires c.CodedTile?
  {
    if c.subs.Some? then c.subs.value else []
  }

  /** A tile a server may send: the right number of pixels, subrectangles inside the tile, every colour it
      relies on known, and no blank tile right after a raw one. */
  predicate TileOk(c: TileContent, t: Tile, carry: Carry) {
    match c
    case RawTile(pixels) => |pixels| == t.w * t.h
    case CodedTile(bg, fg, subs, coloured) =>
      && BgAfter(c, carry).Some?
      && |SubsOf(c)| < 256
      && (forall s <- SubsOf(c) :: SubFits(s, t))
      && (coloured || SubsOf(c) == [] || FgAfter(c, carry).Some?)
      && (Blank(c) ==> !carry.afterRaw)
  }

  function CarryAfter(c: TileContent, carry: Carry): Carry {
    if c.RawTile? then carry.(afterRaw := true) else Carry(BgAfter(c, carry), FgAfter(c, carry), false)
  }

  function SubColor(s: TileSub, coloured: bool, fg: Option<Color>): Color {
    if coloured || fg.None? then s.pixel.color else fg.value
  }

  function Overpaint(fb: Image, t: Tile, subs: seq<TileSub>, coloured: bool, fg: Option<Color>): (r: Image)
    ensures r.Keys == fb.Keys
    decreases |subs|
  {
    if subs == [] then fb
    else
      var s := subs[|subs| - 1];
      Fill(Overpaint(fb, t, subs[..|subs| - 1], coloured, fg), t.x + s.x, t.y + s.y, s.w, s.h, SubColor(s, coloured, fg))
  }

  function TileMeaning(fb: Image, t: Tile, c: TileContent, carry: Carry): Image {
    match c
    case RawTile(pixels) => Put(fb, t.x, t.y, t.w, t.h, Colors(pixels))
    case CodedTile(_, _, _, coloured) =>
      var bg := BgAfter(c, carry);
      if bg.None? then fb
      else Overpaint(Fill(fb, t.x, t.y, t.w, t.h, bg.value), t, SubsOf(c), coloured, FgAfter(c, carry))
  }

  // ----- encoding -----

  function Flag(b: bool, value: nat): nat {
    if b then value else 0
  }

  function Subencoding(c: TileContent): (n: nat)
    ensures n <= 30
  {
    match c
    case RawTile(_) => 1
    case CodedTile(bg, fg, subs, coloured) =>
      Flag(bg.Some?, 2) + Flag(fg.Some?, 4) + Flag(subs.Some?, 8) + Flag(coloured, 16)
  }

  /** The two bytes of position and size. */
  function SubBytes(s: TileSub, coloured: bool): (r: seq<byte>)
    requires s.x + s.w <= 16 && s.y + s.h <= 16 && 1 <= s.w && 1 <= s.h
    ensures |r| == if coloured then 6 else 2
  {
    (if coloured then PixelBytes(s.pixel) else []) + [s.x * 16 + s.y, (s.w - 1) * 16 + (s.h - 1)]
  }

  function SubsBytes(subs: seq<TileSub>, t: Tile, coloured: bool): seq<byte>
    requires t.w <= 16 && t.h <= 16 && forall s <- subs :: SubFits(s, t)
    decreases |subs|
  {
    if subs == [] then []
    else
      var last := subs[|subs| - 1];
      assert last in subs && SubFits(last, t);
      assert forall s <- subs[..|subs| - 1] :: s in subs;
      SubsBytes(subs[..|subs| - 1], t, coloured) + SubBytes(last, coloured)
  }

  function OptBytes(p: Option<WirePixel>): seq<byte> {
    if p.Some? then PixelBytes(p.value) else []
  }

  function TileBytes(c: TileContent, t: Tile, carry: Carry): seq<byte>
    requires t.w <= 16 && t.h <= 16 && TileOk(c, t, carry)
  {
    match c
    case RawTile(pixels) => [1] + PixelsBytes(pixels)
    case CodedTile(bg, fg, subs, coloured) =>
      [Subencoding(c)] + OptBytes(bg) + OptBytes(fg)
      + (if subs.Some? then [|subs.value|] + SubsBytes(subs.value, t, coloured) else [])
  }

  // ----- the scratch buffer holds what the tile means -----

  lemma {:induction false} RowHit(tw: nat, dx: nat, dy: nat, start: nat, row: nat, n: nat)
    requires dx < tw && start + n <= tw
    ensures start + row * tw <= RowMajor(tw, dx, dy) < start + row * tw + n <==> dy == row && start <= dx < start + n
  {
    if dy < row {
      MulMonotone(dy + 1, row, tw);
    } else if dy > row {
      MulMonotone(row + 1, dy, tw);
    }
  }

  lemma {:induction false} PaintRowsAt(buf: TileBuffer, tw: nat, s: Sub, rows: nat, dx: nat, dy: nat)
    requires dx < tw && s.x + s.w <= tw && 0 <= RowMajor(tw, dx, dy) < 256
    ensures var k := RowMajor(tw, dx, dy);
            PaintRows(buf, tw, s.x, s.y, s.w, rows, s.color)[k]
            == if s.x <= dx < s.x + s.w && s.y <= dy < s.y + rows then Opaque(s.color) else buf[k]
    decreases rows
  {
    hide RowMajor;
    if rows > 0 {
      PaintRowsAt(buf, tw, s, rows - 1, dx, dy);
      RowHit(tw, dx, dy, s.x, s.y + rows - 1, s.w);
    }
  }

  lemma {:induction false} TilePixelInRange(t: Tile, dx: nat, dy: nat)
    requires t.w <= 16 && t.h <= 16 && dx < t.w && dy < t.h
    ensures 0 <= RowMajor(t.w, dx, dy) < t.w * t.h <= 256
  {
    GridBound(t.w, t.h, dx, dy);
    MulMonotone(t.w, 16, t.h);
    MulMonotone(0, dy, t.w);
  }

  /** The scratch buffer and the framebuffer agree on the tile. */
  ghost predicate Matches(buf: TileBuffer, fb: Image, t: Tile) {
    forall p: Point :: p in fb && InTile(t, p) ==>
      var k := RowMajor(t.w, p.0 - t.x, p.1 - t.y);
      0 <= k < 256 && fb[p] == buf[k]
  }

  /** Painting one subrectangle in the buffer is filling it on the framebuffer. */
  lemma {:induction false} PaintSubMatches(buf: TileBuffer, fb: Image, t: Tile, s: Sub)
    requires t.w <= 16 && t.h <= 16 && Matches(buf, fb, t)
    requires s.x + s.w <= t.w && s.y + s.h <= t.h
    ensures Matches(PaintSub(buf, t.w, s), Fill(fb, t.x + s.x, t.y + s.y, s.w, s.h, s.color), t)
  {
    hide RowMajor, PaintRows;
    var fb1 := Fill(fb, t.x + s.x, t.y + s.y, s.w, s.h, s.color);
    forall p: Point | p in fb1 && InTile(t, p)
      ensures var k := RowMajor(t.w, p.0 - t.x, p.1 - t.y);
              0 <= k < 256 && fb1[p] == PaintSub(buf, t.w, s)[k]
    {
      TilePixelInRange(t, p.0 - t.x, p.1 - t.y);
      PaintRowsAt(buf, t.w, s, s.h, p.0 - t.x, p.1 - t.y);
    }
  }

  /** What the decoder reads for a subrectangle. */
  function Read(s: TileSub, coloured: bool, fg: Option<Color>): Sub {
    Sub(s.x, s.y, s.w, s.h, SubColor(s, coloured, fg))
  }

  function ReadAll(subs: seq<TileSub>, coloured: bool, fg: Option<Color>): (r: seq<Sub>)
    ensures |r| == |subs|
  {
    seq(|subs|, i requires 0 <= i < |subs| => Read(subs[i], coloured, fg))
  }

  lemma {:induction false} PaintSubsMatches(buf: TileBuffer, fb: Image, t: Tile, subs: seq<TileSub>, coloured: bool, fg: Option<Color>)
    requires t.w <= 16 && t.h <= 16 && Matches(buf, fb, t)
    requires forall s <- subs :: SubFits(s, t)
    ensures Matches(PaintSubs(buf, t.w, ReadAll(subs, coloured, fg)), Overpaint(fb, t, subs, coloured, fg), t)
    decreases |subs|
  {
    hide Matches, PaintSub, Fill;
    if subs != [] {
      var n := |subs| - 1;
      var init := subs[..n];
      assert forall s <- init :: s in subs;
      PaintSubsMatches(buf, fb, t, init, coloured, fg);
      assert ReadAll(subs, coloured, fg)[..n] == ReadAll(init, coloured, fg);
      assert subs[n] in subs;
      PaintSubMatches(PaintSubs(buf, t.w, ReadAll(init, coloured, fg)), Overpaint(fb, t, init, coloured, fg), t,
                      Read(subs[n], coloured, fg));
    }
  }

  /** Overpainting stays inside the tile. */
  lemma {:induction false} OverpaintInside(fb: Image, t: Tile, subs: seq<TileSub>, coloured: bool, fg: Option<Color>, p: Point)
    requires (forall s <- subs :: SubFits(s, t)) && p in fb && !InTile(t, p)
    ensures Overpaint(fb, t, subs, coloured, fg)[p] == fb[p]
    decreases |subs|
  {
    if subs != [] {
      assert subs[|subs| - 1] in subs && forall s <- subs[..|subs| - 1] :: s in subs;
      OverpaintInside(fb, t, subs[..|subs| - 1], coloured, fg, p);
    }
  }

  lemma {:induction false} StartedMatches(buf: TileBuffer, fb: Image, t: Tile, c: Color)
    requires t.w <= 16 && t.h <= 16
    ensures Matches(Started(buf, t.w * t.h, c), Fill(fb, t.x, t.y, t.w, t.h, c), t)
  {
    hide RowMajor;
    var fb1 := Fill(fb, t.x, t.y, t.w, t.h, c);
    forall p: Point | p in fb1 && InTile(t, p)
      ensures var k := RowMajor(t.w, p.0 - t.x, p.1 - t.y);
              0 <= k < 256 && fb1[p] == Started(buf, t.w * t.h, c)[k]
    {
      TilePixelInRange(t, p.0 - t.x, p.1 - t.y);
    }
  }

  /** Blitting the scratch buffer draws the background overpainted in order. */
  lemma {:induction false} BlitIsOverpaint(buf: TileBuffer, fb: Image, t: Tile, bg: Color, subs: seq<TileSub>, coloured: bool, fg: Option<Color>)
    requires t.w <= 16 && t.h <= 16 && forall s <- subs :: SubFits(s, t)
    ensures t.w * t.h <= 256
    ensures var painted := PaintSubs(Started(buf, t.w * t.h, bg), t.w, ReadAll(subs, coloured, fg));
            Put(fb, t.x, t.y, t.w, t.h, painted[..t.w * t.h])
            == Overpaint(Fill(fb, t.x, t.y, t.w, t.h, bg), t, subs, coloured, fg)
  {
    hide RowMajor, Started, PaintSubs, Overpaint;
    MulMonotone(t.w, 16, t.h);
    var start := Fill(fb, t.x, t.y, t.w, t.h, bg);
    var painted := PaintSubs(Started(buf, t.w * t.h, bg), t.w, ReadAll(subs, coloured, fg));
    var goal := Overpaint(start, t, subs, coloured, fg);
    var blit := Put(fb, t.x, t.y, t.w, t.h, painted[..t.w * t.h]);
    StartedMatches(buf, fb, t, bg);
    PaintSubsMatches(Started(buf, t.w * t.h, bg), start, t, subs, coloured, fg);
    forall p | p in fb
      ensures blit[p] == goal[p]
    {
      if InTile(t, p) {
        TilePixelInRange(t, p.0 - t.x, p.1 - t.y);
      } else {
        OverpaintInside(start, t, subs, coloured, fg, p);
      }
    }
  }

  // ----- the decoder reads back what was encoded -----

  lemma {:induction false} Bits(a: bool, b: bool, c: bool, d: bool, e: bool)
    ensures var n := Flag(a, 1) + Flag(b, 2) + Flag(c, 4) + Flag(d, 8) + Flag(e, 16);
            Bit(n, 0) == a && Bit(n, 1) == b && Bit(n, 2) == c && Bit(n, 3) == d && Bit(n, 4) == e
  {
    assert Pow2(0) == 1 && Pow2(1) == 2 && Pow2(2) == 4 && Pow2(3) == 8 && Pow2(4) == 16;
  }

  lemma {:induction false} SubencodingBits(c: TileContent)
    ensures var n := Subencoding(c);
            match c
            case RawTile(_) => Bit(n, 0)
            case CodedTile(bg, fg, subs, coloured) =>
              !Bit(n, 0) && Bit(n, 1) == bg.Some? && Bit(n, 2) == fg.Some? && Bit(n, 3) == subs.Some? && Bit(n, 4) == coloured
              && (n == 0 <==> Blank(c))
  {
    hide Bit;
    match c
    case RawTile(_) => Bits(true, false, false, false, false);
    case CodedTile(bg, fg, subs, coloured) => Bits(false, bg.Some?, fg.Some?, subs.Some?, coloured);
  }

  lemma {:induction false} SubReadsBack(s: TileSub, coloured: bool, inp: seq<byte>, k: nat, size: nat, fg: Option<Color>)
    requires s.x + s.w <= 16 && s.y + s.h <= 16 && 1 <= s.w && 1 <= s.h
    requires size == (if coloured then 6 else 2) && k + size <= |inp| && inp[k..k + size] == SubBytes(s, coloured)
    requires coloured || fg.Some?
    ensures SubOf(inp[k + size - 2], inp[k + size - 1], if coloured then ColorAt(inp, k) else fg.value) == Read(s, coloured, fg)
  {
    var b := inp[k..k + size];
    assert b[size - 2] == inp[k + size - 2] && b[size - 1] == inp[k + size - 1];
    if coloured {
      assert b[0] == inp[k] && b[1] == inp[k + 1] && b[2] == inp[k + 2];
    }
  }

  lemma {:induction false} ReadSubsStep(inp: seq<byte>, at: nat, n: nat, sub: nat, fg: Option<Color>, before: seq<Sub>, k: nat)
    requires n > 0 && at + n * SubrectBytes(sub) <= |inp|
    requires at + (n - 1) * SubrectBytes(sub) <= |inp| && k == at + (n - 1) * SubrectBytes(sub)
    requires k + SubrectBytes(sub) <= |inp|
    requires ReadSubs(inp, at, n - 1, sub, fg) == Some(before)
    requires Bit(sub, 4) || fg.Some?
    ensures var size := SubrectBytes(sub);
            ReadSubs(inp, at, n, sub, fg) ==
              Some(before + [SubOf(inp[k + size - 2], inp[k + size - 1], if Bit(sub, 4) then ColorAt(inp, k) else fg.value)])
  {
    hide Bit;
  }

  lemma {:induction false} SubsReadBack(subs: seq<TileSub>, t: Tile, sub: nat, inp: seq<byte>, at: nat, fg: Option<Color>)
    requires t.w <= 16 && t.h <= 16 && forall s <- subs :: SubFits(s, t)
    requires Bit(sub, 4) || subs == [] || fg.Some?
    requires at + |SubsBytes(subs, t, Bit(sub, 4))| <= |inp|
    requires inp[at..at + |SubsBytes(subs, t, Bit(sub, 4))|] == SubsBytes(subs, t, Bit(sub, 4))
    ensures |SubsBytes(subs, t, Bit(sub, 4))| == |subs| * SubrectBytes(sub)
    ensures ReadSubs(inp, at, |subs|, sub, fg) == Some(ReadAll(subs, Bit(sub, 4), fg))
    decreases |subs|
  {
    hide Bit, SubBytes, ReadAll, ReadSubs, SubOf;
    if subs != [] {
      var n := |subs| - 1;
      var init, last := subs[..n], subs[n];
      assert last in subs && forall s <- init :: s in subs;
      var b0, b1 := SubsBytes(init, t, Bit(sub, 4)), SubBytes(last, Bit(sub, 4));
      SplitSlice(inp, at, b0, b1);
      SubsReadBack(init, t, sub, inp, at, fg);
      SubReadsBack(last, Bit(sub, 4), inp, at + n * SubrectBytes(sub), SubrectBytes(sub), fg);
      assert |subs| * SubrectBytes(sub) == n * SubrectBytes(sub) + SubrectBytes(sub);
      ReadAllSnoc(subs, Bit(sub, 4), fg);
      ReadSubsStep(inp, at, |subs|, sub, fg, ReadAll(init, Bit(sub, 4), fg), at + n * SubrectBytes(sub));
    } else {
      ReadAllSnoc(subs, Bit(sub, 4), fg);
      assert ReadSubs(inp, at, 0, sub, fg) == Some([]) by {
        ReadNoSubs(inp, at, sub, fg);
      }
    }
  }

  lemma {:induction false} ReadNoSubs(inp: seq<byte>, at: nat, sub: nat, fg: Option<Color>)
    requires at <= |inp|
    ensures ReadSubs(inp, at, 0, sub, fg) == Some([])
  {
  }

  lemma {:induction false} ReadAllSnoc(subs: seq<TileSub>, coloured: bool, fg: Option<Color>)
    ensures subs == [] ==> ReadAll(subs, coloured, fg) == []
    ensures subs != [] ==>
              ReadAll(subs, coloured, fg) == ReadAll(subs[..|subs| - 1], coloured, fg) + [Read(subs[|subs| - 1], coloured, fg)]
  {
  }

  lemma {:induction false} SplitSlice(inp: seq<byte>, at: nat, b0: seq<byte>, b1: seq<byte>)
    requires at + |b0| + |b1| <= |inp| && inp[at..at + |b0| + |b1|] == b0 + b1
    ensures inp[at..at + |b0|] == b0 && inp[at + |b0|..at + |b0| + |b1|] == b1
  {
    var all := inp[at..at + |b0| + |b1|];
    assert all[..|b0|] == b0 && all[|b0|..] == b1;
    assert inp[at..at + |b0|] == all[..|b0|] && inp[at + |b0|..at + |b0| + |b1|] == all[|b0|..];
  }

  lemma {:induction false} OptReadsBack(p: Option<WirePixel>, inp: seq<byte>, at: nat)
    requires p.Some? && at + 4 <= |inp| && inp[at..at + 4] == OptBytes(p)
    ensures ColorAt(inp, at) == p.value.color
  {
    var b := inp[at..at + 4];
    assert b[0] == inp[at] && b[1] == inp[at + 1] && b[2] == inp[at + 2];
  }

  lemma {:induction false} SubsSit(front: seq<byte>, count: byte, sb: seq<byte>, rest: seq<byte>)
    ensures var inp := front + ([count] + sb) + rest; var at := |front|;
            |inp| >= at + 1 + |sb| && inp[at] == count && inp[at + 1..at + 1 + |sb|] == sb
  {
  }

  /** Where the parts of a coded tile stand. */
  lemma {:induction false} CodedLayout(c: TileContent, t: Tile, carry: Carry, rest: seq<byte>)
    requires c.CodedTile? && t.w <= 16 && t.h <= 16 && TileOk(c, t, carry)
    ensures var inp := TileBytes(c, t, carry) + rest;
            var n := Subencoding(c);
            && inp[0] == n
            && (c.bg.Some? ==> ColorAt(inp, 1) == c.bg.value.color)
            && (c.fg.Some? ==> ColorAt(inp, 1 + ColorBytes(n, 1)) == c.fg.value.color)
            && CountPos(n) == 1 + |OptBytes(c.bg)| + |OptBytes(c.fg)| <= |TileBytes(c, t, carry)|
            && (c.subs.None? ==> |TileBytes(c, t, carry)| == CountPos(n))
            && (c.subs.Some? ==>
                  var sb := SubsBytes(c.subs.value, t, c.coloured);
                  && |TileBytes(c, t, carry)| == CountPos(n) + 1 + |sb|
                  && inp[CountPos(n)] == |c.subs.value|
                  && inp[CountPos(n) + 1..CountPos(n) + 1 + |sb|] == sb)
  {
    SubencodingBits(c);
    hide Bit;
    var inp := TileBytes(c, t, carry) + rest;
    if c.bg.Some? {
      assert inp[1..5] == OptBytes(c.bg);
      OptReadsBack(c.bg, inp, 1);
    }
    if c.fg.Some? {
      var at := 1 + |OptBytes(c.bg)|;
      assert inp[at..at + 4] == OptBytes(c.fg);
      OptReadsBack(c.fg, inp, at);
    }
    if c.subs.Some? {
      var sb := SubsBytes(c.subs.value, t, c.coloured);
      var front := [Subencoding(c)] + OptBytes(c.bg) + OptBytes(c.fg);
      assert TileBytes(c, t, carry) == front + ([|c.subs.value|] + sb);
      SubsSit(front, |c.subs.value|, sb, rest);
    }
  }

  /** The decoder's fields carry the colours the meaning carries. */
  predicate Carries(h: Hex, carry: Carry) {
    h.background == carry.bg && h.foreground == carry.fg && Bit(h.lastSub, 0) == carry.afterRaw
  }

  lemma {:induction false} CodedTileExpected(t: Tile, c: TileContent, carry: Carry, rest: seq<byte>)
    requires c.CodedTile? && t.w <= 16 && t.h <= 16 && TileOk(c, t, carry)
    ensures var inp := TileBytes(c, t, carry) + rest;
            && inp[0] == Subencoding(c) && Expected(inp, t) == Some(|TileBytes(c, t, carry)|)
            && (c.subs.Some? ==> CountPos(inp[0]) + 1 + |c.subs.value| * SubrectBytes(inp[0]) <= |inp|
                                 && inp[CountPos(inp[0])] == |c.subs.value|
                                 && ReadSubs(inp, CountPos(inp[0]) + 1, |c.subs.value|, inp[0], FgAfter(c, carry))
                                    == Some(ReadAll(c.subs.value, c.coloured, FgAfter(c, carry))))
  {
    SubencodingBits(c);
    CodedLayout(c, t, carry, rest);
    hide Bit, TileBytes, SubsBytes, ReadSubs, ReadAll;
    var inp := TileBytes(c, t, carry) + rest;
    if c.subs.Some? {
      SubsReadBack(c.subs.value, t, inp[0], inp, CountPos(inp[0]) + 1, FgAfter(c, carry));
    }
  }

  lemma {:induction false} CodedTilePaints(h: Hex, t: Tile, c: TileContent, carry: Carry, rest: seq<byte>)
    requires c.CodedTile? && t.w <= 16 && t.h <= 16 && TileOk(c, t, carry) && Carries(h, carry)
    ensures var inp := TileBytes(c, t, carry) + rest;
            var bg := BgAfter(c, carry).value;
            && !Bit(inp[0], 0) && Expected(inp, t).Some? && Expected(inp, t).value <= |inp|
            && PaintTile(h, inp, t) ==
                 Some(h.(background := Some(bg), foreground := FgAfter(c, carry),
                         buf := PaintSubs(Started(h.buf, t.w * t.h, bg), t.w, ReadAll(SubsOf(c), c.coloured, FgAfter(c, carry)))))
  {
    SubencodingBits(c);
    CodedLayout(c, t, carry, rest);
    CodedTileExpected(t, c, carry, rest);
    ReadAllSnoc([], c.coloured, FgAfter(c, carry));
    hide Bit, TileBytes, Started, PaintSubs, SubsBytes, ReadSubs, ReadAll, Expected;
  }

  lemma {:induction false} CodedTileDecodes(h: Hex, fb: Image, t: Tile, c: TileContent, carry: Carry, rest: seq<byte>)
    requires c.CodedTile? && t.w <= 16 && t.h <= 16 && TileOk(c, t, carry) && Carries(h, carry)
    ensures var inp := TileBytes(c, t, carry) + rest;
            && inp[0] == Subencoding(c) && Expected(inp, t) == Some(|TileBytes(c, t, carry)|)
            && DrawTile(h, inp, fb, t).Some?
            && DrawTile(h, inp, fb, t).value.1 == TileMeaning(fb, t, c, carry)
            && Carries(NextTile(DrawTile(h, inp, fb, t).value.0, inp[0]), CarryAfter(c, carry))
  {
    SubencodingBits(c);
    CodedTileExpected(t, c, carry, rest);
    CodedTilePaints(h, t, c, carry, rest);
    var fg := FgAfter(c, carry);
    BlitIsOverpaint(h.buf, fb, t, BgAfter(c, carry).value, SubsOf(c), c.coloured, fg);
    hide Bit, Started, PaintSubs, Overpaint, Fill, Put, TileBytes, SubsBytes, PaintTile, Expected, ReadAll;
    if Blank(c) {
      OverpaintNothing(Fill(fb, t.x, t.y, t.w, t.h, BgAfter(c, carry).value), t, c.coloured, fg);
    }
  }

  lemma {:induction false} OverpaintNothing(fb: Image, t: Tile, coloured: bool, fg: Option<Color>)
    ensures Overpaint(fb, t, [], coloured, fg) == fb
  {
  }

  /** Decoding an encoded tile draws what the tile means, consumes exactly its bytes, and leaves the
      decoder carrying the right colours, whatever follows. */
  lemma {:induction false} TileDecodes(h: Hex, fb: Image, t: Tile, c: TileContent, carry: Carry, rest: seq<byte>)
    requires t.w <= 16 && t.h <= 16 && TileOk(c, t, carry) && Carries(h, carry)
    ensures var inp := TileBytes(c, t, carry) + rest;
            && 1 <= |inp| && inp[0] <= 30 && Expected(inp, t) == Some(|TileBytes(c, t, carry)|)
            && DrawTile(h, inp, fb, t).Some?
            && DrawTile(h, inp, fb, t).value.1 == TileMeaning(fb, t, c, carry)
            && Carries(NextTile(DrawTile(h, inp, fb, t).value.0, inp[0]), CarryAfter(c, carry))
  {
    match c
    case CodedTile(_, _, _, _) =>
      CodedTileDecodes(h, fb, t, c, carry, rest);
    case RawTile(pixels) =>
      SubencodingBits(c);
      hide Bit, Put;
      var inp := TileBytes(c, t, carry) + rest;
      assert inp[1..] == PixelsBytes(pixels) + rest;
      PixelsReadBack(pixels, rest);
  }

  const BLANK := CodedTile(None, None, None, false)

  /** A blank tile means the background. It is drawn as that, whatever the decoder went through before, if and
      only if the tile before it was not raw, or the tile happens to show nothing but the background already;
      the colours are carried on in either case. */
  lemma {:induction false} BlankTileIff(h: Hex, fb: Image, t: Tile, carry: Carry, rest: seq<byte>)
    requires Carries(h, carry) && carry.bg.Some?
    ensures DrawTile(h, [0] + rest, fb, t).Some?
    ensures var (h1, fb1) := DrawTile(h, [0] + rest, fb, t).value;
            && (fb1 == TileMeaning(fb, t, BLANK, carry) <==>
                !carry.afterRaw || forall p <- fb :: InBox(p, t.x, t.y, t.w, t.h) ==> fb[p] == Opaque(carry.bg.value))
            && Carries(NextTile(h1, 0), CarryAfter(BLANK, carry))
  {
    Bits(false, false, false, false, false);
    hide Bit;
    assert CountPos(0) == 1;
    var bg := carry.bg.value;
    var filled := Fill(fb, t.x, t.y, t.w, t.h, bg);
    OverpaintNothing(filled, t, false, carry.fg);
    FilledAlready(fb, t, bg);
  }

  lemma {:induction false} FilledAlready(fb: Image, t: Tile, c: Color)
    ensures Fill(fb, t.x, t.y, t.w, t.h, c) == fb <==> forall p <- fb :: InBox(p, t.x, t.y, t.w, t.h) ==> fb[p] == Opaque(c)
  {
    var filled := Fill(fb, t.x, t.y, t.w, t.h, c);
    if filled == fb {
      forall p | p in fb && InBox(p, t.x, t.y, t.w, t.h) ensures fb[p] == Opaque(c) {
        assert filled[p] == Opaque(c);
      }
    }
  }
}
