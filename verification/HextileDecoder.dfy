/** Hextile rectangles: tiles of at most 16 by 16 pixels, each drawn when all its bytes are there, with the
    background and foreground colours carried from tile to tile. */
module HextileDecoder {
  import opened Arith
  import opened Bytes
  import opened Wrappers
  import opened Canvas
  import opened DecoderIO

  /** The 16*16-pixel scratch buffer. */
  type TileBuffer = b: seq<Pixel> | |b| == 256 witness seq(256, _ => Transparent)

  datatype Hex = Hex(tiles: nat, tilesX: nat, totalTiles: nat, background: Option<Color>, foreground: Option<Color>,
                     lastSub: nat, buf: TileBuffer)

  /** A new decoder. */
  function Fresh(): Hex {
    Hex(0, 0, 0, None, None, 0, seq(256, _ => Transparent))
  }

  // ----- tiles -----

  datatype Tile = Tile(x: nat, y: nat, w: nat, h: nat)

  function Ceil16(n: nat): nat {
    (n + 15) / 16
  }

  /** Math.min(16, room), which is never negative for a tile that is visited. */
  function Side(room: int): nat {
    if room < 0 then 0 else if room < 16 then room else 16
  }

  function Column(tilesX: nat, index: nat): nat {
    if tilesX == 0 then 0 else index % tilesX
  }

  function Line(tilesX: nat, index: nat): nat {
    if tilesX == 0 then 0 else index / tilesX
  }

  function TileAt(r: Rect, tilesX: nat, index: nat): Tile {
    var col, row := Column(tilesX, index), Line(tilesX, index);
    Tile(r.x + col * 16, r.y + row * 16, Side(r.w - col * 16), Side(r.h - row * 16))
  }

  predicate InTile(t: Tile, p: Point) {
    InBox(p, t.x, t.y, t.w, t.h)
  }

  /** Row-major position of a cell in a grid of `cols` columns. */
  function Position(cols: nat, col: nat, row: nat): nat {
    row * cols + col
  }

  lemma {:induction false} PositionOfIndex(cols: nat, rows: nat, index: nat)
    requires index < cols * rows
    ensures cols > 0 && index % cols < cols && index / cols < rows && index == Position(cols, index % cols, index / cols)
  {
    if cols == 0 {
      assert false;
    }
    QuotientBound(index, cols, rows);
    DivisionBounds(index, cols);
  }

  /** The tiles partition the rectangle: every tile visited is 1 to 16 pixels on a side, and a point lies in
      it exactly when it lies in the rectangle and in the grid cell the tile's number names. So every point
      of the rectangle lies in exactly one tile, and no tile sticks out. */
  lemma {:induction false} TilesPartition(r: Rect, index: nat, p: Point)
    requires index < Ceil16(r.w) * Ceil16(r.h)
    ensures var t := TileAt(r, Ceil16(r.w), index);
            && 1 <= t.w <= 16 && 1 <= t.h <= 16
            && (InTile(t, p) <==> InBox(p, r.x, r.y, r.w, r.h)
                                  && index == Position(Ceil16(r.w), (p.0 - r.x) / 16, (p.1 - r.y) / 16))
    ensures InBox(p, r.x, r.y, r.w, r.h) ==>
              Position(Ceil16(r.w), (p.0 - r.x) / 16, (p.1 - r.y) / 16) < Ceil16(r.w) * Ceil16(r.h)
  {
    var cols, rows := Ceil16(r.w), Ceil16(r.h);
    PositionOfIndex(cols, rows, index);
    var col, row := index % cols, index / cols;
    TileInside(r, col, row, p);
    if InBox(p, r.x, r.y, r.w, r.h) {
      var col', row' := (p.0 - r.x) / 16, (p.1 - r.y) / 16;
      GridBound(cols, rows, col', row');
      PositionInjective(cols, col, row, col', row');
    }
    hide Position, Ceil16, Side;
  }

  lemma {:induction false} PositionInjective(n: nat, col: nat, row: nat, col': nat, row': nat)
    requires col < n && col' < n
    ensures Position(n, col, row) == Position(n, col', row') <==> col == col' && row == row'
  {
    GridInjective(n, col, row, col', row');
  }

  lemma {:induction false} TileInside(r: Rect, col: nat, row: nat, p: Point)
    requires col < Ceil16(r.w) && row < Ceil16(r.h)
    ensures var t := Tile(r.x + col * 16, r.y + row * 16, Side(r.w - col * 16), Side(r.h - row * 16));
            && 1 <= t.w <= 16 && 1 <= t.h <= 16
            && (InTile(t, p) <==> InBox(p, r.x, r.y, r.w, r.h) && (p.0 - r.x) / 16 == col && (p.1 - r.y) / 16 == row)
  {
  }

  // ----- tile bytes -----

  /** Bit k of a subencoding: Raw, BackgroundSpecified, ForegroundSpecified, AnySubrects, SubrectsColoured. */
  predicate Bit(sub: nat, k: nat) {
    sub / Pow2(k) % 2 == 1
  }

  function ColorBytes(sub: nat, k: nat): nat {
    if Bit(sub, k) then 4 else 0
  }

  function SubrectBytes(sub: nat): nat {
    if Bit(sub, 4) then 6 else 2
  }

  /** Where the subrectangle count stands, if there is one. */
  function CountPos(sub: nat): nat {
    1 + ColorBytes(sub, 1) + ColorBytes(sub, 2)
  }

  /** How many bytes the tile takes in all, once enough of it is there to tell. */
  function Expected(inp: seq<byte>, t: Tile): Option<nat>
    requires |inp| >= 1
  {
    var sub := inp[0];
    if Bit(sub, 0) then Some(1 + t.w * t.h * 4)
    else if !Bit(sub, 3) then Some(CountPos(sub))
    else if |inp| < CountPos(sub) + 1 then None
    else Some(CountPos(sub) + 1 + inp[CountPos(sub)] * SubrectBytes(sub))
  }

  // ----- painting a tile -----

  function Started(buf: TileBuffer, n: nat, c: Color): TileBuffer {
    seq(256, k requires 0 <= k < 256 => if k < n then Opaque(c) else buf[k])
  }

  /** One row of a subrectangle; what falls beyond the buffer is ignored. */
  function PaintRow(buf: TileBuffer, start: nat, n: nat, c: Color): TileBuffer {
    seq(256, k requires 0 <= k < 256 => if start <= k < start + n then Opaque(c) else buf[k])
  }

  function PaintRows(buf: TileBuffer, tw: nat, sx: nat, sy: nat, sw: nat, rows: nat, c: Color): TileBuffer
    decreases rows
  {
    if rows == 0 then buf
    else PaintRow(PaintRows(buf, tw, sx, sy, sw, rows - 1, c), sx + (sy + rows - 1) * tw, sw, c)
  }

  datatype Sub = Sub(x: nat, y: nat, w: nat, h: nat, color: Color)

  function SubOf(xy: byte, wh: byte, c: Color): Sub {
    Sub(xy / 16, xy % 16, wh / 16 + 1, wh % 16 + 1, c)
  }

  function PaintSub(buf: TileBuffer, tw: nat, s: Sub): TileBuffer {
    PaintRows(buf, tw, s.x, s.y, s.w, s.h, s.color)
  }

  /** The n subrectangles whose bytes start at `at`; None when one needs a foreground that was never set. */
  function ReadSubs(inp: seq<byte>, at: nat, n: nat, sub: nat, fg: Option<Color>): (r: Option<seq<Sub>>)
    requires at + n * SubrectBytes(sub) <= |inp|
    ensures r.Some? ==> |r.value| == n
    decreases n
  {
    if n == 0 then Some([])
    else
      var size := SubrectBytes(sub);
      assert n * size == (n - 1) * size + size;
      var rest := ReadSubs(inp, at, n - 1, sub, fg);
      var k := at + (n - 1) * size;
      var color := if Bit(sub, 4) then Some(ColorAt(inp, k)) else fg;
      if rest.None? || color.None? then None
      else Some(rest.value + [SubOf(inp[k + size - 2], inp[k + size - 1], color.value)])
  }

  function PaintSubs(buf: TileBuffer, tw: nat, subs: seq<Sub>): TileBuffer
    decreases |subs|
  {
    if subs == [] then buf else PaintSub(PaintSubs(buf, tw, subs[..|subs| - 1]), tw, subs[|subs| - 1])
  }

  /** What a coloured tile paints, or None when a colour it needs was never set. */
  function PaintTile(h: Hex, inp: seq<byte>, t: Tile): Option<Hex>
    requires |inp| >= 1 && !Bit(inp[0], 0)
    requires Expected(inp, t).Some? && Expected(inp, t).value <= |inp|
  {
    var sub := inp[0];
    var bg := if Bit(sub, 1) then Some(ColorAt(inp, 1)) else h.background;
    var fg := if Bit(sub, 2) then Some(ColorAt(inp, 1 + ColorBytes(sub, 1))) else h.foreground;
    if bg.None? then None
    else
      var buf := Started(h.buf, t.w * t.h, bg.value);
      var subs := if Bit(sub, 3) then ReadSubs(inp, CountPos(sub) + 1, inp[CountPos(sub)], sub, fg) else Some([]);
      if subs.None? then None
      else Some(h.(background := bg, foreground := fg, buf := PaintSubs(buf, t.w, subs.value)))
  }

  // ----- the decoder -----

  function NextTile(h: Hex, sub: nat): Hex {
    h.(lastSub := sub, tiles := if h.tiles > 0 then h.tiles - 1 else 0)
  }

  /** A tile whose bytes are all there: the new colours and scratch buffer, and the framebuffer; None when
      a colour it needs was never set. */
  function DrawTile(h: Hex, inp: seq<byte>, fb: Image, t: Tile): Option<(Hex, Image)>
    requires |inp| >= 1 && Expected(inp, t).Some? && Expected(inp, t).value <= |inp|
  {
    var sub := inp[0];
    if sub == 0 then
      // A blank tile after a raw one is ignored.
      if Bit(h.lastSub, 0) then Some((h, fb))
      else if h.background.None? then None
      else Some((h, Fill(fb, t.x, t.y, t.w, t.h, h.background.value)))
    else if Bit(sub, 0) then
      Some((h, Put(fb, t.x, t.y, t.w, t.h, Pixels32(inp[1..], t.w * t.h))))
    else
      var painted := PaintTile(h, inp, t);
      if painted.None? then None
      else Some((painted.value, Put(fb, t.x, t.y, t.w, t.h, painted.value.buf[..Side256(t.w * t.h)])))
  }

  lemma {:induction false} DrawTileKeepsCount(h: Hex, inp: seq<byte>, fb: Image, t: Tile)
    requires |inp| >= 1 && Expected(inp, t).Some? && Expected(inp, t).value <= |inp|
    ensures DrawTile(h, inp, fb, t).Some? ==>
              var h1 := DrawTile(h, inp, fb, t).value.0;
              h1.tiles == h.tiles && h1.tilesX == h.tilesX && h1.totalTiles == h.totalTiles
  {
    hide Bit, Started, PaintSubs, ReadSubs, Expected;
  }

  function CurrentTile(h: Hex, r: Rect): Tile {
    TileAt(r, h.tilesX, if h.totalTiles < h.tiles then 0 else h.totalTiles - h.tiles)
  }

  function TileUnit(h: Hex, io: IO, r: Rect): (Hex, IO, Verdict)
    requires h.tiles > 0
  {
    if |io.inp| < 1 then (h, io, Blocked)
    else if io.inp[0] > 30 then (h, io, Broken)
    else
      var t := CurrentTile(h, r);
      var bytes := Expected(io.inp, t);
      if bytes.None? || |io.inp| < bytes.value then (h, io, Blocked)
      else
        var drawn := DrawTile(h, io.inp, io.fb, t);
        if drawn.None? then (h, io, Broken)
        else
          (NextTile(drawn.value.0, io.inp[0]), IO(io.inp[bytes.value..], drawn.value.1), if h.tiles == 1 then Finished else More)
  }

  /** A tile has at most 256 pixels. */
  function Side256(n: nat): nat {
    if n < 256 then n else 256
  }

  function Unit(h: Hex, io: IO, r: Rect): (Hex, IO, Verdict) {
    if h.tiles == 0 then
      var cols, rows := Ceil16(r.w), Ceil16(r.h);
      (h.(tilesX := cols, totalTiles := cols * rows, tiles := cols * rows), io, if cols * rows == 0 then Finished else More)
    else TileUnit(h, io, r)
  }

  function Decode(h: Hex, io: IO, r: Rect): (e: (Hex, IO, Verdict))
    ensures e.2 != More
    decreases if h.tiles == 0 then 1 else 0, h.tiles
  {
    var (h1, io1, v) := Unit(h, io, r);
    if v == More then Decode(h1, io1, r) else (h1, io1, v)
  }

  // ----- later bytes do not change a tile -----

  lemma {:induction false} ReadSubsPrefix(s: seq<byte>, t: seq<byte>, at: nat, n: nat, sub: nat, fg: Option<Color>)
    requires at + n * SubrectBytes(sub) <= |s| <= |t| && s == t[..|s|]
    ensures ReadSubs(s, at, n, sub, fg) == ReadSubs(t, at, n, sub, fg)
    decreases n
  {
    if n > 0 {
      var size := SubrectBytes(sub);
      assert n * size == (n - 1) * size + size;
      hide Bit;
      ReadSubsPrefix(s, t, at, n - 1, sub, fg);
      assert forall i | 0 <= i < |s| :: s[i] == t[i];
    }
  }

  lemma {:induction false} PaintTilePrefix(h: Hex, s: seq<byte>, more: seq<byte>, t: Tile)
    requires |s| >= 1 && !Bit(s[0], 0)
    requires Expected(s, t).Some? && Expected(s, t).value <= |s|
    ensures Expected(s + more, t) == Expected(s, t)
    ensures PaintTile(h, s + more, t) == PaintTile(h, s, t)
  {
    hide Bit, PaintSubs, Started, ReadSubs;
    var sub := s[0];
    assert (s + more)[..|s|] == s;
    if Bit(sub, 3) {
      var at := CountPos(sub);
      assert (s + more)[at] == s[at];
      ReadSubsPrefix(s, s + more, at + 1, s[at], sub, if Bit(sub, 2) then Some(ColorAt(s, 1 + ColorBytes(sub, 1))) else h.foreground);
    }
  }

  lemma {:induction false} DrawTileExtends(h: Hex, inp: seq<byte>, fb: Image, t: Tile, more: seq<byte>)
    requires |inp| >= 1 && Expected(inp, t).Some? && Expected(inp, t).value <= |inp|
    ensures Expected(inp + more, t) == Expected(inp, t)
    ensures DrawTile(h, inp + more, fb, t) == DrawTile(h, inp, fb, t)
  {
    hide Bit, Fill, Put, PaintTile, Side256;
    if Bit(inp[0], 0) {
      assert (inp + more)[1..] == inp[1..] + more;
      assert Pixels32(inp[1..] + more, t.w * t.h) == Pixels32(inp[1..], t.w * t.h);
    } else {
      PaintTilePrefix(h, inp, more, t);
    }
  }

  lemma {:induction false} UnitExtends(h: Hex, io: IO, r: Rect, more: seq<byte>)
    requires Unit(h, io, r).2 != Blocked
    ensures var (h1, io1, v) := Unit(h, io, r);
            Unit(h, Extend(io, more), r) == (h1, Extend(io1, more), v)
  {
    hide DrawTile, Expected;
    if h.tiles > 0 && io.inp[0] <= 30 {
      var t := CurrentTile(h, r);
      DrawTileExtends(h, io.inp, io.fb, t, more);
      SkipExtend(io, Expected(io.inp, t).value, more);
    }
  }
}
