/** What a framebuffer update means (RFC 6143, section 7.6.1): its rectangles drawn one after the other;
    and that the client, resumed at every arrival, draws exactly that. */
module RfbMeaning {
  import opened Bytes
  import opened Wrappers
  import opened Canvas
  import opened DecoderIO
  import opened HextileMeaning
  import opened RfbMachine
  import opened RfbClient
  import RawDecoder
  import opened HextileDecoder

  // ----- updates -----

  datatype RreSub = RreSub(x: nat, y: nat, w: nat, h: nat, pixel: WirePixel)

  type TwoBits = n: nat | n < 4

  /** A pixel at a depth of eight bits: two bits a channel and two the client ignores. */
  datatype Shade = Shade(r: TwoBits, g: TwoBits, b: TwoBits, pad: TwoBits)

  datatype Content =
    | RawContent(pixels: seq<WirePixel>)
    | Raw8Content(shades: seq<Shade>)
    | CopyContent(srcX: nat, srcY: nat)
    | RreContent(bg: WirePixel, subs: seq<RreSub>)
    | HextileContent(tiles: seq<TileContent>)
    | SizeContent

  datatype RectUpdate = RectUpdate(rect: Rect, content: Content)

  predicate Small(n: nat) {
    n < 65536
  }

  predicate TilesOk(r: Rect, tiles: seq<TileContent>, index: nat, carry: Carry)
    decreases |tiles|
  {
    tiles == [] ||
    (TileOk(tiles[0], TileAt(r, Ceil16(r.w), index), carry) && TilesOk(r, tiles[1..], index + 1, CarryAfter(tiles[0], carry)))
  }

  predicate RreSubOk(s: RreSub) {
    Small(s.x) && Small(s.y) && Small(s.w) && Small(s.h)
  }

  /** At a depth of eight bits the client asks for nothing but raw pixels; copies and new sizes carry none. */
  predicate Suits(c: Content, depth8: bool) {
    if depth8 then c.Raw8Content? || c.CopyContent? || c.SizeContent? else !c.Raw8Content?
  }

  predicate AllSuit(us: seq<RectUpdate>, depth8: bool) {
    forall u <- us :: Suits(u.content, depth8)
  }

  predicate SmallRect(r: Rect) {
    Small(r.x) && Small(r.y) && Small(r.w) && Small(r.h)
  }

  /** A rectangle a server may send. */
  predicate RectOk(u: RectUpdate, carry: Carry) {
    && SmallRect(u.rect)
    && match u.content
       case RawContent(pixels) => |pixels| == u.rect.w * u.rect.h
       case Raw8Content(shades) => |shades| == u.rect.w * u.rect.h
       case CopyContent(srcX, srcY) => Small(srcX) && Small(srcY)
       case RreContent(_, subs) => |subs| < 0x8000_0000 && forall s <- subs :: RreSubOk(s)
       case HextileContent(tiles) => |tiles| == Ceil16(u.rect.w) * Ceil16(u.rect.h) && TilesOk(u.rect, tiles, 0, carry)
       case SizeContent => true
  }

  // ----- meaning -----

  function DrawSubs(fb: Image, r: Rect, subs: seq<RreSub>): Image
    decreases |subs|
  {
    if subs == [] then fb
    else DrawSubs(Fill(fb, r.x + subs[0].x, r.y + subs[0].y, subs[0].w, subs[0].h, subs[0].pixel.color), r, subs[1..])
  }

  function DrawTiles(fb: Image, carry: Carry, r: Rect, tiles: seq<TileContent>, index: nat): (Image, Carry)
    decreases |tiles|
  {
    if tiles == [] then (fb, carry)
    else DrawTiles(TileMeaning(fb, TileAt(r, Ceil16(r.w), index), tiles[0], carry), CarryAfter(tiles[0], carry), r, tiles[1..], index + 1)
  }

  /** Each channel spread over the range of a byte. */
  function ShadeColors(shades: seq<Shade>): (r: seq<Pixel>)
    ensures |r| == |shades|
  {
    seq(|shades|, i requires 0 <= i < |shades| => Opaque(Color(shades[i].r * 85, shades[i].g * 85, shades[i].b * 85)))
  }

  function DrawRect(fb: Image, carry: Carry, u: RectUpdate): (Image, Carry) {
    var r := u.rect;
    match u.content
    case RawContent(pixels) => (if r.w == 0 || r.h == 0 then fb else Put(fb, r.x, r.y, r.w, r.h, Colors(pixels)), carry)
    case Raw8Content(shades) => (if r.w == 0 || r.h == 0 then fb else Put(fb, r.x, r.y, r.w, r.h, ShadeColors(shades)), carry)
    case CopyContent(srcX, srcY) => (if r.w == 0 || r.h == 0 then fb else Draw(fb, fb, srcX, srcY, r.x, r.y, r.w, r.h), carry)
    case RreContent(bg, subs) => (DrawSubs(Fill(fb, r.x, r.y, r.w, r.h, bg.color), r, subs), carry)
    case HextileContent(tiles) => DrawTiles(fb, carry, r, tiles, 0)
    case SizeContent => (Resized(fb, r.w, r.h), carry)
  }

  function DrawRects(fb: Image, carry: Carry, us: seq<RectUpdate>): (Image, Carry)
    decreases |us|
  {
    if us == [] then (fb, carry)
    else
      var (fb1, carry1) := DrawRect(fb, carry, us[0]);
      DrawRects(fb1, carry1, us[1..])
  }

  predicate RectsOk(us: seq<RectUpdate>, fb: Image, carry: Carry)
    decreases |us|
  {
    us == [] || (RectOk(us[0], carry) && var (fb1, carry1) := DrawRect(fb, carry, us[0]); RectsOk(us[1..], fb1, carry1))
  }

  // ----- bytes -----

  function U16Bytes(n: nat): seq<byte>
    requires Small(n)
  {
    [n / 256, n % 256]
  }

  function U32Bytes(n: nat): seq<byte>
    requires n < 0x8000_0000
  {
    [n / 0x100_0000, n / 0x1_0000 % 256, n / 256 % 256, n % 256]
  }

  lemma {:induction false} U16ReadsBack(n: nat, s: seq<byte>, at: nat)
    requires Small(n) && at + 2 <= |s| && s[at..at + 2] == U16Bytes(n)
    ensures U16(s, at) == n
  {
    assert s[at] == s[at..at + 2][0] && s[at + 1] == s[at..at + 2][1];
  }

  lemma {:induction false} U32ReadsBack(n: nat, s: seq<byte>, at: nat)
    requires n < 0x8000_0000 && at + 4 <= |s| && s[at..at + 4] == U32Bytes(n)
    ensures S32(s, at) == n
  {
    var b := s[at..at + 4];
    assert s[at] == b[0] && s[at + 1] == b[1] && s[at + 2] == b[2] && s[at + 3] == b[3];
    assert n / 0x1_0000 == n / 0x100_0000 * 256 + n / 0x1_0000 % 256;
    assert n / 256 == n / 0x1_0000 * 256 + n / 256 % 256;
  }

  /** Encoding types as numbers of four bytes (RFC 6143, sections 7.7 and 7.8). */
  function EncodingBytes(c: Content): (b: seq<byte>)
    ensures |b| == 4
  {
    match c
    case RawContent(_) => [0, 0, 0, 0]
    case Raw8Content(_) => [0, 0, 0, 0]
    case CopyContent(_, _) => [0, 0, 0, 1]
    case RreContent(_, _) => [0, 0, 0, 2]
    case HextileContent(_) => [0, 0, 0, 5]
    case SizeContent => [0xFF, 0xFF, 0xFF, 0x21]
  }

  /** The type of the pseudo-rectangle that ends an update early. */
  const LAST_RECT: seq<byte> := [0xFF, 0xFF, 0xFF, 0x20]

  /** The branch of the client that encoded content is meant for. */
  function EncodingOf(c: Content): int {
    match c
    case RawContent(_) => ENCODING_RAW
    case Raw8Content(_) => ENCODING_RAW
    case CopyContent(_, _) => ENCODING_COPYRECT
    case RreContent(_, _) => ENCODING_RRE
    case HextileContent(_) => ENCODING_HEXTILE
    case SizeContent => ENCODING_DESKTOP_SIZE
  }

  lemma {:induction false} FourReadBack(b: seq<byte>, s: seq<byte>, at: nat)
    requires |b| == 4 && at + 4 <= |s| && s[at..at + 4] == b
    ensures S32(s, at) == S32(b, 0)
  {
    assert s[at] == b[0] && s[at + 1] == b[1] && s[at + 2] == b[2] && s[at + 3] == b[3];
  }

  lemma {:induction false} EncodingReadsBack(c: Content)
    ensures S32(EncodingBytes(c), 0) == EncodingOf(c)
  {
  }

  function RreSubBytes(s: RreSub): (b: seq<byte>)
    requires RreSubOk(s)
    ensures |b| == 12
  {
    PixelBytes(s.pixel) + U16Bytes(s.x) + U16Bytes(s.y) + U16Bytes(s.w) + U16Bytes(s.h)
  }

  function RreSubsBytes(subs: seq<RreSub>): seq<byte>
    requires forall s <- subs :: RreSubOk(s)
    decreases |subs|
  {
    if subs == [] then []
    else
      assert subs[0] in subs && RreSubOk(subs[0]);
      assert forall s <- subs[1..] :: s in subs;
      RreSubBytes(subs[0]) + RreSubsBytes(subs[1..])
  }

  lemma {:induction false} TileSides(r: Rect, tilesX: nat, index: nat)
    ensures TileAt(r, tilesX, index).w <= 16 && TileAt(r, tilesX, index).h <= 16
  {
  }

  function TilesBytes(r: Rect, tiles: seq<TileContent>, index: nat, carry: Carry): seq<byte>
    requires TilesOk(r, tiles, index, carry)
    decreases |tiles|
  {
    if tiles == [] then []
    else
      var t := TileAt(r, Ceil16(r.w), index);
      TileSides(r, Ceil16(r.w), index);
      TileBytes(tiles[0], t, carry) + TilesBytes(r, tiles[1..], index + 1, CarryAfter(tiles[0], carry))
  }

  function ShadeBytes(shades: seq<Shade>): (s: seq<byte>)
    ensures |s| == |shades|
  {
    seq(|shades|, i requires 0 <= i < |shades| => shades[i].r + 4 * shades[i].g + 16 * shades[i].b + 64 * shades[i].pad)
  }

  function BodyBytes(u: RectUpdate, carry: Carry): seq<byte>
    requires RectOk(u, carry)
  {
    match u.content
    case RawContent(pixels) => PixelsBytes(pixels)
    case Raw8Content(shades) => ShadeBytes(shades)
    case CopyContent(srcX, srcY) => U16Bytes(srcX) + U16Bytes(srcY)
    case RreContent(bg, subs) => U32Bytes(|subs|) + PixelBytes(bg) + RreSubsBytes(subs)
    case HextileContent(tiles) => TilesBytes(u.rect, tiles, 0, carry)
    case SizeContent => []
  }

  function HeaderBytes(r: Rect, encoding: seq<byte>): (b: seq<byte>)
    requires SmallRect(r) && |encoding| == 4
    ensures |b| == 12
  {
    U16Bytes(r.x) + U16Bytes(r.y) + U16Bytes(r.w) + U16Bytes(r.h) + encoding
  }

  function RectBytes(u: RectUpdate, carry: Carry): seq<byte>
    requires RectOk(u, carry)
  {
    HeaderBytes(u.rect, EncodingBytes(u.content)) + BodyBytes(u, carry)
  }

  function RectsBytes(us: seq<RectUpdate>, fb: Image, carry: Carry): seq<byte>
    requires RectsOk(us, fb, carry)
    decreases |us|
  {
    if us == [] then []
    else
      var (fb1, carry1) := DrawRect(fb, carry, us[0]);
      RectBytes(us[0], carry) + RectsBytes(us[1..], fb1, carry1)
  }

  /** A message of the server: a framebuffer update or a bell. The update's number of rectangles is announced
      exactly, or it is any larger number and a pseudo-rectangle closes the update early. */
  datatype Message =
    | Update(rects: seq<RectUpdate>, pad: byte, last: Option<LastRect>)
    | Bell

  datatype LastRect = LastRect(announced: nat, rect: Rect)

  predicate CountOk(rects: seq<RectUpdate>, last: Option<LastRect>) {
    match last
    case None => Small(|rects|)
    case Some(l) => |rects| < l.announced && Small(l.announced) && SmallRect(l.rect)
  }

  function Announced(rects: seq<RectUpdate>, last: Option<LastRect>): nat {
    if last.Some? then last.value.announced else |rects|
  }

  function LastBytes(last: Option<LastRect>): seq<byte>
    requires last.Some? ==> SmallRect(last.value.rect)
  {
    if last.Some? then HeaderBytes(last.value.rect, LAST_RECT) else []
  }

  /** A whole update: message type, padding, number of rectangles, rectangles, and what closes them early. */
  function UpdateBytes(us: seq<RectUpdate>, pad: byte, last: Option<LastRect>, fb: Image, carry: Carry): seq<byte>
    requires CountOk(us, last) && RectsOk(us, fb, carry)
  {
    [0, pad] + U16Bytes(Announced(us, last)) + RectsBytes(us, fb, carry) + LastBytes(last)
  }

  // ----- one rectangle -----

  /** Between rectangles: nothing under way in any decoder. */
  predicate Calm(s: Rfb, carry: Carry) {
    !s.halted && s.encoding.None? && s.lines == 0 && s.subrects == 0 && s.hex.tiles == 0 && Carries(s.hex, carry)
  }

  /** t is s after one rectangle that left the framebuffer and bytes in io. */
  predicate AfterRect(s: Rfb, t: Rfb, io: IO, carry: Carry) {
    && Calm(t, carry) && t.io == io && s.rects > 0 && t.rects == s.rects - 1
    && t.updates == s.updates + (if s.rects == 1 then 1 else 0) && t.depth8 == s.depth8
  }

  lemma {:induction false} HeaderRuns(s: Rfb, r: Rect, encoding: seq<byte>, rest: seq<byte>)
    requires !s.halted && s.rects > 0 && s.encoding.None? && SmallRect(r) && |encoding| == 4
    requires s.io.inp == HeaderBytes(r, encoding) + rest
    ensures Run(s) == Run(s.(io := IO(rest, s.io.fb), rect := r, encoding := Some(S32(encoding, 0))))
  {
    var inp := s.io.inp;
    assert inp[0..2] == U16Bytes(r.x) && inp[2..4] == U16Bytes(r.y);
    assert inp[4..6] == U16Bytes(r.w) && inp[6..8] == U16Bytes(r.h) && inp[8..12] == encoding;
    assert inp[12..] == rest;
    U16ReadsBack(r.x, inp, 0);
    U16ReadsBack(r.y, inp, 2);
    U16ReadsBack(r.w, inp, 4);
    U16ReadsBack(r.h, inp, 6);
    FourReadBack(encoding, inp, 8);
    hide Run, U16, S32;
    RunStep(s);
  }

  lemma {:induction false} RawRuns(s: Rfb, pixels: seq<WirePixel>, rest: seq<byte>)
    requires Inside(s, ENCODING_RAW) && s.lines == 0 && !s.depth8
    requires |pixels| == s.rect.w * s.rect.h && s.io.inp == PixelsBytes(pixels) + rest
    ensures var r := s.rect;
            var fb := if r.w == 0 || r.h == 0 then s.io.fb else Put(s.io.fb, r.x, r.y, r.w, r.h, Colors(pixels));
            Run(s) == Run(FinishRect(s.(io := IO(rest, fb))))
  {
    var r := s.rect;
    RawLeadsTo(s);
    if r.w == 0 || r.h == 0 {
      RawDecoder.DecodeStarts(0, s.io, r, false);
      assert s.io.inp == rest;
    } else {
      RawDecoder.DecodeStarts(0, s.io, r, false);
      PixelsReadBack(pixels, rest);
      assert RawDecoder.Span(r.w, r.h, false) == 4 * |pixels|;
      RawDecoder.LinesAtOnce(r.h, s.io, r, false, r.h);
      assert s.io.inp[4 * |pixels|..] == rest;
      hide Put, Run, Step, RawDecoder.Decode;
    }
  }

  lemma ShadeReadsBack(r: nat, g: nat, b: nat, pad: nat)
    requires r < 4 && g < 4 && b < 4 && pad < 4
    ensures var n := r + 4 * g + 16 * b + 64 * pad; n < 256 && n % 4 == r && n / 4 % 4 == g && n / 16 % 4 == b
  {
    var n := r + 4 * g + 16 * b + 64 * pad;
    assert n / 4 == g + 4 * b + 16 * pad;
    assert n / 16 == b + 4 * pad;
  }

  lemma {:induction false} ShadesReadBack(shades: seq<Shade>, rest: seq<byte>)
    ensures Pixels8(ShadeBytes(shades) + rest, |shades|) == ShadeColors(shades)
  {
    var s := ShadeBytes(shades) + rest;
    forall i | 0 <= i < |shades|
      ensures Pixel8(s[i]) == ShadeColors(shades)[i]
    {
      ShadeReadsBack(shades[i].r, shades[i].g, shades[i].b, shades[i].pad);
    }
  }

  lemma {:induction false} Raw8Runs(s: Rfb, shades: seq<Shade>, rest: seq<byte>)
    requires Inside(s, ENCODING_RAW) && s.lines == 0 && s.depth8
    requires |shades| == s.rect.w * s.rect.h && s.io.inp == ShadeBytes(shades) + rest
    ensures var r := s.rect;
            var fb := if r.w == 0 || r.h == 0 then s.io.fb else Put(s.io.fb, r.x, r.y, r.w, r.h, ShadeColors(shades));
            Run(s) == Run(FinishRect(s.(io := IO(rest, fb))))
  {
    var r := s.rect;
    RawLeadsTo(s);
    RawDecoder.DecodeStarts(0, s.io, r, true);
    if r.w == 0 || r.h == 0 {
      assert s.io.inp == rest;
    } else {
      ShadesReadBack(shades, rest);
      assert RawDecoder.Span(r.w, r.h, true) == |shades|;
      RawDecoder.LinesAtOnce(r.h, s.io, r, true, r.h);
      assert s.io.inp[|shades|..] == rest;
      hide Put, Run, Step, RawDecoder.Decode;
    }
  }

  lemma {:induction false} CopyRuns(s: Rfb, srcX: nat, srcY: nat, rest: seq<byte>)
    requires Inside(s, ENCODING_COPYRECT) && Small(srcX) && Small(srcY)
    requires s.io.inp == U16Bytes(srcX) + U16Bytes(srcY) + rest
    ensures var r := s.rect;
            var fb := if r.w == 0 || r.h == 0 then s.io.fb else Draw(s.io.fb, s.io.fb, srcX, srcY, r.x, r.y, r.w, r.h);
            Run(s) == Run(FinishRect(s.(io := IO(rest, fb))))
  {
    hide Draw, Run;
    var inp := s.io.inp;
    assert inp[0..2] == U16Bytes(srcX) && inp[2..4] == U16Bytes(srcY) && inp[4..] == rest;
    U16ReadsBack(srcX, inp, 0);
    U16ReadsBack(srcY, inp, 2);
    UnitLeadsTo(s);
  }

  lemma {:induction false} RreSubReadsBack(s: RreSub, inp: seq<byte>, rest: seq<byte>)
    requires RreSubOk(s) && inp == RreSubBytes(s) + rest
    ensures ColorAt(inp, 0) == s.pixel.color && U16(inp, 4) == s.x && U16(inp, 6) == s.y && U16(inp, 8) == s.w && U16(inp, 10) == s.h
    ensures inp[12..] == rest
  {
    assert inp[4..6] == U16Bytes(s.x) && inp[6..8] == U16Bytes(s.y) && inp[8..10] == U16Bytes(s.w) && inp[10..12] == U16Bytes(s.h);
    U16ReadsBack(s.x, inp, 4);
    U16ReadsBack(s.y, inp, 6);
    U16ReadsBack(s.w, inp, 8);
    U16ReadsBack(s.h, inp, 10);
  }

  lemma {:induction false} RreSubStep(s: Rfb, u: RreSub, rest: seq<byte>)
    requires s.encoding == Some(ENCODING_RRE) && s.subrects > 0 && RreSubOk(u) && s.io.inp == RreSubBytes(u) + rest
    ensures var fb := Fill(s.io.fb, s.rect.x + u.x, s.rect.y + u.y, u.w, u.h, u.pixel.color);
            RectUnit(s) == (s.(subrects := s.subrects - 1, io := IO(rest, fb)), if s.subrects == 1 then Finished else More)
  {
    RreSubReadsBack(u, s.io.inp, rest);
    hide Fill, U16, ColorAt, RreSubBytes;
  }

  lemma {:induction false} RreHeadStep(s: Rfb, bg: WirePixel, n: nat, rest: seq<byte>)
    requires s.encoding == Some(ENCODING_RRE) && s.subrects == 0 && n < 0x8000_0000
    requires s.io.inp == U32Bytes(n) + PixelBytes(bg) + rest
    ensures var fb := Fill(s.io.fb, s.rect.x, s.rect.y, s.rect.w, s.rect.h, bg.color);
            RectUnit(s) == (s.(subrects := n, io := IO(rest, fb)), if n > 0 then More else Finished)
  {
    var inp := s.io.inp;
    assert inp[0..4] == U32Bytes(n) && inp[4..8] == PixelBytes(bg) && inp[8..] == rest;
    U32ReadsBack(n, inp, 0);
    assert inp[4] == inp[4..8][0] && inp[5] == inp[4..8][1] && inp[6] == inp[4..8][2];
    hide Fill, S32, U32Bytes;
  }

  lemma {:induction false} RreSubsRun(s: Rfb, subs: seq<RreSub>, rest: seq<byte>)
    requires Inside(s, ENCODING_RRE) && s.subrects == |subs| && forall u <- subs :: RreSubOk(u)
    requires subs != [] && s.io.inp == RreSubsBytes(subs) + rest
    ensures Run(s) == Run(FinishRect(s.(subrects := 0, io := IO(rest, DrawSubs(s.io.fb, s.rect, subs)))))
    decreases |subs|
  {
    hide Run, Fill, RectUnit, RreSubBytes, FinishRect;
    var u := subs[0];
    assert u in subs && RreSubOk(u) && forall v <- subs[1..] :: v in subs;
    var rest1 := RreSubsBytes(subs[1..]) + rest;
    assert s.io.inp == RreSubBytes(u) + rest1;
    RreSubStep(s, u, rest1);
    UnitLeadsTo(s);
    var fb := Fill(s.io.fb, s.rect.x + u.x, s.rect.y + u.y, u.w, u.h, u.pixel.color);
    var t := s.(subrects := |subs| - 1, io := IO(rest1, fb));
    if |subs| == 1 {
      assert rest1 == rest;
      assert DrawSubs(fb, s.rect, []) == fb;
    } else {
      RreSubsRun(t, subs[1..], rest);
    }
  }

  lemma {:induction false} RreRuns(s: Rfb, bg: WirePixel, subs: seq<RreSub>, rest: seq<byte>)
    requires Inside(s, ENCODING_RRE) && s.subrects == 0 && |subs| < 0x8000_0000 && forall u <- subs :: RreSubOk(u)
    requires s.io.inp == U32Bytes(|subs|) + PixelBytes(bg) + RreSubsBytes(subs) + rest
    ensures var r := s.rect;
            Run(s) == Run(FinishRect(s.(io := IO(rest, DrawSubs(Fill(s.io.fb, r.x, r.y, r.w, r.h, bg.color), r, subs)))))
  {
    hide Run, Fill, RectUnit, U32Bytes, FinishRect, RreSubsBytes, DrawSubs, PixelBytes;
    var r := s.rect;
    var rest1 := RreSubsBytes(subs) + rest;
    assert s.io.inp == U32Bytes(|subs|) + PixelBytes(bg) + rest1;
    RreHeadStep(s, bg, |subs|, rest1);
    UnitLeadsTo(s);
    var fb := Fill(s.io.fb, r.x, r.y, r.w, r.h, bg.color);
    if subs == [] {
      NoSubs(fb, r, rest);
    } else {
      RreSubsRun(s.(subrects := |subs|, io := IO(rest1, fb)), subs, rest);
    }
  }

  lemma {:induction false} NoSubs(fb: Image, r: Rect, rest: seq<byte>)
    ensures RreSubsBytes([]) + rest == rest && DrawSubs(fb, r, []) == fb
  {
  }

  // ----- hextile rectangles -----

  /** The decoder between two tiles of a rectangle. */
  predicate AtTile(h: Hex, r: Rect, index: nat, carry: Carry) {
    && h.tilesX == Ceil16(r.w) && h.totalTiles == Ceil16(r.w) * Ceil16(r.h)
    && index < h.totalTiles && h.tiles == h.totalTiles - index && Carries(h, carry)
  }

  lemma {:induction false} TileStep(s: Rfb, index: nat, c: TileContent, carry: Carry, rest: seq<byte>) returns (h: Hex)
    requires s.encoding == Some(ENCODING_HEXTILE) && AtTile(s.hex, s.rect, index, carry)
    requires TileAt(s.rect, Ceil16(s.rect.w), index).w <= 16 && TileAt(s.rect, Ceil16(s.rect.w), index).h <= 16
    requires TileOk(c, TileAt(s.rect, Ceil16(s.rect.w), index), carry)
    requires s.io.inp == TileBytes(c, TileAt(s.rect, Ceil16(s.rect.w), index), carry) + rest
    ensures var fb := TileMeaning(s.io.fb, TileAt(s.rect, Ceil16(s.rect.w), index), c, carry);
            RectUnit(s) == (s.(hex := h, io := IO(rest, fb)), if s.hex.tiles == 1 then Finished else More)
    ensures h.tilesX == s.hex.tilesX && h.totalTiles == s.hex.totalTiles && h.tiles == s.hex.tiles - 1
    ensures Carries(h, CarryAfter(c, carry))
  {
    var t := TileAt(s.rect, Ceil16(s.rect.w), index);
    TileDecodes(s.hex, s.io.fb, t, c, carry, rest);
    hide DrawTile, Expected, TileAt, TileOk, TileMeaning, TileBytes;
    assert CurrentTile(s.hex, s.rect) == t;
    var inp := s.io.inp;
    DrawTileKeepsCount(s.hex, inp, s.io.fb, t);
    h := NextTile(DrawTile(s.hex, inp, s.io.fb, t).value.0, inp[0]);
    assert inp[|TileBytes(c, t, carry)|..] == rest;
  }

  lemma {:induction false} TilesRun(s: Rfb, tiles: seq<TileContent>, index: nat, carry: Carry, rest: seq<byte>) returns (h: Hex)
    requires Inside(s, ENCODING_HEXTILE) && tiles != [] && AtTile(s.hex, s.rect, index, carry)
    requires index + |tiles| == s.hex.totalTiles && TilesOk(s.rect, tiles, index, carry)
    requires s.io.inp == TilesBytes(s.rect, tiles, index, carry) + rest
    ensures var (fb, carry1) := DrawTiles(s.io.fb, carry, s.rect, tiles, index);
            Carries(h, carry1) && h.tiles == 0 && Run(s) == Run(FinishRect(s.(hex := h, io := IO(rest, fb))))
    decreases |tiles|
  {
    hide Run, RectUnit, FinishRect, TileMeaning, TileBytes, TileOk, CarryAfter, Carries, TileAt;
    TileSides(s.rect, Ceil16(s.rect.w), index);
    var t := TileAt(s.rect, Ceil16(s.rect.w), index);
    var rest1 := TilesBytes(s.rect, tiles[1..], index + 1, CarryAfter(tiles[0], carry)) + rest;
    assert s.io.inp == TileBytes(tiles[0], t, carry) + rest1;
    h := TileStep(s, index, tiles[0], carry, rest1);
    UnitLeadsTo(s);
    var fb := TileMeaning(s.io.fb, t, tiles[0], carry);
    if |tiles| == 1 {
      assert rest1 == rest;
      NoTiles(fb, CarryAfter(tiles[0], carry), s.rect, index + 1, tiles);
    } else {
      h := TilesRun(s.(hex := h, io := IO(rest1, fb)), tiles[1..], index + 1, CarryAfter(tiles[0], carry), rest);
    }
  }

  lemma {:induction false} NoTiles(fb: Image, carry: Carry, r: Rect, index: nat, tiles: seq<TileContent>)
    requires |tiles| == 1
    ensures DrawTiles(fb, carry, r, tiles[1..], index) == (fb, carry)
  {
  }

  lemma {:induction false} HextileRuns(s: Rfb, tiles: seq<TileContent>, carry: Carry, rest: seq<byte>) returns (h: Hex)
    requires Inside(s, ENCODING_HEXTILE) && s.hex.tiles == 0 && Carries(s.hex, carry)
    requires |tiles| == Ceil16(s.rect.w) * Ceil16(s.rect.h) && TilesOk(s.rect, tiles, 0, carry)
    requires s.io.inp == TilesBytes(s.rect, tiles, 0, carry) + rest
    ensures var (fb, carry1) := DrawTiles(s.io.fb, carry, s.rect, tiles, 0);
            Carries(h, carry1) && h.tiles == 0 && Run(s) == Run(FinishRect(s.(hex := h, io := IO(rest, fb))))
  {
    hide Run, FinishRect, TileMeaning, TileBytes, TileOk, CarryAfter, TileAt, Bit;
    var cols, rows := Ceil16(s.rect.w), Ceil16(s.rect.h);
    h := s.hex.(tilesX := cols, totalTiles := cols * rows, tiles := cols * rows);
    assert RectUnit(s) == (s.(hex := h), if cols * rows == 0 then Finished else More);
    UnitLeadsTo(s);
    if tiles == [] {
      assert s.io.inp == rest;
      assert s.(hex := h, io := IO(rest, s.io.fb)) == s.(hex := h);
    } else {
      h := TilesRun(s.(hex := h), tiles, 0, carry, rest);
    }
  }

  // ----- whole updates -----

  lemma {:induction false} RectRuns(s: Rfb, u: RectUpdate, carry: Carry, rest: seq<byte>) returns (t: Rfb)
    requires Calm(s, carry) && s.rects > 0 && RectOk(u, carry) && s.io.inp == RectBytes(u, carry) + rest
    requires Suits(u.content, s.depth8)
    ensures var (fb, carry1) := DrawRect(s.io.fb, carry, u);
            AfterRect(s, t, IO(rest, fb), carry1) && Run(s) == Run(t)
  {
    hide Run, TilesOk, PixelsBytes, ShadeBytes, ShadeColors, RreSubsBytes, TilesBytes, U16Bytes, U32Bytes, Put, Draw, Fill, DrawSubs, DrawTiles, Bit, HeaderBytes, Resized, S32;
    var body := BodyBytes(u, carry);
    assert s.io.inp == HeaderBytes(u.rect, EncodingBytes(u.content)) + (body + rest);
    HeaderRuns(s, u.rect, EncodingBytes(u.content), body + rest);
    EncodingReadsBack(u.content);
    var s1 := s.(io := IO(body + rest, s.io.fb), rect := u.rect, encoding := Some(EncodingOf(u.content)));
    var (fb, carry1) := DrawRect(s.io.fb, carry, u);
    match u.content
    case RawContent(pixels) =>
      RawRuns(s1, pixels, rest);
      t := FinishRect(s1.(io := IO(rest, fb)));
    case Raw8Content(shades) =>
      Raw8Runs(s1, shades, rest);
      t := FinishRect(s1.(io := IO(rest, fb)));
    case CopyContent(srcX, srcY) =>
      CopyRuns(s1, srcX, srcY, rest);
      t := FinishRect(s1.(io := IO(rest, fb)));
    case RreContent(bg, subs) =>
      RreRuns(s1, bg, subs, rest);
      t := FinishRect(s1.(io := IO(rest, fb)));
    case HextileContent(tiles) =>
      var h := HextileRuns(s1, tiles, carry, rest);
      t := FinishRect(s1.(hex := h, io := IO(rest, fb)));
    case SizeContent =>
      assert body + rest == rest;
      UnitLeadsTo(s1);
      t := FinishRect(s1.(io := IO(rest, fb)));
  }

  /** The machine after the rectangles of an update, between updates. */
  predicate Idle(s: Rfb, carry: Carry) {
    Calm(s, carry) && s.rects == 0
  }

  lemma {:induction false} RectsRun(s: Rfb, us: seq<RectUpdate>, carry: Carry, rest: seq<byte>) returns (t: Rfb)
    requires Calm(s, carry) && |us| <= s.rects && RectsOk(us, s.io.fb, carry)
    requires s.io.inp == RectsBytes(us, s.io.fb, carry) + rest && AllSuit(us, s.depth8)
    ensures var (fb, carry1) := DrawRects(s.io.fb, carry, us);
            && t.depth8 == s.depth8 && Calm(t, carry1) && t.rects == s.rects - |us| && t.io == IO(rest, fb)
            && t.updates == s.updates + (if 0 < |us| == s.rects then 1 else 0) && Run(s) == Run(t)
    decreases |us|
  {
    hide Run, Calm, RectOk, RectBytes, DrawRect, Suits;
    if us == [] {
      NoRects(s.io.fb, carry, rest);
      t := s;
    } else {
      assert us[0] in us && forall u <- us[1..] :: u in us;
      var (fb1, carry1) := DrawRect(s.io.fb, carry, us[0]);
      var rest1 := RectsBytes(us[1..], fb1, carry1) + rest;
      assert s.io.inp == RectBytes(us[0], carry) + rest1;
      var s1 := RectRuns(s, us[0], carry, rest1);
      t := RectsRun(s1, us[1..], carry1, rest);
    }
  }

  lemma {:induction false} NoRects(fb: Image, carry: Carry, rest: seq<byte>)
    ensures RectsOk([], fb, carry) && RectsBytes([], fb, carry) + rest == rest
  {
  }

  /** However many rectangles are still announced, the closing pseudo-rectangle ends the update. */
  lemma {:induction false} LastRectRuns(s: Rfb, r: Rect, carry: Carry, rest: seq<byte>) returns (t: Rfb)
    requires Calm(s, carry) && s.rects > 0 && SmallRect(r) && s.io.inp == HeaderBytes(r, LAST_RECT) + rest
    ensures t.depth8 == s.depth8 && Idle(t, carry) && t.io == IO(rest, s.io.fb) && t.updates == s.updates + 1
    ensures Run(s) == Run(t)
  {
    hide Run, HeaderBytes, Bit;
    HeaderRuns(s, r, LAST_RECT, rest);
    var s1 := s.(io := IO(rest, s.io.fb), rect := r, encoding := Some(S32(LAST_RECT, 0)));
    assert S32(LAST_RECT, 0) == ENCODING_LAST_RECT;
    UnitLeadsTo(s1);
    t := FinishRect(s1.(rects := 1));
  }

  lemma {:induction false} FourFirst(inp: seq<byte>, pad: byte, n: nat, body: seq<byte>)
    requires Small(n) && inp == [0, pad] + U16Bytes(n) + body
    ensures |inp| >= 4 && inp[0] == 0 && U16(inp, 2) == n && inp[4..] == body
  {
    assert inp[2..4] == U16Bytes(n);
    U16ReadsBack(n, inp, 2);
  }

  /** The machine once it has read how many rectangles are announced. */
  function Headed(s: Rfb, n: nat, body: seq<byte>): Rfb {
    s.(io := IO(body, s.io.fb), rects := n, updates := if n == 0 then s.updates + 1 else s.updates)
  }

  lemma {:induction false} HeadRuns(s: Rfb, pad: byte, n: nat, carry: Carry, body: seq<byte>)
    requires Idle(s, carry) && Small(n) && s.io.inp == [0, pad] + U16Bytes(n) + body
    ensures Run(s) == Run(Headed(s, n, body))
  {
    FourFirst(s.io.inp, pad, n, body);
    hide Run, U16, U16Bytes, Carries;
    RunStep(s);
  }

  lemma {:induction false} UpdateRuns(s: Rfb, us: seq<RectUpdate>, pad: byte, last: Option<LastRect>, carry: Carry, rest: seq<byte>)
      returns (t: Rfb)
    requires Idle(s, carry) && CountOk(us, last) && RectsOk(us, s.io.fb, carry)
    requires s.io.inp == UpdateBytes(us, pad, last, s.io.fb, carry) + rest && AllSuit(us, s.depth8)
    ensures var (fb, carry1) := DrawRects(s.io.fb, carry, us);
            t.depth8 == s.depth8 && Idle(t, carry1) && t.io == IO(rest, fb) && t.updates == s.updates + 1 && Run(s) == Run(t)
  {
    hide Run, U16Bytes, RectsBytes, RectsOk, DrawRects, AllSuit, HeaderBytes, Carries;
    var n := Announced(us, last);
    var body := RectsBytes(us, s.io.fb, carry) + (LastBytes(last) + rest);
    assert s.io.inp == [0, pad] + U16Bytes(n) + body;
    HeadRuns(s, pad, n, carry, body);
    t := RectsRun(Headed(s, n, body), us, carry, LastBytes(last) + rest);
    if last.Some? {
      t := LastRectRuns(t, last.value.rect, DrawRects(s.io.fb, carry, us).1, rest);
    } else {
      assert LastBytes(last) + rest == rest;
    }
  }

  lemma {:induction false} BellRuns(s: Rfb, carry: Carry, rest: seq<byte>) returns (t: Rfb)
    requires Idle(s, carry) && s.io.inp == [2] + rest
    ensures t == s.(io := IO(rest, s.io.fb)) && Run(s) == Run(t)
  {
    hide Run, Bit;
    t := s.(io := IO(rest, s.io.fb));
    assert s.io.inp[1..] == rest;
    RunStep(s);
  }

  // ----- one message after another -----

  function MessageRects(m: Message): seq<RectUpdate> {
    if m.Update? then m.rects else []
  }

  predicate MessageOk(m: Message, fb: Image, carry: Carry) {
    m.Update? ==> CountOk(m.rects, m.last) && RectsOk(m.rects, fb, carry)
  }

  function MessageBytes(m: Message, fb: Image, carry: Carry): seq<byte>
    requires MessageOk(m, fb, carry)
  {
    if m.Update? then UpdateBytes(m.rects, m.pad, m.last, fb, carry) else [2]
  }

  predicate UpdatesSuit(us: seq<Message>, depth8: bool) {
    forall u <- us :: AllSuit(MessageRects(u), depth8)
  }

  predicate UpdatesOk(us: seq<Message>, fb: Image, carry: Carry)
    decreases |us|
  {
    us == [] ||
    (MessageOk(us[0], fb, carry)
     && var (fb1, carry1) := DrawRects(fb, carry, MessageRects(us[0])); UpdatesOk(us[1..], fb1, carry1))
  }

  /** What a stream of messages means. */
  function DrawUpdates(fb: Image, carry: Carry, us: seq<Message>): (Image, Carry)
    decreases |us|
  {
    if us == [] then (fb, carry)
    else
      var (fb1, carry1) := DrawRects(fb, carry, MessageRects(us[0]));
      DrawUpdates(fb1, carry1, us[1..])
  }

  function CountUpdates(us: seq<Message>): nat
    decreases |us|
  {
    if us == [] then 0 else (if us[0].Update? then 1 else 0) + CountUpdates(us[1..])
  }

  function UpdatesBytes(us: seq<Message>, fb: Image, carry: Carry): seq<byte>
    requires UpdatesOk(us, fb, carry)
    decreases |us|
  {
    if us == [] then []
    else
      var (fb1, carry1) := DrawRects(fb, carry, MessageRects(us[0]));
      MessageBytes(us[0], fb, carry) + UpdatesBytes(us[1..], fb1, carry1)
  }

  lemma {:induction false} MessageRuns(s: Rfb, m: Message, carry: Carry, rest: seq<byte>) returns (t: Rfb)
    requires Idle(s, carry) && MessageOk(m, s.io.fb, carry) && AllSuit(MessageRects(m), s.depth8)
    requires s.io.inp == MessageBytes(m, s.io.fb, carry) + rest
    ensures var (fb, carry1) := DrawRects(s.io.fb, carry, MessageRects(m));
            && t.depth8 == s.depth8 && Idle(t, carry1) && t.io == IO(rest, fb)
            && t.updates == s.updates + (if m.Update? then 1 else 0) && Run(s) == Run(t)
  {
    hide Run, RectsOk, UpdateBytes, AllSuit, Carries, DrawRect;
    if m.Update? {
      t := UpdateRuns(s, m.rects, m.pad, m.last, carry, rest);
    } else {
      t := BellRuns(s, carry, rest);
    }
  }

  lemma {:induction false} UpdatesRun(s: Rfb, us: seq<Message>, carry: Carry) returns (t: Rfb)
    requires Idle(s, carry) && UpdatesOk(us, s.io.fb, carry) && s.io.inp == UpdatesBytes(us, s.io.fb, carry)
    requires UpdatesSuit(us, s.depth8)
    ensures var (fb, carry1) := DrawUpdates(s.io.fb, carry, us);
            Idle(t, carry1) && t.io == IO([], fb) && t.updates == s.updates + CountUpdates(us) && Run(s) == Run(t)
    decreases |us|
  {
    hide Run, Idle, MessageOk, MessageBytes, MessageRects, DrawRects, AllSuit;
    if us == [] {
      t := s;
    } else {
      assert us[0] in us && forall u <- us[1..] :: u in us;
      var (fb1, carry1) := DrawRects(s.io.fb, carry, MessageRects(us[0]));
      var s1 := MessageRuns(s, us[0], carry, UpdatesBytes(us[1..], fb1, carry1));
      t := UpdatesRun(s1, us[1..], carry1);
    }
  }

  /** The client draws what the server meant: for every well-formed stream of bells and framebuffer updates
      with Raw, CopyRect, RRE and Hextile rectangles, or with raw pixels of eight bits, and with new desktop
      sizes, closed by their announced count or early by a pseudo-rectangle, and for every way the network
      cuts its bytes up, the resumed client ends with the framebuffer that drawing the rectangles in order
      gives, every update counted once, no byte unread, and nothing under way. */
  lemma {:induction false} ClientDrawsTheUpdates(fb: Image, depth8: bool, us: seq<Message>, cut: seq<seq<byte>>)
    requires UpdatesOk(us, fb, Carry(None, None, false)) && UpdatesSuit(us, depth8)
    requires Concat(cut) == UpdatesBytes(us, fb, Carry(None, None, false))
    ensures var (fb1, carry1) := DrawUpdates(fb, Carry(None, None, false), us);
            var t := RunArrivals(Start(fb, depth8), cut);
            t.io == IO([], fb1) && t.updates == CountUpdates(us) && Idle(t, carry1)
  {
    hide Run, UpdatesOk, UpdatesSuit, UpdatesBytes, DrawUpdates, CountUpdates, Idle, Start;
    var carry := Carry(None, None, false);
    var s := Start(fb, depth8);
    StartIsIdle(fb, depth8);
    IdleWaits(s, carry);
    UpdatesAreChunkIndependent(s, cut);
    var all := Arrive(s, Concat(cut));
    assert [] + Concat(cut) == Concat(cut);
    IdleArrive(s, carry, Concat(cut));
    var t := UpdatesRun(all, us, carry);
    IdleWaits(t, DrawUpdates(fb, carry, us).1);
  }

  lemma {:induction false} StartIsIdle(fb: Image, depth8: bool)
    ensures Idle(Start(fb, depth8), Carry(None, None, false))
    ensures Start(fb, depth8).io == IO([], fb) && Start(fb, depth8).updates == 0 && Start(fb, depth8).depth8 == depth8
  {
    assert Pow2(0) == 1;
  }

  lemma {:induction false} IdleArrive(s: Rfb, carry: Carry, more: seq<byte>)
    requires Idle(s, carry)
    ensures Idle(Arrive(s, more), carry) && Arrive(s, more).io == IO(s.io.inp + more, s.io.fb)
    ensures Arrive(s, more).depth8 == s.depth8
  {
    hide Bit;
  }

  lemma {:induction false} IdleWaits(s: Rfb, carry: Carry)
    requires Idle(s, carry) && s.io.inp == []
    ensures Run(s) == s
  {
    hide Run, Bit;
    RunWaiting(s);
  }
}
