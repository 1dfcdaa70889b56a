/** Whole ZRLE tiles and rectangles: the decoder's meaning, and the encoder it inverts. */
module ZrleTiles {
  import opened Arith
  import opened Bytes
  import opened Canvas
  import opened DecoderIO
  import opened PackedPixels
  import opened Zrle

  function PixelAt(buf: Scratch, s: seq<byte>, tw: nat, th: nat, bits: Bits, k: nat): Pixel
    requires |s| >= th * RowBytes(tw, bits) && k < tw * th
  {
    GridCell(tw, th, k);
    assert Pow2(1) == 2 && Pow2(2) == 4 && Pow2(4) == 16;
    buf[IndexAt(s, tw, th, bits, k % tw, k / tw)]
  }

  function Unpack(buf: Scratch, s: seq<byte>, tw: nat, th: nat, bits: Bits): (r: seq<Pixel>)
    requires |s| >= th * RowBytes(tw, bits)
    ensures |r| == tw * th
  {
    seq(tw * th, k requires 0 <= k < tw * th => PixelAt(buf, s, tw, th, bits, k))
  }

  predicate TileSize(tw: nat, th: nat) {
    1 <= tw <= TILE && 1 <= th <= TILE && tw * th <= TILE_PIXELS
  }

  /** One tile, from its subencoding byte on. */
  function DecodeTile(buf: Scratch, s: seq<byte>, tw: nat, th: nat): Result<Tile>
    requires TileSize(tw, th)
  {
    if s == [] then Threw else
      var sub, t := s[0], s[1..];
      if sub == 0 then
        match ReadPixels(buf, t, tw * th)
        case Threw => Threw
        case Done(b, rest) => Done(Tile(b[..tw * th], b), rest)
      else if sub == 1 then
        match ReadPixels(buf, t, 1)
        case Threw => Threw
        case Done(b, rest) => Done(Tile(Repeat(b[0], tw * th), b), rest)
      else if sub <= 16 then
        match ReadPixels(buf, t, sub)
        case Threw => Threw
        case Done(b, u) =>
          var n := th * RowBytes(tw, BitsPerPixel(sub));
          if |u| < n then Threw else Done(Tile(Unpack(b, u, tw, th, BitsPerPixel(sub)), b), u[n..])
      else if sub == 128 then RleLoop(buf, t, [], tw * th)
      else if sub >= 130 then
        match ReadPixels(buf, t, sub - 128)
        case Threw => Threw
        case Done(b, u) => PaletteLoop(b, sub - 128, u, [], tw * th)
      else Threw
  }

  /** Subencodings that stand for nothing, and a tile of which not even the first byte is there. */
  lemma {:induction false} IllegalSubencodings(buf: Scratch, s: seq<byte>, tw: nat, th: nat)
    requires TileSize(tw, th) && (s == [] || 17 <= s[0] <= 127 || s[0] == 129)
    ensures DecodeTile(buf, s, tw, th) == Threw
  {
  }

  // The encoder

  /** The width of a packed field by the number of colours (RFC 6143, section 7.7.6). */
  function FieldWidth(colors: nat): Bits {
    if colors == 2 then 1 else if colors == 3 || colors == 4 then 2 else 4
  }

  lemma {:induction false} WidthsAgree(colors: nat)
    requires 2 <= colors <= 16
    ensures BitsPerPixel(colors) == FieldWidth(colors)
  {
    var bits := BitsPerPixel(colors);
    assert Pow2(1) == 2 && Pow2(2) == 4 && bits / 2 <= 2;
    assert bits == 4 ==> bits / 2 == 2;
  }

  datatype Enc =
    | Raw(colors: seq<Color>)
    | Solid(color: Color)
    | Packed(palette: seq<Color>, rows: seq<seq<nat>>)
    | Rle(spans: seq<Span>)
    | PaletteRle(palette: seq<Color>, tokens: seq<Token>)

  function Paint(cs: seq<Color>): (r: seq<Pixel>)
    ensures |r| == |cs|
  {
    seq(|cs|, i requires 0 <= i < |cs| => Opaque(cs[i]))
  }

  function PlainAll(cs: seq<Color>): (s: seq<byte>)
    ensures |s| == 3 * |cs|
  {
    if cs == [] then [] else PlainAll(cs[..|cs| - 1]) + Plain(cs[|cs| - 1])
  }

  ghost predicate WellFormed(e: Enc, tw: nat, th: nat) {
    match e
    case Raw(colors) => |colors| == tw * th
    case Solid(_) => true
    case Packed(palette, rows) =>
      && 2 <= |palette| <= 16 && |rows| == th && RowsFit(rows, tw, FieldWidth(|palette|))
      && forall y, x :: 0 <= y < |rows| && 0 <= x < |rows[y]| ==> rows[y][x] < |palette|
    case Rle(spans) => |Spread(spans)| == tw * th
    case PaletteRle(palette, tokens) =>
      2 <= |palette| <= 127 && TokensOk(tokens, |palette|) && |Look(Paint(palette), tokens)| == tw * th
  }

  ghost function Encode(e: Enc, tw: nat, th: nat): seq<byte>
    requires WellFormed(e, tw, th)
  {
    match e
    case Raw(colors) => [0] + PlainAll(colors)
    case Solid(color) => [1] + Plain(color)
    case Packed(palette, rows) => [|palette|] + PlainAll(palette) + PackRows(rows, FieldWidth(|palette|))
    case Rle(spans) => [128] + EncodeSpans(spans)
    case PaletteRle(palette, tokens) => [128 + |palette|] + PlainAll(palette) + EncodeTokens(tokens)
  }

  ghost function Pixels(e: Enc, tw: nat, th: nat): seq<Pixel>
    requires WellFormed(e, tw, th)
  {
    match e
    case Raw(colors) => Paint(colors)
    case Solid(color) => Repeat(Opaque(color), tw * th)
    case Packed(palette, rows) =>
      seq(tw * th, k requires 0 <= k < tw * th => GridCell(tw, th, k); Opaque(palette[rows[k / tw][k % tw]]))
    case Rle(spans) => Spread(spans)
    case PaletteRle(palette, tokens) => Look(Paint(palette), tokens)
  }

  lemma {:induction false} PlainAt(cs: seq<Color>, rest: seq<byte>, i: nat)
    requires i < |cs|
    ensures ColorAt(PlainAll(cs) + rest, 3 * i) == cs[i]
    decreases |cs|
  {
    var n := |cs| - 1;
    assert PlainAll(cs) + rest == PlainAll(cs[..n]) + (Plain(cs[n]) + rest);
    if i < n {
      PlainAt(cs[..n], Plain(cs[n]) + rest, i);
    }
  }

  lemma {:induction false} ReadPlainAll(buf: Scratch, cs: seq<Color>, rest: seq<byte>)
    requires |cs| <= TILE_PIXELS
    ensures ReadPixels(buf, PlainAll(cs) + rest, |cs|) == Done(Over(Paint(cs), buf), rest)
  {
    var s := PlainAll(cs) + rest;
    forall i | 0 <= i < |cs|
      ensures Colors(s, |cs|)[i] == Paint(cs)[i]
    {
      PlainAt(cs, rest, i);
    }
    assert Colors(s, |cs|) == Paint(cs);
    assert s[3 * |cs|..] == rest;
  }

  lemma {:induction false} PackedPixel(buf: Scratch, palette: seq<Color>, rows: seq<seq<nat>>, rest: seq<byte>, tw: nat, th: nat, k: nat)
    requires WellFormed(Packed(palette, rows), tw, th) && Paint(palette) <= buf && k < tw * th
    ensures var bits := FieldWidth(|palette|); var s := PackRows(rows, bits) + rest;
            && |PackRows(rows, bits)| == th * RowBytes(tw, bits)
            && PixelAt(buf, s, tw, th, bits, k) == Pixels(Packed(palette, rows), tw, th)[k]
  {
    hide PackRows, RowBytes, IndexAt, Paint;
    GridCell(tw, th, k);
    var bits := FieldWidth(|palette|);
    RowsSize(rows, tw, bits);
    RowsUnpack(rows, tw, bits, rest, k % tw, k / tw);
    PaletteColor(buf, palette, rows[k / tw][k % tw]);
  }

  lemma PaletteColor(buf: Scratch, palette: seq<Color>, index: nat)
    requires Paint(palette) <= buf && index < |palette|
    ensures buf[index] == Opaque(palette[index])
  {
    assert Paint(palette)[index] == buf[index];
  }

  lemma {:induction false} PackedDecodes(buf: Scratch, palette: seq<Color>, rows: seq<seq<nat>>, rest: seq<byte>, tw: nat, th: nat)
    requires WellFormed(Packed(palette, rows), tw, th) && Paint(palette) <= buf
    ensures var bits := FieldWidth(|palette|); var s := PackRows(rows, bits) + rest;
            && |PackRows(rows, bits)| == th * RowBytes(tw, bits)
            && Unpack(buf, s, tw, th, bits) == Pixels(Packed(palette, rows), tw, th)
  {
    var bits := FieldWidth(|palette|);
    RowsSize(rows, tw, bits);
    var got, want := Unpack(buf, PackRows(rows, bits) + rest, tw, th, bits), Pixels(Packed(palette, rows), tw, th);
    forall k | 0 <= k < tw * th
      ensures got[k] == want[k]
    {
      PackedPixel(buf, palette, rows, rest, tw, th, k);
    }
    assert |want| == tw * th;
    hide WellFormed, Pixels, PixelAt;
  }

  ghost predicate DecodesTo(buf: Scratch, e: Enc, tw: nat, th: nat, rest: seq<byte>)
    requires TileSize(tw, th) && WellFormed(e, tw, th)
  {
    var r := DecodeTile(buf, Encode(e, tw, th) + rest, tw, th);
    r.Done? && r.value.pixels == Pixels(e, tw, th) && r.rest == rest
  }

  lemma RawRoundTrip(buf: Scratch, colors: seq<Color>, tw: nat, th: nat, rest: seq<byte>)
    requires TileSize(tw, th) && WellFormed(Raw(colors), tw, th)
    ensures DecodesTo(buf, Raw(colors), tw, th, rest)
  {
    var s := Encode(Raw(colors), tw, th) + rest;
    assert s[1..] == PlainAll(colors) + rest;
    ReadPlainAll(buf, colors, rest);
    hide PlainAll, Paint, ReadPixels;
    assert Over(Paint(colors), buf)[..tw * th] == Paint(colors);
  }

  lemma SolidRoundTrip(buf: Scratch, color: Color, tw: nat, th: nat, rest: seq<byte>)
    requires TileSize(tw, th)
    ensures DecodesTo(buf, Solid(color), tw, th, rest)
  {
    var s := Encode(Solid(color), tw, th) + rest;
    assert s[1..] == Plain(color) + rest;
    ReadPlain(buf, color, rest);
    hide Plain, ReadPixels;
  }

  lemma PackedRoundTrip(buf: Scratch, palette: seq<Color>, rows: seq<seq<nat>>, tw: nat, th: nat, rest: seq<byte>)
    requires TileSize(tw, th) && WellFormed(Packed(palette, rows), tw, th)
    ensures DecodesTo(buf, Packed(palette, rows), tw, th, rest)
  {
    WidthsAgree(|palette|);
    var packed := PackRows(rows, FieldWidth(|palette|));
    var s := Encode(Packed(palette, rows), tw, th) + rest;
    assert s[1..] == PlainAll(palette) + (packed + rest);
    ReadPlainAll(buf, palette, packed + rest);
    PackedDecodes(Over(Paint(palette), buf), palette, rows, rest, tw, th);
    assert (packed + rest)[|packed|..] == rest;
    assert s[0] == |palette|;
    hide Pixels, Unpack, PackRows, RowBytes, PlainAll, Over, Paint, ReadPixels, RowsFit, BitsPerPixel, FieldWidth;
  }

  lemma RleRoundTrip(buf: Scratch, spans: seq<Span>, tw: nat, th: nat, rest: seq<byte>)
    requires TileSize(tw, th) && WellFormed(Rle(spans), tw, th)
    ensures DecodesTo(buf, Rle(spans), tw, th, rest)
  {
    var s := Encode(Rle(spans), tw, th) + rest;
    assert s[1..] == EncodeSpans(spans) + rest;
    SpansDecode(buf, spans, rest, [], tw * th);
    assert [] + Spread(spans) == Spread(spans);
    hide EncodeSpans, Spread, RleLoop;
  }

  lemma PaletteRleRoundTrip(buf: Scratch, palette: seq<Color>, tokens: seq<Token>, tw: nat, th: nat, rest: seq<byte>)
    requires TileSize(tw, th) && WellFormed(PaletteRle(palette, tokens), tw, th)
    ensures DecodesTo(buf, PaletteRle(palette, tokens), tw, th, rest)
  {
    hide EncodeTokens, Look, PaletteLoop, PlainAll, Paint, ReadPixels, TokensOk, DecodeTile;
    var colors, tail, n := Paint(palette), EncodeTokens(tokens) + rest, |palette|;
    var s := [128 + n] + (PlainAll(palette) + tail);
    assert Encode(PaletteRle(palette, tokens), tw, th) + rest == s;
    assert [] + Look(colors, tokens) == Look(colors, tokens);
    assert s[1..] == PlainAll(palette) + tail;
    hide Encode;
    ReadPlainAll(buf, palette, tail);
    PaletteRleStep(buf, s, n, tw, th);
    TokensDecode(Over(colors, buf), colors, tokens, rest, [], tw * th);
  }

  lemma PaletteRleStep(buf: Scratch, s: seq<byte>, n: nat, tw: nat, th: nat)
    requires TileSize(tw, th) && 2 <= n <= 127 && s != [] && s[0] == 128 + n && ReadPixels(buf, s[1..], n).Done?
    ensures var p := ReadPixels(buf, s[1..], n);
            DecodeTile(buf, s, tw, th) == PaletteLoop(p.value, n, p.rest, [], tw * th)
  {
    hide ReadPixels, PaletteLoop, RleLoop, Unpack;
  }

  /** Every well-formed tile decodes to its pixels, whatever follows and whatever the scratch buffer held. */
  lemma {:induction false} TileRoundTrip(buf: Scratch, e: Enc, tw: nat, th: nat, rest: seq<byte>)
    requires TileSize(tw, th) && WellFormed(e, tw, th)
    ensures DecodesTo(buf, e, tw, th, rest)
  {
    hide WellFormed, DecodesTo;
    match e
    case Raw(colors) => RawRoundTrip(buf, colors, tw, th, rest);
    case Solid(color) => SolidRoundTrip(buf, color, tw, th, rest);
    case Packed(palette, rows) => PackedRoundTrip(buf, palette, rows, tw, th, rest);
    case Rle(spans) => RleRoundTrip(buf, spans, tw, th, rest);
    case PaletteRle(palette, tokens) => PaletteRleRoundTrip(buf, palette, tokens, tw, th, rest);
  }

  // Rectangles

  function Tiles(n: nat): nat {
    (n + TILE - 1) / TILE
  }

  /** Math.min(64, room) for a tile that is visited. */
  function Side(n: nat, i: nat): nat
    requires i < Tiles(n)
  {
    if n - i * TILE < TILE then n - i * TILE else TILE
  }

  /** Tiles of 64 by 64 pixels cover every column, or row, exactly once; those at the far border are cut. */
  lemma {:induction false} TilesCover(n: nat, x: nat)
    requires x < n
    ensures x / 64 < Tiles(n) && 64 * (x / 64) <= x < 64 * (x / 64) + Side(n, x / 64)
    ensures forall i: nat :: i < Tiles(n) && 64 * i <= x < 64 * i + Side(n, i) ==> i == x / 64
    ensures forall i: nat :: i < Tiles(n) ==> 64 * i + Side(n, i) <= n
  {
  }

  lemma SideFits(w: nat, h: nat, col: nat, row: nat)
    requires col < Tiles(w) && row < Tiles(h)
    ensures TileSize(Side(w, col), Side(h, row))
  {
    MulMonotone(Side(w, col), 64, Side(h, row));
  }

  /** The decoder's state between tiles; ok turns false when a tile throws, and nothing happens afterwards. */
  datatype Progress = Progress(fb: Image, buf: Scratch, data: seq<byte>, ok: bool)

  function OneTile(p: Progress, r: Rect, col: nat, row: nat): Progress
    requires col < Tiles(r.w) && row < Tiles(r.h)
  {
    SideFits(r.w, r.h, col, row);
    var tw, th := Side(r.w, col), Side(r.h, row);
    match DecodeTile(p.buf, p.data, tw, th)
    case Threw => p.(ok := false)
    case Done(t, rest) =>
      Progress(Put(p.fb, r.x + col * TILE, r.y + row * TILE, tw, th, t.pixels), t.buf, rest, true)
  }

  /** The two nested loops from tile (col, row) on. */
  function TilesFrom(p: Progress, r: Rect, col: nat, row: nat): Progress
    decreases Tiles(r.h) - row, Tiles(r.w) - col
  {
    if row >= Tiles(r.h) || !p.ok then p
    else if col >= Tiles(r.w) then TilesFrom(p, r, 0, row + 1)
    else TilesFrom(OneTile(p, r, col, row), r, col + 1, row)
  }

  /** Every tile from (col, row) on decodes, with the scratch buffer and the bytes that those before it leave. */
  predicate AllDecode(p: Progress, r: Rect, col: nat, row: nat)
    decreases Tiles(r.h) - row, Tiles(r.w) - col
  {
    if row >= Tiles(r.h) then true
    else if col >= Tiles(r.w) then AllDecode(p, r, 0, row + 1)
    else
      !TileThrows(p, r, col, row) && AllDecode(OneTile(p, r, col, row), r, col + 1, row)
  }

  predicate TileThrows(p: Progress, r: Rect, col: nat, row: nat)
    requires col < Tiles(r.w) && row < Tiles(r.h)
  {
    SideFits(r.w, r.h, col, row);
    DecodeTile(p.buf, p.data, Side(r.w, col), Side(r.h, row)) == Threw
  }

  /** A rectangle comes through if and only if every tile of it decodes; the first one that throws ends it there, with the
      picture and the bytes as the tiles before it left them. */
  lemma {:induction false} ThrowEndsIt(p: Progress, r: Rect, col: nat, row: nat)
    requires p.ok
    ensures TilesFrom(p, r, col, row).ok <==> AllDecode(p, r, col, row)
    ensures row < Tiles(r.h) && col < Tiles(r.w) && TileThrows(p, r, col, row) ==> TilesFrom(p, r, col, row) == p.(ok := false)
    decreases Tiles(r.h) - row, Tiles(r.w) - col
  {
    hide DecodeTile, Put, Tiles, Side;
    if row < Tiles(r.h) {
      if col >= Tiles(r.w) {
        ThrowEndsIt(p, r, 0, row + 1);
      } else {
        SideFits(r.w, r.h, col, row);
        var q := OneTile(p, r, col, row);
        if q.ok {
          ThrowEndsIt(q, r, col + 1, row);
        } else {
          AfterThrow(q, r, col + 1, row);
        }
      }
    }
  }

  lemma {:induction false} AfterThrow(p: Progress, r: Rect, col: nat, row: nat)
    requires !p.ok
    ensures TilesFrom(p, r, col, row) == p
    decreases Tiles(r.h) - row, Tiles(r.w) - col
  {
    hide OneTile, Tiles;
  }

  ghost predicate AllWellFormed(es: seq<Enc>, r: Rect, col: nat, row: nat)
    decreases Tiles(r.h) - row, Tiles(r.w) - col
  {
    if row >= Tiles(r.h) then es == []
    else if col >= Tiles(r.w) then AllWellFormed(es, r, 0, row + 1)
    else es != [] && WellFormed(es[0], Side(r.w, col), Side(r.h, row)) && AllWellFormed(es[1..], r, col + 1, row)
  }

  ghost function EncodeAll(es: seq<Enc>, r: Rect, col: nat, row: nat): seq<byte>
    requires AllWellFormed(es, r, col, row)
    decreases Tiles(r.h) - row, Tiles(r.w) - col
  {
    if row >= Tiles(r.h) then []
    else if col >= Tiles(r.w) then EncodeAll(es, r, 0, row + 1)
    else Encode(es[0], Side(r.w, col), Side(r.h, row)) + EncodeAll(es[1..], r, col + 1, row)
  }

  /** The picture: every tile's pixels put in its place, in order. */
  ghost function DrawAll(fb: Image, es: seq<Enc>, r: Rect, col: nat, row: nat): Image
    requires AllWellFormed(es, r, col, row)
    decreases Tiles(r.h) - row, Tiles(r.w) - col
  {
    if row >= Tiles(r.h) then fb
    else if col >= Tiles(r.w) then DrawAll(fb, es, r, 0, row + 1)
    else
      var tw, th := Side(r.w, col), Side(r.h, row);
      DrawAll(Put(fb, r.x + col * 64, r.y + row * 64, tw, th, Pixels(es[0], tw, th)), es[1..], r, col + 1, row)
  }

  /** A rectangle of well-formed tiles is drawn as encoded and leaves the bytes after it. */
  lemma {:induction false} RectRoundTrip(p: Progress, es: seq<Enc>, r: Rect, col: nat, row: nat, rest: seq<byte>)
    requires AllWellFormed(es, r, col, row) && p.ok && p.data == EncodeAll(es, r, col, row) + rest
    ensures var q := TilesFrom(p, r, col, row);
            q.ok && q.data == rest && q.fb == DrawAll(p.fb, es, r, col, row)
    decreases Tiles(r.h) - row, Tiles(r.w) - col
  {
    hide DecodeTile, WellFormed, Encode, Pixels, Put;
    if row >= Tiles(r.h) {
      assert [] + rest == rest;
    } else if col >= Tiles(r.w) {
      RectRoundTrip(p, es, r, 0, row + 1, rest);
    } else {
      var tw, th := Side(r.w, col), Side(r.h, row);
      var more := EncodeAll(es[1..], r, col + 1, row) + rest;
      SideFits(r.w, r.h, col, row);
      assert p.data == Encode(es[0], tw, th) + more;
      TileRoundTrip(p.buf, es[0], tw, th, more);
      RectRoundTrip(OneTile(p, r, col, row), es[1..], r, col + 1, row, rest);
    }
  }
}
