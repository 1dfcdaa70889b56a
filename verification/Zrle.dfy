/**
  * ZRLE tiles: what the bytes that come out of the inflater mean. The subencodings
  * are those of section 7.7.6 of RFC 6143.
  */
module Zrle {
  import opened Bytes
  import opened Canvas
  import opened DecoderIO

  const TILE := 64
  const TILE_PIXELS := 4096

  /** The outcome of reading: a value and the bytes after it, or an exception. */
  datatype Result<T> = Done(value: T, rest: seq<byte>) | Threw

  /** The scratch buffer palettes and pixels are read into; what an earlier read left behind it stays. */
  type Scratch = b: seq<Pixel> | |b| == TILE_PIXELS witness seq(TILE_PIXELS, _ => Transparent)

  function Colors(s: seq<byte>, n: nat): (r: seq<Pixel>)
    requires 3 * n <= |s|
    ensures |r| == n
  {
    seq(n, i requires 0 <= i < n => Opaque(ColorAt(s, 3 * i)))
  }

  function Over(new_: seq<Pixel>, buf: Scratch): Scratch
    requires |new_| <= TILE_PIXELS
  {
    new_ + buf[|new_|..]
  }

  /** _readPixels: n colours of three bytes into the front of the scratch buffer. */
  function ReadPixels(buf: Scratch, s: seq<byte>, n: nat): Result<Scratch>
    requires n <= TILE_PIXELS
  {
    if |s| < 3 * n then Threw else Done(Over(Colors(s, n), buf), s[3 * n..])
  }

  // Run lengths

  function ReadLength(s: seq<byte>): Result<nat>
    decreases |s|
  {
    if s == [] then Threw
    else if s[0] != 255 then Done(s[0] + 1, s[1..])
    else match ReadLength(s[1..])
      case Threw => Threw
      case Done(n, rest) => Done(255 + n, rest)
  }

  type Count = n: nat | n >= 1 witness 1

  function EncodeLength(n: Count): (s: seq<byte>)
    ensures s != []
  {
    if n <= 255 then [n - 1] else [255] + EncodeLength(n - 255)
  }

  lemma {:induction false} LengthRoundTrip(n: Count, rest: seq<byte>)
    ensures ReadLength(EncodeLength(n) + rest) == Done(n, rest)
  {
    var s := EncodeLength(n) + rest;
    if n <= 255 {
      assert s[1..] == rest;
    } else {
      assert s[1..] == EncodeLength(n - 255) + rest;
      LengthRoundTrip(n - 255, rest);
    }
  }

  /** There is no other way to write a length: what was consumed is its encoding. */
  lemma {:induction false} LengthIsCanonical(s: seq<byte>)
    requires ReadLength(s).Done?
    ensures var r := ReadLength(s); r.value >= 1 && s == EncodeLength(r.value) + r.rest
    decreases |s|
  {
    if s[0] == 255 {
      LengthIsCanonical(s[1..]);
      assert s == [255] + s[1..];
    }
  }

  function Repeat(p: Pixel, n: nat): (r: seq<Pixel>)
    ensures |r| == n
  {
    seq(n, _ => p)
  }

  // Plain run-length tiles

  datatype Tile = Tile(pixels: seq<Pixel>, buf: Scratch)

  /** The loop of _decodeRLETile once `done` pixels are written. */
  function RleLoop(buf: Scratch, s: seq<byte>, done: seq<Pixel>, size: nat): Result<Tile>
    decreases |s|
  {
    if |done| >= size then Done(Tile(done, buf), s) else
      match ReadPixels(buf, s, 1)
      case Threw => Threw
      case Done(b, afterPixel) =>
        match ReadLength(afterPixel)
        case Threw => Threw
        case Done(n, rest) => LengthConsumes(afterPixel); RleLoop(b, rest, done + Repeat(b[0], n), size)
  }

  lemma {:induction false} LengthConsumes(s: seq<byte>)
    ensures ReadLength(s).Done? ==> |ReadLength(s).rest| < |s|
    decreases |s|
  {
    if s != [] && s[0] == 255 {
      LengthConsumes(s[1..]);
    }
  }

  datatype Span = Span(color: Color, length: Count)

  function Plain(c: Color): (s: seq<byte>)
    ensures |s| == 3
  {
    [c.r, c.g, c.b]
  }

  function EncodeSpans(spans: seq<Span>): seq<byte>
  {
    if spans == [] then [] else Plain(spans[0].color) + EncodeLength(spans[0].length) + EncodeSpans(spans[1..])
  }

  function Spread(spans: seq<Span>): seq<Pixel> {
    if spans == [] then [] else Repeat(Opaque(spans[0].color), spans[0].length) + Spread(spans[1..])
  }

  lemma ReadPlain(buf: Scratch, c: Color, rest: seq<byte>)
    ensures ReadPixels(buf, Plain(c) + rest, 1) == Done(Over([Opaque(c)], buf), rest)
  {
    var s := Plain(c) + rest;
    assert s[3..] == rest;
    assert Colors(s, 1) == [Opaque(c)];
  }

  /** What an earlier read left in the scratch buffer does not matter to a plain run-length tile. */
  lemma {:induction false} SpansDecode(buf: Scratch, spans: seq<Span>, rest: seq<byte>, done: seq<Pixel>, size: nat)
    requires |done| + |Spread(spans)| == size
    ensures var r := RleLoop(buf, EncodeSpans(spans) + rest, done, size);
            r.Done? && r.value.pixels == done + Spread(spans) && r.rest == rest
    decreases |spans|
  {
    if spans == [] {
      assert done + Spread(spans) == done && EncodeSpans(spans) + rest == rest;
    } else {
      var x := spans[0];
      var tail := EncodeSpans(spans[1..]) + rest;
      assert EncodeSpans(spans) + rest == Plain(x.color) + (EncodeLength(x.length) + tail);
      var more := done + Repeat(Opaque(x.color), x.length);
      assert more + Spread(spans[1..]) == done + Spread(spans);
      SpanStep(buf, x, tail, done, size);
      hide RleLoop, EncodeSpans, Spread, Plain, EncodeLength;
      SpansDecode(Over([Opaque(x.color)], buf), spans[1..], rest, more, size);
    }
  }

  lemma SpanStep(buf: Scratch, x: Span, tail: seq<byte>, done: seq<Pixel>, size: nat)
    requires |done| < size
    ensures RleLoop(buf, Plain(x.color) + (EncodeLength(x.length) + tail), done, size)
            == RleLoop(Over([Opaque(x.color)], buf), tail, done + Repeat(Opaque(x.color), x.length), size)
  {
    ReadPlain(buf, x.color, EncodeLength(x.length) + tail);
    LengthRoundTrip(x.length, tail);
    hide ReadPixels, ReadLength, Plain, EncodeLength;
  }

  // Palette run-length tiles

  /** The loop of _decodeRLEPaletteTile; `>` is what the code tests, so an index equal to n passes. */
  function PaletteLoop(buf: Scratch, n: nat, s: seq<byte>, done: seq<Pixel>, size: nat): Result<Tile>
    decreases |s|
  {
    if |done| >= size then Done(Tile(done, buf), s)
    else if s == [] then Threw
    else
      var index := if s[0] >= 128 then s[0] - 128 else s[0];
      var run := if s[0] >= 128 then ReadLength(s[1..]) else Done(1, s[1..]);
      LengthConsumes(s[1..]);
      match run
      case Threw => Threw
      case Done(length, rest) =>
        if index > n || |done| + length > size then Threw
        else PaletteLoop(buf, n, rest, done + Repeat(buf[index], length), size)
  }

  type Index = x: nat | x < 128

  /** A run of a palette colour; short is the single byte form, for length 1 only. */
  datatype Token = Token(index: Index, length: Count, short: bool)

  predicate TokenOk(t: Token, n: nat) {
    t.index < n && (t.short ==> t.length == 1)
  }

  predicate TokensOk(ts: seq<Token>, n: nat) {
    forall i :: 0 <= i < |ts| ==> TokenOk(ts[i], n)
  }

  function EncodeToken(t: Token): seq<byte> {
    if t.short then [t.index] else [t.index + 128] + EncodeLength(t.length)
  }

  function EncodeTokens(ts: seq<Token>): seq<byte> {
    if ts == [] then [] else EncodeToken(ts[0]) + EncodeTokens(ts[1..])
  }

  function Look(palette: seq<Pixel>, ts: seq<Token>): seq<Pixel>
    requires TokensOk(ts, |palette|)
  {
    if ts == [] then [] else Repeat(palette[ts[0].index], ts[0].length) + Look(palette, ts[1..])
  }

  lemma {:induction false} TokensDecode(buf: Scratch, palette: seq<Pixel>, ts: seq<Token>, rest: seq<byte>, done: seq<Pixel>, size: nat)
    requires palette <= buf && |palette| <= 127 && TokensOk(ts, |palette|)
    requires |done| + |Look(palette, ts)| == size
    ensures PaletteLoop(buf, |palette|, EncodeTokens(ts) + rest, done, size) == Done(Tile(done + Look(palette, ts), buf), rest)
    decreases |ts|
  {
    if ts == [] {
      assert done + Look(palette, ts) == done && EncodeTokens(ts) + rest == rest;
    } else {
      var t := ts[0];
      var tail := EncodeTokens(ts[1..]) + rest;
      assert EncodeTokens(ts) + rest == EncodeToken(t) + tail;
      var more := done + Repeat(buf[t.index], t.length);
      assert more + Look(palette, ts[1..]) == done + Look(palette, ts);
      TokenStep(buf, |palette|, t, tail, done, size);
      hide PaletteLoop, EncodeToken, TokenOk;
      TokensDecode(buf, palette, ts[1..], rest, more, size);
    }
  }

  lemma TokenStep(buf: Scratch, n: nat, t: Token, tail: seq<byte>, done: seq<Pixel>, size: nat)
    requires n <= 127 && TokenOk(t, n) && |done| + t.length <= size
    ensures PaletteLoop(buf, n, EncodeToken(t) + tail, done, size)
            == PaletteLoop(buf, n, tail, done + Repeat(buf[t.index], t.length), size)
  {
    var s := EncodeToken(t) + tail;
    assert s[1..] == if t.short then tail else EncodeLength(t.length) + tail;
    LengthRoundTrip(t.length, tail);
  }

  /** The guard against an index outside the palette refuses exactly the indices above its size, one too few. */
  lemma GuardIsOffByOne(buf: Scratch, n: nat, index: byte)
    requires index < 128 && n <= 127
    ensures PaletteLoop(buf, n, [index], [], 1) == if index <= n then Done(Tile([buf[index]], buf), []) else Threw
  {
    assert [index][1..] == [] && [] + Repeat(buf[index], 1) == [buf[index]];
  }

  /** Reading never uses an index equal to the palette size. */
  predicate StaysInPalette(n: nat, s: seq<byte>, got: nat, size: nat)
    decreases |s|
  {
    if got >= size || s == [] then true else
      var index := if s[0] >= 128 then s[0] - 128 else s[0];
      var run := if s[0] >= 128 then ReadLength(s[1..]) else Done(1, s[1..]);
      LengthConsumes(s[1..]);
      match run
      case Threw => true
      case Done(length, rest) =>
        index > n || got + length > size || (index != n && StaysInPalette(n, rest, got + length, size))
  }

  /** Without that index the tile is a function of the palette alone ... */
  lemma {:induction false} PaletteAlone(a: Scratch, b: Scratch, n: nat, s: seq<byte>, done: seq<Pixel>, size: nat)
    requires n <= 127 && a[..n] == b[..n] && StaysInPalette(n, s, |done|, size)
    ensures var x, y := PaletteLoop(a, n, s, done, size), PaletteLoop(b, n, s, done, size);
            x.Done? == y.Done? && (x.Done? ==> x.value.pixels == y.value.pixels && x.rest == y.rest)
    decreases |s|
  {
    if |done| < size && s != [] {
      var index := if s[0] >= 128 then s[0] - 128 else s[0];
      var run := if s[0] >= 128 then ReadLength(s[1..]) else Done(1, s[1..]);
      LengthConsumes(s[1..]);
      if run.Done? && index <= n && |done| + run.value <= size {
        assert a[index] == a[..n][index] == b[..n][index] == b[index];
        PaletteAlone(a, b, n, run.rest, done + Repeat(a[index], run.value), size);
      }
    }
  }

  lemma {:induction false} SameFlow(a: Scratch, b: Scratch, n: nat, s: seq<byte>, doneA: seq<Pixel>, doneB: seq<Pixel>, size: nat)
    requires |doneA| == |doneB|
    ensures var x, y := PaletteLoop(a, n, s, doneA, size), PaletteLoop(b, n, s, doneB, size);
            x.Done? == y.Done? && (x.Done? ==> doneA <= x.value.pixels && doneB <= y.value.pixels)
    decreases |s|
  {
    if |doneA| < size && s != [] {
      var index := if s[0] >= 128 then s[0] - 128 else s[0];
      var run := if s[0] >= 128 then ReadLength(s[1..]) else Done(1, s[1..]);
      LengthConsumes(s[1..]);
      if run.Done? && index <= n && |doneA| + run.value <= size {
        SameFlow(a, b, n, run.rest, doneA + Repeat(a[index], run.value), doneB + Repeat(b[index], run.value), size);
      }
    }
  }

  /** ... and with it, whatever lay behind the palette shows up in the tile. */
  lemma {:induction false} StalePixelShows(a: Scratch, p: Pixel, n: nat, s: seq<byte>, done: seq<Pixel>, size: nat)
    requires n <= 127 && p != a[n] && !StaysInPalette(n, s, |done|, size) && PaletteLoop(a, n, s, done, size).Done?
    ensures var x, y := PaletteLoop(a, n, s, done, size), PaletteLoop(a[n := p], n, s, done, size);
            y.Done? && x.value.pixels != y.value.pixels
    decreases |s|
  {
    var index := if s[0] >= 128 then s[0] - 128 else s[0];
    var run := if s[0] >= 128 then ReadLength(s[1..]) else Done(1, s[1..]);
    LengthConsumes(s[1..]);
    if s[0] >= 128 {
      LengthIsCanonical(s[1..]);
    }
    var more := done + Repeat(a[index], run.value);
    if index == n {
      var other := done + Repeat(p, run.value);
      SameFlow(a, a[n := p], n, run.rest, more, other, size);
      assert more[|done|] == a[n] && other[|done|] == p;
    } else {
      StalePixelShows(a, p, n, run.rest, more, size);
    }
  }
}
