/** The ZRLE decoder as it runs: two scratch buffers written by nested loops, the inflater's output consumed byte by byte. */
module ZrleClass {
  import opened Arith
  import opened Bytes
  import opened Canvas
  import opened DecoderIO
  import opened PackedPixels
  import opened Zrle
  import opened ZrleTiles

  /** The bytes the zlib stream inflates to, still unread. */
  class Inflator {
    var q: seq<byte>

    constructor (q: seq<byte>)
      ensures this.q == q
    {
      this.q := q;
    }

    /** Exactly `expected` bytes, or an exception. */
    method Inflate(expected: nat) returns (ok: bool, out: seq<byte>)
      modifies this
      ensures ok <==> |old(q)| >= expected
      ensures ok ==> out == old(q)[..expected] && q == old(q)[expected..]
      ensures !ok ==> q == old(q)
    {
      ok, out := |q| >= expected, [];
      if ok {
        out := q[..expected];
        q := q[expected..];
      }
    }

    method InflateByte() returns (ok: bool, b: byte)
      modifies this
      ensures ok <==> old(q) != []
      ensures ok ==> b == old(q)[0] && q == old(q)[1..]
      ensures !ok ==> q == old(q)
    {
      var out;
      b := 0;
      ok, out := Inflate(1);
      if ok {
        b := out[0];
      }
    }
  }

  class Decoder {
    const inflator: Inflator
    const pixelBuffer: array<Pixel>
    const tileBuffer: array<Pixel>

    ghost predicate Valid() {
      pixelBuffer.Length == tileBuffer.Length == TILE_PIXELS && pixelBuffer != tileBuffer
    }

    constructor (inflator: Inflator)
      ensures Valid() && this.inflator == inflator && fresh(pixelBuffer) && fresh(tileBuffer)
    {
      this.inflator := inflator;
      pixelBuffer := new Pixel[TILE_PIXELS](_ => Transparent);
      tileBuffer := new Pixel[TILE_PIXELS](_ => Transparent);
    }

    method ReadPixels(pixels: nat) returns (ok: bool)
      requires Valid() && pixels <= TILE_PIXELS
      modifies inflator, pixelBuffer
      ensures var r := Zrle.ReadPixels(old(pixelBuffer[..]), old(inflator.q), pixels);
              ok == r.Done? && (ok ==> pixelBuffer[..] == r.value && inflator.q == r.rest)
    {
      var buffer;
      ok, buffer := inflator.Inflate(3 * pixels);
      if !ok {
        return;
      }
      ghost var was := pixelBuffer[..];
      for i := 0 to pixels
        invariant pixelBuffer[..i] == Colors(buffer, pixels)[..i]
        invariant pixelBuffer[i..] == was[i..]
        invariant inflator.q == old(inflator.q)[3 * pixels..]
      {
        ghost var later := pixelBuffer[i..];
        pixelBuffer[i] := Opaque(Color(buffer[3 * i], buffer[3 * i + 1], buffer[3 * i + 2]));
        assert pixelBuffer[i + 1..] == later[1..];
        assert pixelBuffer[..i + 1] == pixelBuffer[..i] + [pixelBuffer[i]];
      }
      assert Colors(buffer, pixels) == Colors(old(inflator.q), pixels);
      assert pixelBuffer[..] == pixelBuffer[..pixels] + pixelBuffer[pixels..];
    }

    method ReadRLELength() returns (ok: bool, length: nat)
      modifies inflator
      ensures var r := ReadLength(old(inflator.q));
              ok == r.Done? && (ok ==> length == r.value && inflator.q == r.rest)
    {
      length := 0;
      var current: byte := 255;
      ok := true;
      while current == 255
        invariant ok && current == 255 ==>
                    var r := ReadLength(old(inflator.q)); var t := ReadLength(inflator.q);
                    r.Done? == t.Done? && (t.Done? ==> r.value == length + t.value && r.rest == t.rest)
        invariant ok && current != 255 ==> ReadLength(old(inflator.q)) == Done(length + 1, inflator.q)
        invariant ok
        decreases if current == 255 then 1 else 0, |inflator.q|
      {
        ok, current := inflator.InflateByte();
        if !ok {
          return;
        }
        length := length + current;
      }
      length := length + 1;
    }

    /** Writes one pixel n times from index i on; a typed array ignores what falls behind its end. */
    method WriteRun(p: Pixel, i: nat, n: nat)
      requires Valid()
      modifies tileBuffer
      ensures forall k :: 0 <= k < TILE_PIXELS ==> tileBuffer[k] == if i <= k < i + n then p else old(tileBuffer[k])
    {
      for j := 0 to n
        invariant forall k :: 0 <= k < TILE_PIXELS ==> tileBuffer[k] == if i <= k < i + j then p else old(tileBuffer[k])
      {
        if i + j < TILE_PIXELS {
          tileBuffer[i + j] := p;
        }
      }
    }

    /** The pixels written so far, as far as they fit. */
    ghost predicate Holds(done: seq<Pixel>)
      requires Valid()
      reads tileBuffer
    {
      forall k :: 0 <= k < |done| && k < TILE_PIXELS ==> tileBuffer[k] == done[k]
    }

    method DecodeRLETile(tileSize: nat) returns (ok: bool)
      requires Valid()
      modifies inflator, pixelBuffer, tileBuffer
      ensures var r := RleLoop(old(pixelBuffer[..]), old(inflator.q), [], tileSize);
              ok == r.Done? && (ok ==> Holds(r.value.pixels) && |r.value.pixels| >= tileSize
                                       && pixelBuffer[..] == r.value.buf && inflator.q == r.rest)
    {
      ghost var done: seq<Pixel> := [];
      ghost var want := RleLoop(pixelBuffer[..], inflator.q, [], tileSize);
      var i := 0;
      while i < tileSize
        invariant i == |done| && Holds(done)
        invariant RleLoop(pixelBuffer[..], inflator.q, done, tileSize) == want
        decreases |inflator.q|
      {
        ok := ReadPixels(1);
        if !ok {
          return;
        }
        LengthConsumes(inflator.q);
        var length;
        ok, length := ReadRLELength();
        if !ok {
          return;
        }
        WriteRun(pixelBuffer[0], i, length);
        done := done + Repeat(pixelBuffer[0], length);
        i := i + length;
      }
      ok := true;
    }

    method DecodeRLEPaletteTile(paletteSize: nat, tileSize: nat) returns (ok: bool)
      requires Valid() && paletteSize <= 127
      modifies inflator, pixelBuffer, tileBuffer
      ensures var p := Zrle.ReadPixels(old(pixelBuffer[..]), old(inflator.q), paletteSize);
              if p.Threw? then !ok else
                var r := PaletteLoop(p.value, paletteSize, p.rest, [], tileSize);
                ok == r.Done? && (ok ==> Holds(r.value.pixels) && |r.value.pixels| >= tileSize
                                         && pixelBuffer[..] == r.value.buf && inflator.q == r.rest)
    {
      ok := ReadPixels(paletteSize);
      if ok {
        ok := PaletteRuns(paletteSize, tileSize);
      }
    }

    /** The runs of a palette tile, once the palette is read. */
    method PaletteRuns(paletteSize: nat, tileSize: nat) returns (ok: bool)
      requires Valid() && paletteSize <= 127
      modifies inflator, tileBuffer
      ensures var r := PaletteLoop(pixelBuffer[..], paletteSize, old(inflator.q), [], tileSize);
              ok == r.Done? && (ok ==> Holds(r.value.pixels) && |r.value.pixels| >= tileSize
                                       && pixelBuffer[..] == r.value.buf && inflator.q == r.rest)
    {
      ghost var done: seq<Pixel> := [];
      ghost var buf: Scratch := pixelBuffer[..];
      ghost var want := PaletteLoop(buf, paletteSize, inflator.q, [], tileSize);
      var offset := 0;
      while offset < tileSize
        invariant offset == |done| && Holds(done)
        invariant pixelBuffer[..] == buf
        invariant PaletteLoop(buf, paletteSize, inflator.q, done, tileSize) == want
        decreases |inflator.q|
      {
        var indexInPalette: nat;
        ok, indexInPalette := inflator.InflateByte();
        if !ok {
          return;
        }
        LengthConsumes(inflator.q);
        var length := 1;
        if indexInPalette >= 128 {
          indexInPalette := indexInPalette - 128;
          ok, length := ReadRLELength();
          if !ok {
            return;
          }
        }
        if indexInPalette > paletteSize || offset + length > tileSize {
          return false;
        }
        WriteRun(pixelBuffer[indexInPalette], offset, length);
        done := done + Repeat(buf[indexInPalette], length);
        offset := offset + length;
      }
      ok := true;
    }

    /** One pixel: the bits of its field, shifted down and masked, pick the palette colour. */
    method PutPixel(ghost s: seq<byte>, ghost buf: Scratch, encoded: byte, shift: nat, tilew: nat, tileh: nat, bits: Bits,
                    x: nat, y: nat, ghost done: nat)
      requires Valid() && TileSize(tilew, tileh) && x < tilew && y < tileh && pixelBuffer[..] == buf
      requires var at := RowAt(tilew, bits, y) + ByteOf(x, bits); at < |s| && encoded == s[at]
      requires shift == 8 - bits - BitOf(x, bits)
      requires AllRight(tileBuffer[..], done, s, buf, tilew, bits)
      requires done == RowPixels(tilew, y) + x
      modifies tileBuffer
      ensures AllRight(tileBuffer[..], done + 1, s, buf, tilew, bits)
    {
      var indexInPalette := (encoded / Pow2(shift)) % Pow2(bits);
      FieldIsShift(encoded, x, bits, shift);
      hide ByteOf, BitOf, RowBytes, Field, Right;
      Cell(tilew, tileh, x, y);
      ghost var before := tileBuffer[..];
      var offset := y * tilew + x;
      tileBuffer[offset] := pixelBuffer[indexInPalette];
      ghost var after := before[offset := buf[indexInPalette]];
      assert tileBuffer[..] == after;
      RightKept(before, after, offset, s, buf, tilew, bits, indexInPalette, x, y);
    }

    /** One row of a packed tile; its first byte is already read, and the first of the next row is read at the end. */
    method DecodePaletteRow(ghost s: seq<byte>, ghost buf: Scratch, first: byte, tilew: nat, tileh: nat, bits: Bits, y: nat)
      returns (ok: bool, encoded: byte)
      requires Valid() && TileSize(tilew, tileh) && y < tileh && pixelBuffer[..] == buf
      requires RowStart(s, inflator.q, first, tilew, tileh, bits, y)
      requires AllRight(tileBuffer[..], RowPixels(tilew, y), s, buf, tilew, bits)
      modifies inflator, tileBuffer
      ensures !ok ==> |s| < RowAt(tilew, bits, tileh)
      ensures ok ==> RowStart(s, inflator.q, encoded, tilew, tileh, bits, y + 1)
      ensures ok ==> AllRight(tileBuffer[..], RowPixels(tilew, y + 1), s, buf, tilew, bits)
    {
      hide ByteOf, BitOf, RowBytes, Field, ByteBefore, ShiftBefore, AllRight, RowAt, RowPixels;
      ghost var base, from := RowAt(tilew, bits, y), RowPixels(tilew, y);
      ok, encoded := true, first;
      var shift: int := 8 - bits;
      WalkStart(bits);
      for x := 0 to tilew
        invariant pixelBuffer[..] == buf
        invariant shift == ShiftBefore(x, bits)
        invariant base + ByteBefore(x, bits) < |s|
        invariant inflator.q == s[base + ByteBefore(x, bits) + 1..] && encoded == s[base + ByteBefore(x, bits)]
        invariant AllRight(tileBuffer[..], from + x, s, buf, tilew, bits)
      {
        Walk(x, tilew, tileh, bits, y);
        if shift < 0 {
          shift := 8 - bits;
          ok, encoded := inflator.InflateByte();
          if !ok {
            return;
          }
        }
        PutPixel(s, buf, encoded, shift, tilew, tileh, bits, x, y, from + x);
        shift := shift - bits;
      }
      WalkEnd(tilew, tileh, bits, y);
      if shift < 8 - bits && y < tileh - 1 {
        ok, encoded := inflator.InflateByte();
      }
    }

    /** The loop over bit-packed indices, one byte at a time. */
    method DecodePaletteTile(paletteSize: nat, tilew: nat, tileh: nat) returns (ok: bool)
      requires Valid() && paletteSize <= 16 && TileSize(tilew, tileh)
      modifies inflator, pixelBuffer, tileBuffer
      ensures var p := Zrle.ReadPixels(old(pixelBuffer[..]), old(inflator.q), paletteSize);
              var bits := BitsPerPixel(paletteSize);
              if p.Threw? then !ok else
                && ok == (|p.rest| >= RowAt(tilew, bits, tileh))
                && (ok ==> && Holds(Unpack(p.value, p.rest, tilew, tileh, bits))
                           && pixelBuffer[..] == p.value && inflator.q == p.rest[RowAt(tilew, bits, tileh)..])
    {
      ok := ReadPixels(paletteSize);
      if ok {
        ok := PackedRows(BitsPerPixel(paletteSize), tilew, tileh);
      }
    }

    /** The rows of a packed tile, once the palette is read. */
    method PackedRows(bits: Bits, tilew: nat, tileh: nat) returns (ok: bool)
      requires Valid() && TileSize(tilew, tileh)
      modifies inflator, tileBuffer
      ensures var s := old(inflator.q);
              && ok == (|s| >= RowAt(tilew, bits, tileh))
              && (ok ==> Holds(Unpack(pixelBuffer[..], s, tilew, tileh, bits)) && inflator.q == s[RowAt(tilew, bits, tileh)..])
    {
      hide RowBytes, RowAt, RowPixels, AllRight, Unpack, ByteOf, BitOf, Field;
      ghost var s, buf: Scratch := inflator.q, pixelBuffer[..];
      RowNeedsBytes(tilew, tileh, bits);
      NothingYet(tileBuffer[..], s, buf, tilew, bits);
      var encoded: byte;
      ok, encoded := inflator.InflateByte();
      if !ok {
        return;
      }
      for y := 0 to tileh
        invariant pixelBuffer[..] == buf
        invariant RowStart(s, inflator.q, encoded, tilew, tileh, bits, y)
        invariant AllRight(tileBuffer[..], RowPixels(tilew, y), s, buf, tilew, bits)
      {
        ok, encoded := DecodePaletteRow(s, buf, encoded, tilew, tileh, bits, y);
        if !ok {
          return;
        }
      }
      ok := true;
      AllUnpacked(tileBuffer[..], s, buf, tilew, tileh, bits);
    }

    /** One tile: the subencoding byte decides how it is read; it is drawn only when all of it could be read. */
    method DecodeTile(surface: Surface, x: nat, y: nat, tw: nat, th: nat) returns (ok: bool)
      requires Valid() && TileSize(tw, th)
      modifies surface, inflator, pixelBuffer, tileBuffer
      ensures var r := ZrleTiles.DecodeTile(old(pixelBuffer[..]), old(inflator.q), tw, th);
              && ok == r.Done?
              && surface.fb == (if ok then Put(old(surface.fb), x, y, tw, th, r.value.pixels) else old(surface.fb))
              && (ok ==> pixelBuffer[..] == r.value.buf && inflator.q == r.rest)
    {
      hide RleLoop, PaletteLoop, Zrle.ReadPixels, Unpack, RowBytes, Put, Fill;
      ghost var want := ZrleTiles.DecodeTile(pixelBuffer[..], inflator.q, tw, th);
      var tileSize := tw * th;
      var subencoding: byte;
      ok, subencoding := inflator.InflateByte();
      if !ok {
        return;
      }
      if subencoding == 0 {
        ok := ReadPixels(tileSize);
        if ok {
          PutSame(surface.fb, x, y, tw, th, pixelBuffer[..], want.value.pixels);
          surface.fb := Put(surface.fb, x, y, tw, th, pixelBuffer[..]);
        }
      } else if subencoding == 1 {
        ok := ReadPixels(1);
        if ok {
          SolidRead(old(pixelBuffer[..]), old(inflator.q)[1..]);
          FillIsPut(surface.fb, x, y, tw, th, pixelBuffer[0].color);
          surface.fb := Fill(surface.fb, x, y, tw, th, pixelBuffer[0].color);
        }
      } else if 2 <= subencoding <= 16 {
        ok := DecodePaletteTile(subencoding, tw, th);
        if ok {
          PutSame(surface.fb, x, y, tw, th, tileBuffer[..], want.value.pixels);
          surface.fb := Put(surface.fb, x, y, tw, th, tileBuffer[..]);
        }
      } else if subencoding == 128 {
        ok := DecodeRLETile(tileSize);
        if ok {
          PutSame(surface.fb, x, y, tw, th, tileBuffer[..], want.value.pixels);
          surface.fb := Put(surface.fb, x, y, tw, th, tileBuffer[..]);
        }
      } else if 130 <= subencoding <= 255 {
        ok := DecodeRLEPaletteTile(subencoding - 128, tileSize);
        if ok {
          PutSame(surface.fb, x, y, tw, th, tileBuffer[..], want.value.pixels);
          surface.fb := Put(surface.fb, x, y, tw, th, tileBuffer[..]);
        }
      } else {
        ok := false;
      }
    }

    ghost function Now(surface: Surface, ok: bool): Progress
      requires Valid()
      reads surface, inflator, pixelBuffer
    {
      Progress(surface.fb, pixelBuffer[..], inflator.q, ok)
    }

    /** The tile loops of decodeRect: rows of tiles from the top, each from the left. */
    method DecodeTiles(r: Rect, surface: Surface) returns (ok: bool)
      requires Valid()
      modifies surface, inflator, pixelBuffer, tileBuffer
      ensures var p := TilesFrom(old(Now(surface, true)), r, 0, 0);
              ok == p.ok && surface.fb == p.fb && (ok ==> Now(surface, true) == p)
    {
      hide ZrleTiles.DecodeTile, Put;
      ghost var want := TilesFrom(Now(surface, true), r, 0, 0);
      var ty := r.y;
      ghost var row := 0;
      while ty < r.y + r.h
        invariant ty == r.y + row * TILE && row <= Tiles(r.h)
        invariant TilesFrom(Now(surface, true), r, 0, row) == want
      {
        var th := if TILE < r.y + r.h - ty then TILE else r.y + r.h - ty;
        var tx := r.x;
        ghost var col := 0;
        while tx < r.x + r.w
          invariant tx == r.x + col * TILE && col <= Tiles(r.w)
          invariant TilesFrom(Now(surface, true), r, col, row) == want
        {
          var tw := if TILE < r.x + r.w - tx then TILE else r.x + r.w - tx;
          SideFits(r.w, r.h, col, row);
          ghost var before := Now(surface, true);
          ok := DecodeTile(surface, tx, ty, tw, th);
          if !ok {
            Stopped(before, r, col, row);
            return;
          }
          tx, col := tx + TILE, col + 1;
        }
        ty, row := ty + TILE, row + 1;
      }
      ok := true;
    }
  }

  lemma Stopped(p: Progress, r: Rect, col: nat, row: nat)
    requires p.ok && col < Tiles(r.w) && row < Tiles(r.h)
    requires !OneTile(p, r, col, row).ok
    ensures TilesFrom(p, r, col, row).fb == p.fb && !TilesFrom(p, r, col, row).ok
  {
    var q := OneTile(p, r, col, row);
    assert TilesFrom(p, r, col, row) == TilesFrom(q, r, col + 1, row) == q;
  }

  lemma SolidRead(buf: Scratch, s: seq<byte>)
    requires Zrle.ReadPixels(buf, s, 1).Done?
    ensures Zrle.ReadPixels(buf, s, 1).value[0].Opaque?
  {
    assert Colors(s, 1)[0].Opaque?;
  }

  lemma {:induction false} FillIsPut(fb: Image, x: nat, y: nat, w: nat, h: nat, c: Color)
    ensures Fill(fb, x, y, w, h, c) == Put(fb, x, y, w, h, Repeat(Opaque(c), w * h))
  {
    hide RowMajor;
    var size := w * h;
    var put := Put(fb, x, y, w, h, Repeat(Opaque(c), size));
    forall p | p in fb
      ensures put[p] == if InBox(p, x, y, w, h) then Opaque(c) else fb[p]
    {
      if InBox(p, x, y, w, h) {
        RowMajorInside(w, h, p.0 - x, p.1 - y);
      }
    }
  }

  function RowAt(tilew: nat, bits: Bits, y: nat): nat {
    y * RowBytes(tilew, bits)
  }

  function RowPixels(tilew: nat, y: nat): nat {
    y * tilew
  }

  /** Where the inflater stands before row y: one byte into it, or at the end of the last row. */
  ghost predicate RowStart(s: seq<byte>, q: seq<byte>, encoded: byte, tilew: nat, tileh: nat, bits: Bits, y: nat) {
    var at := RowAt(tilew, bits, y);
    at <= |s| && if y < tileh then at < |s| && q == s[at + 1..] && encoded == s[at] else q == s[at..]
  }

  /** Pixel k is the palette colour its bit field names. */
  ghost predicate Right(data: seq<Pixel>, k: nat, s: seq<byte>, buf: Scratch, tilew: nat, bits: Bits)
    requires tilew > 0
  {
    var x, y := k % tilew, k / tilew;
    var at := RowAt(tilew, bits, y) + ByteOf(x, bits);
    k < |data| && at < |s| && data[k] == buf[Small(Field(s[at], BitOf(x, bits), bits))]
  }

  ghost predicate AllRight(data: seq<Pixel>, n: nat, s: seq<byte>, buf: Scratch, tilew: nat, bits: Bits)
    requires tilew > 0
  {
    forall k :: 0 <= k < n ==> Right(data, k, s, buf, tilew, bits)
  }

  /** A field of at most four bits is an index below 16. */
  function Small(f: nat): (i: nat)
    ensures i < 16
  {
    if f < 16 then f else 0
  }

  /** The byte of the row the loop holds before column x. */
  function ByteBefore(x: nat, bits: Bits): nat {
    if x == 0 then 0 else (x * bits - 1) / 8
  }

  /** The shift the loop holds before column x: negative when the byte is used up. */
  function ShiftBefore(x: nat, bits: Bits): int {
    8 * (ByteBefore(x, bits) + 1) - x * bits - bits
  }

  lemma WalkStart(bits: Bits)
    ensures ByteBefore(0, bits) == 0 && ShiftBefore(0, bits) == 8 - bits
  {
  }

  lemma {:induction false} Walk(x: nat, tilew: nat, tileh: nat, bits: Bits, y: nat)
    requires x < tilew && y < tileh
    ensures WalkFacts(x, bits)
    ensures RowAt(tilew, bits, y) + ByteOf(x, bits) < RowAt(tilew, bits, tileh)
  {
    WalkBytes(x, bits);
    ByteInRow(x, tilew, bits);
    GridBound(RowBytes(tilew, bits), tileh, ByteOf(x, bits), y);
  }

  predicate WalkFacts(x: nat, bits: Bits) {
    var shift := ShiftBefore(x, bits);
    && (shift < 0 <==> ByteOf(x, bits) == ByteBefore(x, bits) + 1)
    && (shift < 0 ==> BitOf(x, bits) == 0)
    && (shift >= 0 ==> ByteOf(x, bits) == ByteBefore(x, bits) && shift == 8 - bits - BitOf(x, bits))
    && ByteBefore(x + 1, bits) == ByteOf(x, bits)
    && ShiftBefore(x + 1, bits) == 8 - bits - BitOf(x, bits) - bits
  }

  lemma {:induction false} WalkBytes(x: nat, bits: Bits)
    ensures WalkFacts(x, bits)
  {
    var p := x * bits;
    NextProduct(x, bits);
    WalkBits(p, bits);
    assert ShiftBefore(x + 1, bits) == 8 * (ByteBefore(x + 1, bits) + 1) - (p + bits) - bits;
    assert ByteOf(x, bits) == p / 8 && BitOf(x, bits) == p % 8;
  }

  lemma NextProduct(x: nat, bits: Bits)
    ensures (x + 1) * bits == x * bits + bits && x * bits % bits == 0 && (x * bits == 0 <==> x == 0)
  {
    if bits == 1 {
      assert x * bits == x;
    } else if bits == 2 {
      assert x * bits == 2 * x;
    } else {
      assert x * bits == 4 * x;
    }
  }

  lemma WalkBits(p: nat, bits: Bits)
    requires p % bits == 0
    ensures var before := if p == 0 then 0 else (p - 1) / 8; var shift := 8 * (before + 1) - p - bits;
            && (shift < 0 <==> p / 8 == before + 1)
            && (shift < 0 ==> p % 8 == 0)
            && (shift >= 0 ==> p / 8 == before && shift == 8 - bits - p % 8)
    ensures (p + bits - 1) / 8 == p / 8
  {
    if bits == 1 {
    } else if bits == 2 {
      assert p % 2 == 0;
    } else {
      assert p % 4 == 0;
    }
  }

  lemma {:induction false} WalkEnd(tilew: nat, tileh: nat, bits: Bits, y: nat)
    requires tilew > 0 && y < tileh
    ensures RowAt(tilew, bits, y) + ByteBefore(tilew, bits) + 1 == RowAt(tilew, bits, y + 1)
    ensures ShiftBefore(tilew, bits) < 8 - bits
    ensures RowPixels(tilew, y) + tilew == RowPixels(tilew, y + 1)
    ensures y < tileh - 1 ==> RowAt(tilew, bits, y + 1) < RowAt(tilew, bits, tileh)
  {
    RowEnd(tilew, bits);
    var n := RowBytes(tilew, bits);
    assert (y + 1) * n == y * n + n && (y + 2) * n == (y + 1) * n + n;
    if y < tileh - 1 {
      MulMonotone(y + 2, tileh, n);
    }
  }

  lemma RowEnd(tilew: nat, bits: Bits)
    requires tilew > 0
    ensures ByteBefore(tilew, bits) + 1 == RowBytes(tilew, bits) && RowBytes(tilew, bits) > 0
    ensures ShiftBefore(tilew, bits) < 8 - bits
  {
  }

  lemma FieldIsShift(b: byte, x: nat, bits: Bits, shift: nat)
    requires shift == 8 - bits - BitOf(x, bits)
    ensures b / Pow2(shift) % Pow2(bits) == Small(Field(b, BitOf(x, bits), bits))
  {
    assert Pow2(1) == 2 && Pow2(2) == 4 && Pow2(4) == 16;
  }

  lemma {:induction false} Cell(w: nat, h: nat, x: nat, y: nat)
    requires x < w && y < h && w * h <= TILE_PIXELS
    ensures y * w + x < TILE_PIXELS && (y * w + x) % w == x && (y * w + x) / w == y
  {
    GridBound(w, h, x, y);
    DivisionUnique(y * w + x, w, y, x);
  }

  lemma {:induction false} RightKept(before: seq<Pixel>, after: seq<Pixel>, at: nat, s: seq<byte>, buf: Scratch, tilew: nat, bits: Bits,
                  index: nat, x: nat, y: nat)
    requires tilew > 0 && index < 16 && at < |before| && after == before[at := buf[index]] && at % tilew == x && at / tilew == y
    requires RowAt(tilew, bits, y) + ByteOf(x, bits) < |s|
    requires index == Small(Field(s[RowAt(tilew, bits, y) + ByteOf(x, bits)], BitOf(x, bits), bits))
    requires AllRight(before, at, s, buf, tilew, bits)
    ensures AllRight(after, at + 1, s, buf, tilew, bits)
  {
    forall k | 0 <= k < at + 1
      ensures Right(after, k, s, buf, tilew, bits)
    {
      if k < at {
        assert Right(before, k, s, buf, tilew, bits);
      }
    }
  }

  lemma NothingYet(data: seq<Pixel>, s: seq<byte>, buf: Scratch, tilew: nat, bits: Bits)
    requires tilew > 0
    ensures RowAt(tilew, bits, 0) == 0 && RowPixels(tilew, 0) == 0 && AllRight(data, 0, s, buf, tilew, bits)
  {
  }

  /** When every pixel is right, the buffer holds the unpacked tile. */
  lemma {:induction false} AllUnpacked(data: seq<Pixel>, s: seq<byte>, buf: Scratch, tilew: nat, tileh: nat, bits: Bits)
    requires tilew > 0 && |s| >= RowAt(tilew, bits, tileh) && AllRight(data, RowPixels(tilew, tileh), s, buf, tilew, bits)
    ensures var u := Unpack(buf, s, tilew, tileh, bits);
            |u| == tilew * tileh && forall k :: 0 <= k < |u| && k < |data| ==> data[k] == u[k]
  {
    forall k | 0 <= k < tilew * tileh
      ensures k < |data| && data[k] == PixelAt(buf, s, tilew, tileh, bits, k)
    {
      assert Right(data, k, s, buf, tilew, bits);
      GridCell(tilew, tileh, k);
      hide Field, ByteOf, BitOf, RowBytes;
    }
  }

  lemma RowNeedsBytes(tilew: nat, tileh: nat, bits: Bits)
    requires tilew > 0 && tileh > 0
    ensures RowAt(tilew, bits, tileh) > 0
  {
    PositiveProduct(tileh, RowBytes(tilew, bits));
  }
}
