/** The hextile decoder object: fields and nested loops as in the original, proved against HextileDecoder. */
module HextileClass {
  import opened Arith
  import opened Bytes
  import opened Wrappers
  import opened Canvas
  import opened DecoderIO
  import opened HextileDecoder

  class Hextile {
    var tiles: nat
    var tilesX: nat
    var totalTiles: nat
    var background: Option<Color>
    var foreground: Option<Color>
    var lastsubencoding: nat
    const tileBuffer: array<Pixel>

    ghost predicate Valid()
      reads this, tileBuffer
    {
      tileBuffer.Length == 256
    }

    ghost function State(): Hex
      reads this, tileBuffer
      requires Valid()
    {
      Hex(tiles, tilesX, totalTiles, background, foreground, lastsubencoding, tileBuffer[..])
    }

    constructor ()
      ensures Valid() && fresh(tileBuffer) && State() == Fresh()
    {
      tiles, tilesX, totalTiles, background, foreground, lastsubencoding := 0, 0, 0, None, None, 0;
      tileBuffer := new Pixel[256](_ => Transparent);
      new;
      assert tileBuffer[..] == seq(256, _ => Transparent);
    }

    method StartTile(n: nat, c: Color)
      requires Valid() && n <= 256
      modifies tileBuffer
      ensures tileBuffer[..] == Started(old(tileBuffer[..]), n, c)
    {
      var i := 0;
      while i < n
        invariant 0 <= i <= n
        invariant tileBuffer[..] == Started(old(tileBuffer[..]), i, c)
      {
        tileBuffer[i] := Opaque(c);
        i := i + 1;
      }
    }

    /** The nested loops over a subrectangle; writes beyond the typed array are ignored. */
    method SubTile(tw: nat, s: Sub)
      requires Valid()
      modifies tileBuffer
      ensures tileBuffer[..] == PaintSub(old(tileBuffer[..]), tw, s)
    {
      var j := 0;
      while j < s.h
        invariant 0 <= j <= s.h
        invariant tileBuffer[..] == PaintRows(old(tileBuffer[..]), tw, s.x, s.y, s.w, j, s.color)
      {
        ghost var before := tileBuffer[..];
        var start := s.x + (s.y + j) * tw;
        var i := 0;
        while i < s.w
          invariant 0 <= i <= s.w
          invariant tileBuffer[..] == PaintRow(before, start, i, s.color)
        {
          var p := start + i;
          if p < tileBuffer.Length {
            tileBuffer[p] := Opaque(s.color);
          }
          i := i + 1;
        }
        j := j + 1;
      }
    }

    /** The subrectangle loop; fails when a colour it needs was never set. */
    method SubTiles(inp: seq<byte>, at: nat, n: nat, sub: nat, tw: nat) returns (ok: bool)
      requires Valid() && at + n * SubrectBytes(sub) <= |inp|
      modifies tileBuffer
      ensures ok <==> ReadSubs(inp, at, n, sub, foreground).Some?
      ensures ok ==> tileBuffer[..] == PaintSubs(old(tileBuffer[..]), tw, ReadSubs(inp, at, n, sub, foreground).value)
    {
      hide Bit, PaintSub;
      var rQi := at;
      var size := SubrectBytes(sub);
      for s := 0 to n
        invariant rQi == at + s * size
        invariant ReadSubs(inp, at, s, sub, foreground).Some?
        invariant tileBuffer[..] == PaintSubs(old(tileBuffer[..]), tw, ReadSubs(inp, at, s, sub, foreground).value)
      {
        MulMonotone(s + 1, n, size);
        assert (s + 1) * size == s * size + size;
        ghost var before := ReadSubs(inp, at, s, sub, foreground).value;
        var color := if Bit(sub, 4) then Some(ColorAt(inp, rQi)) else foreground;
        if color.None? {
          ReadSubsFails(inp, at, s + 1, n, sub, foreground);
          return false;
        }
        var next := SubOf(inp[rQi + size - 2], inp[rQi + size - 1], color.value);
        SubTile(tw, next);
        assert (before + [next])[..s] == before;
        rQi := rQi + size;
      }
      return true;
    }

    lemma {:induction false} ReadSubsFails(inp: seq<byte>, at: nat, k: nat, n: nat, sub: nat, fg: Option<Color>)
      requires k <= n && at + n * SubrectBytes(sub) <= |inp|
      requires at + k * SubrectBytes(sub) <= |inp| && ReadSubs(inp, at, k, sub, fg).None?
      ensures ReadSubs(inp, at, n, sub, fg).None?
      decreases n - k
    {
      if k < n {
        hide Bit;
        assert n * SubrectBytes(sub) == (n - 1) * SubrectBytes(sub) + SubrectBytes(sub);
        ReadSubsFails(inp, at, k, n - 1, sub, fg);
      }
    }

    /** A coloured tile. The scratch buffer and the colours may be half updated when it fails. */
    method ColouredTile(inp: seq<byte>, t: Tile) returns (ok: bool)
      requires Valid() && |inp| >= 1 && !Bit(inp[0], 0) && t.w * t.h <= 256
      requires Expected(inp, t).Some? && Expected(inp, t).value <= |inp|
      modifies this, tileBuffer
      ensures Valid()
      ensures ok <==> PaintTile(old(State()), inp, t).Some?
      ensures ok ==> State() == PaintTile(old(State()), inp, t).value
    {
      hide Bit, PaintSubs, Started, ReadSubs;
      var sub := inp[0];
      var rQi := 1;
      if Bit(sub, 1) {
        background := Some(ColorAt(inp, rQi));
        rQi := rQi + 4;
      }
      if Bit(sub, 2) {
        foreground := Some(ColorAt(inp, rQi));
        rQi := rQi + 4;
      }
      if background.None? {
        return false;
      }
      StartTile(t.w * t.h, background.value);
      ok := true;
      if Bit(sub, 3) {
        var subrects := inp[rQi];
        rQi := rQi + 1;
        ok := SubTiles(inp, rQi, subrects, sub, t.w);
      } else {
        NoSubs(tileBuffer[..], t.w);
      }
    }

    lemma NoSubs(buf: TileBuffer, tw: nat)
      ensures PaintSubs(buf, tw, []) == buf
    {
    }

    /** One tile whose bytes have all arrived. */
    method OneTile(inp: seq<byte>, t: Tile, display: Surface) returns (ok: bool)
      requires Valid() && |inp| >= 1 && t.w * t.h <= 256
      requires Expected(inp, t).Some? && Expected(inp, t).value <= |inp|
      modifies this, tileBuffer, display
      ensures Valid()
      ensures ok <==> DrawTile(old(State()), inp, old(display.fb), t).Some?
      ensures ok ==> (State(), display.fb) == DrawTile(old(State()), inp, old(display.fb), t).value
    {
      hide Bit, PaintTile, Fill, Put, Expected;
      var sub := inp[0];
      if sub == 0 {
        if Bit(lastsubencoding, 0) {
          return true;
        }
        if background.None? {
          return false;
        }
        display.fb := Fill(display.fb, t.x, t.y, t.w, t.h, background.value);
        return true;
      }
      if Bit(sub, 0) {
        RawFits(inp, t);
        display.fb := Put(display.fb, t.x, t.y, t.w, t.h, Pixels32(inp[1..], t.w * t.h));
        return true;
      }
      ok := ColouredTile(inp, t);
      if ok {
        display.fb := Put(display.fb, t.x, t.y, t.w, t.h, tileBuffer[..t.w * t.h]);
        assert tileBuffer[..][..t.w * t.h] == tileBuffer[..t.w * t.h];
      }
    }

    lemma RawFits(inp: seq<byte>, t: Tile)
      requires |inp| >= 1 && Bit(inp[0], 0) && Expected(inp, t).Some? && Expected(inp, t).value <= |inp|
      ensures 4 * (t.w * t.h) <= |inp[1..]|
    {
    }

    lemma TileFits(h: Hex, r: Rect)
      ensures var t := CurrentTile(h, r); t.w * t.h <= 256
    {
      var t := CurrentTile(h, r);
      MulMonotone(t.w, 16, t.h);
    }

    /** Visits tiles for as long as whole ones have arrived. An illegal subencoding, or a colour that was never
        set, throws. */
    method DecodeRect(r: Rect, sock: Sock, display: Surface) returns (done: bool, thrown: bool)
      requires Valid()
      modifies this, tileBuffer, sock, display
      ensures Valid()
      ensures var (h, io, v) := Decode(old(State()), old(IO(sock.q, display.fb)), r);
              && (thrown <==> v == Broken) && (done <==> v == Finished)
              && (!thrown ==> State() == h && IO(sock.q, display.fb) == io)
    {
      hide Expected, DrawTile, CurrentTile;
      ghost var end := Decode(State(), IO(sock.q, display.fb), r);
      thrown := false;
      if tiles == 0 {
        tilesX := Ceil16(r.w);
        var tilesY := Ceil16(r.h);
        totalTiles := tilesX * tilesY;
        tiles := totalTiles;
      }
      while tiles > 0
        invariant Valid() && !thrown
        invariant tiles > 0 ==> Decode(State(), IO(sock.q, display.fb), r) == end
        invariant tiles == 0 ==> (State(), IO(sock.q, display.fb), Finished) == end
      {
        if sock.Wait(1) {
          return false, false;
        }
        if sock.q[0] > 30 {
          return false, true;
        }
        ghost var h, fb := State(), display.fb;
        TileFits(h, r);
        var t := Current(r);
        var bytes := Expected(sock.q, t);
        if bytes.None? || sock.Wait(bytes.value) {
          return false, false;
        }
        var sub := sock.q[0];
        var ok := OneTile(sock.q, t, display);
        if !ok {
          return false, true;
        }
        DrawTileKeepsCount(h, sock.q, fb, t);
        sock.SkipBytes(bytes.value);
        lastsubencoding := sub;
        tiles := tiles - 1;
      }
      return true, false;
    }

    method Current(r: Rect) returns (t: Tile)
      requires Valid()
      ensures t == CurrentTile(State(), r)
    {
      t := TileAt(r, tilesX, if totalTiles < tiles then 0 else totalTiles - tiles);
    }
  }
}
