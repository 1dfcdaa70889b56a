/** The Tight decoder's palette path as it runs: fields kept across calls, loops writing a scratch buffer. */
module TightClass {
  import opened Arith
  import opened Bytes
  import opened Wrappers
  import opened Canvas
  import opened DecoderIO
  import opened PackedPixels
  import opened Tight

  /** Only the pixels of the rectangle are taken from a longer buffer. */
  lemma {:induction false} PutPrefix(fb: Image, r: Rect, buffer: seq<Pixel>, want: seq<Pixel>)
    requires |want| == r.w * r.h <= |buffer| && buffer[..r.w * r.h] == want
    ensures Put(fb, r.x, r.y, r.w, r.h, buffer) == Put(fb, r.x, r.y, r.w, r.h, want)
  {
    hide Put;
    var n := r.w * r.h;
    assert forall k :: 0 <= k < n ==> buffer[k] == buffer[..n][k];
    PutSame(fb, r.x, r.y, r.w, r.h, buffer, want);
  }

  class Decoder {
    const palette: array<byte>
    var numColors: nat
    var len: nat
    var scratch: array<Pixel>

    ghost predicate Valid() {
      palette.Length == 1024
    }

    ghost function Value(): State
      requires Valid()
      reads this, palette
    {
      State(numColors, palette[..], len)
    }

    constructor ()
      ensures Valid() && fresh(palette) && fresh(scratch) && numColors == 0 && len == 0
    {
      palette := new byte[1024](_ => 0);
      numColors, len := 0, 0;
      scratch := new Pixel[0];
    }

    method ReadData(sock: Sock) returns (data: Option<seq<byte>>)
      modifies this`len, sock
      ensures Read(data, len, sock.q) == Tight.ReadData(old(len), old(sock.q))
    {
      if len == 0 {
        if sock.Wait(3) {
          return None;
        }
        ghost var inp := sock.q;
        var b := sock.q[0];
        sock.SkipBytes(1);
        len := b % 128;
        if b >= 128 {
          b := sock.q[0];
          sock.SkipBytes(1);
          len := len + (b % 128) as nat * 128;
          if b >= 128 {
            b := sock.q[0];
            sock.SkipBytes(1);
            len := len + b as nat * 16384;
          }
        }
        assert (Compact(inp).0 <= |inp| && len == Compact(inp).1 && sock.q == inp[Compact(inp).0..]);
      }
      if sock.Wait(len) {
        return None;
      }
      data := Some(sock.q[..len]);
      sock.SkipBytes(len);
      len := 0;
    }

    /** One pixel: bit b of a data byte picks one of the two colours. */
    method PutBit(dest: array<Pixel>, dp: nat, data: byte, b: nat)
      requires Valid() && b < 8 && dp < dest.Length
      modifies dest
      ensures dest[..] == old(dest[..])[dp := Entry(palette[..], Bit(data, b))]
    {
      var sp := Bit(data, b) * 3;
      dest[dp] := Opaque(Color(palette[sp], palette[sp + 1], palette[sp + 2]));
    }

    /** One row of the bitmap: its whole bytes, then the top bits of the last one. */
    method MonoRow(dest: array<Pixel>, w: nat, from: nat, bytes: seq<byte>)
      requires Valid() && from + w <= dest.Length && |bytes| == (w + 7) / 8
      modifies dest
      ensures dest[..from] == old(dest[..from])
      ensures forall i :: 0 <= i < w ==> dest[from + i] == Entry(palette[..], Bit(bytes[i / 8], 7 - i % 8))
    {
      hide Entry, Bit;
      var w1 := w / 8;
      var x := 0;
      while x < w1
        invariant x <= w1
        invariant dest[..from] == old(dest[..from])
        invariant forall i :: 0 <= i < 8 * x ==> dest[from + i] == Entry(palette[..], Bit(bytes[i / 8], 7 - i % 8))
      {
        MonoByte(dest, from, 8 * x, 8, bytes);
        x := x + 1;
      }
      MonoByte(dest, from, 8 * x, w % 8, bytes);
    }

    /** The top `count` bits of the byte that starts at column c, most significant first. */
    method MonoByte(dest: array<Pixel>, from: nat, c: nat, count: nat, bytes: seq<byte>)
      requires Valid() && count <= 8 && c % 8 == 0 && from + c + count <= dest.Length && (count > 0 ==> c / 8 < |bytes|)
      requires (c + count + 7) / 8 <= |bytes|
      requires forall i :: 0 <= i < c ==> dest[from + i] == Entry(palette[..], Bit(bytes[i / 8], 7 - i % 8))
      modifies dest
      ensures dest[..from] == old(dest[..from])
      ensures forall i :: 0 <= i < c + count ==> dest[from + i] == Entry(palette[..], Bit(bytes[i / 8], 7 - i % 8))
    {
      hide Entry, Bit;
      var b: int := 7;
      while b >= 8 - count
        invariant 7 - count <= b <= 7
        invariant dest[..from] == old(dest[..from])
        invariant forall i :: 0 <= i < c + 7 - b ==> dest[from + i] == Entry(palette[..], Bit(bytes[i / 8], 7 - i % 8))
        decreases b
      {
        assert (c + 7 - b) / 8 == c / 8 && 7 - (c + 7 - b) % 8 == b;
        PutBit(dest, from + c + 7 - b, bytes[c / 8], b);
        b := b - 1;
      }
    }

    method MonoRect(dest: array<Pixel>, data: seq<byte>, w: nat, h: nat)
      requires Valid() && w * h <= dest.Length && |data| == h * RowBytes(w, 1)
      modifies dest
      ensures dest[..w * h] == Mono(palette[..], data, w, h)
    {
      hide Mono, Entry, Bit;
      ghost var want := Mono(palette[..], data, w, h);
      var rowBytes := (w + 7) / 8;
      var from, at := 0, 0;
      for y := 0 to h
        invariant from == y * w <= w * h && at == y * rowBytes && dest[..from] == want[..from]
      {
        RowInside(w, h, y, rowBytes);
        var bytes := data[at..at + rowBytes];
        MonoRow(dest, w, from, bytes);
        RowJoins(palette[..], data, w, h, y, bytes, dest[..], from);
        from, at := from + w, at + rowBytes;
      }
      assert want[..h * w] == want;
    }

    method PaletteRect(dest: array<Pixel>, data: seq<byte>, total: nat)
      requires Valid() && total <= dest.Length
      modifies dest
      ensures dest[..total] == Indexed(palette[..], data, total)
    {
      for j := 0 to total
        invariant dest[..j] == Indexed(palette[..], data, total)[..j]
      {
        if j < |data| {
          var sp := data[j] as nat * 3;
          dest[j] := Opaque(Color(palette[sp], palette[sp + 1], palette[sp + 2]));
        } else {
          dest[j] := BLACK;
        }
        assert dest[..j + 1] == dest[..j] + [dest[j]];
      }
    }

    method GetScratchBuffer(size: nat)
      modifies this`scratch
      ensures scratch.Length >= size
      ensures scratch == old(scratch) || fresh(scratch)
    {
      if scratch.Length < size {
        scratch := new Pixel[size];
      }
    }

    /** Draws inflated data with the palette in use and forgets the palette. */
    method DrawPicture(r: Rect, surface: Surface, data: seq<byte>)
      requires Valid() && |data| == RowSize(numColors, r.w) * r.h
      modifies this, scratch, surface
      ensures Valid() && palette[..] == old(palette[..]) && len == old(len) && numColors == 0
      ensures scratch == old(scratch) || fresh(scratch)
      ensures surface.fb == Put(old(surface.fb), r.x, r.y, r.w, r.h, Picture(old(Value()), data, r.w, r.h))
    {
      hide Mono, Indexed, Put;
      var total := r.w * r.h;
      GetScratchBuffer(total);
      ghost var want := Picture(Value(), data, r.w, r.h);
      if numColors == 2 {
        SameRowSize(r.w, r.h);
        MonoRect(scratch, data, r.w, r.h);
      } else {
        PaletteRect(scratch, data, total);
      }
      assert scratch[..total] == want;
      PutPrefix(surface.fb, r, scratch[..], want);
      surface.fb := Put(surface.fb, r.x, r.y, r.w, r.h, scratch[..]);
      numColors := 0;
    }

    /** The palette comes first, if none is held; true means that more bytes are needed. */
    method ReadPalette(sock: Sock) returns (wait: bool)
      requires Valid()
      modifies this`numColors, palette, sock
      ensures var p := Tight.ReadPalette(old(Value()), old(sock.q));
              wait == p.Wait? && !p.Threw? && Value() == p.st && sock.q == p.inp
    {
      if numColors != 0 {
        return false;
      }
      if sock.Wait(1) {
        return true;
      }
      var n := sock.q[0] as nat + 1;
      var paletteSize := n * 3;
      if sock.Wait(1 + paletteSize) {
        return true;
      }
      ghost var inp, was := sock.q, palette[..];
      numColors := n;
      sock.SkipBytes(1);
      var colors := sock.q[..paletteSize];
      for i := 0 to paletteSize
        invariant palette[..i] == colors[..i] && palette[i..] == was[i..]
        invariant numColors == n && sock.q == inp[1..]
      {
        ghost var later := palette[i..];
        palette[i] := colors[i];
        assert palette[..i + 1] == palette[..i] + [palette[i]];
        assert palette[i + 1..] == later[1..];
      }
      sock.SkipBytes(paletteSize);
      assert palette[..] == palette[..paletteSize] + palette[paletteSize..];
      assert colors == inp[1..1 + paletteSize];
      wait := false;
    }

    /** The filter once its palette is known. */
    method DrawFiltered(r: Rect, sock: Sock, surface: Surface, inflate: (seq<byte>, nat) -> Option<seq<byte>>) returns (v: Verdict)
      requires Valid()
      modifies this, scratch, sock, surface
      ensures Valid() && (scratch == old(scratch) || fresh(scratch))
      ensures match Tight.Draw(old(Value()), old(sock.q), r.w, r.h, inflate)
              case Threw => v == Broken && surface.fb == old(surface.fb)
              case Wait(st, inp) => v == Blocked && Value() == st && sock.q == inp && surface.fb == old(surface.fb)
              case NoArea(st, inp) => v == Finished && Value() == st && sock.q == inp && surface.fb == old(surface.fb)
              case Drawn(pixels, st, inp) =>
                && v == Finished && Value() == st && sock.q == inp
                && surface.fb == Put(old(surface.fb), r.x, r.y, r.w, r.h, pixels)
    {
      hide Picture, Put, Tight.ReadData;
      var bpp := if numColors <= 2 then 1 else 8;
      var rowSize := (r.w * bpp + 7) / 8;
      assert rowSize == RowSize(numColors, r.w);
      var uncompressedSize := rowSize * r.h;
      if uncompressedSize == 0 {
        return Finished;
      }
      var data: seq<byte>;
      if uncompressedSize < 12 {
        if sock.Wait(uncompressedSize) {
          return Blocked;
        }
        data := sock.q[..uncompressedSize];
        sock.SkipBytes(uncompressedSize);
      } else {
        var packed := ReadData(sock);
        if packed.None? {
          return Blocked;
        }
        var inflated := inflate(packed.value, uncompressedSize);
        if inflated.None? || |inflated.value| != uncompressedSize {
          return Broken;
        }
        data := inflated.value;
      }
      DrawPicture(r, surface, data);
      v := Finished;
    }

    /** _paletteFilter, called again with the same rectangle while it answers Blocked. */
    method PaletteFilter(r: Rect, sock: Sock, surface: Surface, inflate: (seq<byte>, nat) -> Option<seq<byte>>) returns (v: Verdict)
      requires Valid()
      modifies this, palette, scratch, sock, surface
      ensures Valid() && (scratch == old(scratch) || fresh(scratch))
      ensures match Tight.PaletteFilter(old(Value()), old(sock.q), r.w, r.h, inflate)
              case Threw => v == Broken && surface.fb == old(surface.fb)
              case Wait(st, inp) => v == Blocked && Value() == st && sock.q == inp && surface.fb == old(surface.fb)
              case NoArea(st, inp) => v == Finished && Value() == st && sock.q == inp && surface.fb == old(surface.fb)
              case Drawn(pixels, st, inp) =>
                && v == Finished && Value() == st && sock.q == inp
                && surface.fb == Put(old(surface.fb), r.x, r.y, r.w, r.h, pixels)
    {
      hide Tight.Draw, Tight.ReadPalette, Put;
      var wait := ReadPalette(sock);
      if wait {
        return Blocked;
      }
      v := DrawFiltered(r, sock, surface, inflate);
    }
  }

  lemma SameRowSize(w: nat, h: nat)
    ensures RowSize(2, w) == RowBytes(w, 1) && RowSize(2, w) * h == h * RowBytes(w, 1)
  {
  }

  lemma RowInside(w: nat, h: nat, y: nat, rowBytes: nat)
    requires y < h
    ensures y * w + w == (y + 1) * w && (y + 1) * w <= w * h
    ensures y * rowBytes + rowBytes <= h * rowBytes
  {
    MulMonotone(y + 1, h, w);
    MulMonotone(y + 1, h, rowBytes);
    assert (y + 1) * rowBytes == y * rowBytes + rowBytes;
  }

  lemma {:induction false} MonoPixel(p: Palette, data: seq<byte>, w: nat, h: nat, i: nat, y: nat, bytes: seq<byte>)
    requires i < w && y < h && |data| == h * RowBytes(w, 1) && y * RowBytes(w, 1) + RowBytes(w, 1) <= |data|
    requires bytes == data[y * RowBytes(w, 1)..y * RowBytes(w, 1) + RowBytes(w, 1)]
    ensures y * w + i < w * h && (y * w + i) / w == y && i / 8 < |bytes|
    ensures Entry(p, Bit(bytes[i / 8], 7 - i % 8)) == MonoAt(p, data, w, h, y * w + i)
  {
    GridBound(w, h, i, y);
    DivisionUnique(y * w + i, w, y, i);
    ByteInRow(i, w, 1);
    assert ByteOf(i, 1) == i / 8 && BitOf(i, 1) == i % 8;
    assert Pow2(1) == 2;
    var b := bytes[i / 8];
    hide RowBytes, Entry;
    assert b == data[y * RowBytes(w, 1) + ByteOf(i, 1)];
    assert Field(b, BitOf(i, 1), 1) == Bit(b, 7 - i % 8);
  }

  lemma {:induction false} RowJoins(p: Palette, data: seq<byte>, w: nat, h: nat, y: nat, bytes: seq<byte>, dest: seq<Pixel>, from: nat)
    requires y < h && |data| == h * RowBytes(w, 1) && y * RowBytes(w, 1) + RowBytes(w, 1) <= |data|
    requires bytes == data[y * RowBytes(w, 1)..y * RowBytes(w, 1) + RowBytes(w, 1)]
    requires from == y * w && from + w <= w * h <= |dest|
    requires dest[..from] == Mono(p, data, w, h)[..from]
    requires forall i :: 0 <= i < w ==> dest[from + i] == Entry(p, Bit(bytes[i / 8], 7 - i % 8))
    ensures dest[..from + w] == Mono(p, data, w, h)[..from + w]
  {
    var want := Mono(p, data, w, h);
    forall k | 0 <= k < from + w
      ensures dest[k] == want[k]
    {
      if k < from {
        assert dest[k] == dest[..from][k] && want[k] == want[..from][k];
      } else {
        var i := k - from;
        MonoPixel(p, data, w, h, i, y, bytes);
        hide Bit, Entry, MonoAt, RowBytes;
        assert dest[from + i] == Entry(p, Bit(bytes[i / 8], 7 - i % 8));
      }
    }
  }

  /** data >> b & 1 */
  function Bit(data: byte, b: nat): (r: byte)
    ensures r < 2
  {
    data / Pow2(b) % 2
  }
}
