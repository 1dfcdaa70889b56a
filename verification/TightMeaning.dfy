/** What a Tight rectangle with a palette means: its colours, one for every pixel, whichever of the two ways the
    indices are packed and whether or not they are compressed. */
module TightMeaning {
  import opened Arith
  import opened Bytes
  import opened Wrappers
  import opened Canvas
  import opened DecoderIO
  import opened PackedPixels
  import opened Tight
  import Z = ZrleTiles

  // ----- the encoder -----

  /** One byte an index, row after row. */
  function IndexBytes(rows: seq<seq<byte>>): seq<byte> {
    if rows == [] then [] else rows[0] + IndexBytes(rows[1..])
  }

  /** Two colours take one bit a pixel, more take a byte. */
  function Packing(colors: nat, rows: seq<seq<byte>>): seq<byte>
    requires colors == 2 ==> forall j, i :: 0 <= j < |rows| && 0 <= i < |rows[j]| ==> rows[j][i] < 2
  {
    assert Pow2(1) == 2;
    if colors == 2 then PackRows(rows, 1) else IndexBytes(rows)
  }

  /** A picture of w columns whose indices stay in the palette. */
  predicate PictureOk(colors: seq<Color>, rows: seq<seq<byte>>, w: nat) {
    && 2 <= |colors| <= 256 && w > 0 && rows != []
    && (forall j :: 0 <= j < |rows| ==> |rows[j]| == w)
    && forall j, i :: 0 <= j < |rows| && 0 <= i < |rows[j]| ==> rows[j][i] < |colors|
  }

  /** Twelve bytes or more are compressed: zipped is what a deflater made of them. */
  function Body(data: seq<byte>, zipped: seq<byte>): seq<byte>
    requires |zipped| < MAX_LENGTH
  {
    if |data| < 12 then data else EncodeCompact(|zipped|) + zipped
  }

  function Wire(colors: seq<Color>, rows: seq<seq<byte>>, w: nat, zipped: seq<byte>): seq<byte>
    requires PictureOk(colors, rows, w) && |zipped| < MAX_LENGTH
  {
    [|colors| - 1] + Z.PlainAll(colors) + Body(Packing(|colors|, rows), zipped)
  }

  // ----- the decoder inverts it -----

  lemma {:induction false} IndexAtByte(rows: seq<seq<byte>>, w: nat, x: nat, y: nat)
    requires (forall j :: 0 <= j < |rows| ==> |rows[j]| == w) && x < w && y < |rows|
    ensures |IndexBytes(rows)| == |rows| * w && y * w + x < |rows| * w
    ensures IndexBytes(rows)[y * w + x] == rows[y][x]
    decreases |rows|
  {
    IndexBytesSize(rows, w);
    IndexBytesSize(rows[1..], w);
    GridBound(w, |rows|, x, y);
    if y > 0 {
      IndexAtByte(rows[1..], w, x, y - 1);
      assert y * w + x == w + ((y - 1) * w + x);
    }
  }

  lemma {:induction false} IndexBytesSize(rows: seq<seq<byte>>, w: nat)
    requires forall j :: 0 <= j < |rows| ==> |rows[j]| == w
    ensures |IndexBytes(rows)| == |rows| * w
    decreases |rows|
  {
    if rows != [] {
      IndexBytesSize(rows[1..], w);
      assert |rows| * w == w + (|rows| - 1) * w;
    }
  }

  lemma {:induction false} PackingSize(colors: seq<Color>, rows: seq<seq<byte>>, w: nat)
    requires PictureOk(colors, rows, w)
    ensures |Packing(|colors|, rows)| == RowSize(|colors|, w) * |rows| > 0
  {
    assert Pow2(1) == 2;
    if |colors| == 2 {
      RowsSize(rows, w, 1);
      assert RowSize(2, w) == RowBytes(w, 1);
    } else {
      IndexBytesSize(rows, w);
    }
    PositiveProduct(RowSize(|colors|, w), |rows|);
  }

  lemma {:induction false} EntryIsColor(colors: seq<Color>, old_: Palette, index: byte)
    requires |colors| <= 256 && index < |colors|
    ensures |Z.PlainAll(colors) + old_[3 * |colors|..]| == 1024
    ensures Entry(Z.PlainAll(colors) + old_[3 * |colors|..], index) == Opaque(colors[index])
  {
    Z.PlainAt(colors, old_[3 * |colors|..], index);
  }

  /** Column x of row y of a picture of w columns. */
  predicate Shows(pixels: seq<Pixel>, w: nat, x: nat, y: nat, c: Color) {
    y * w + x < |pixels| && pixels[y * w + x] == Opaque(c)
  }

  /** Every pixel gets the colour its index names. */
  lemma {:induction false} PictureAt(colors: seq<Color>, rows: seq<seq<byte>>, w: nat, st: State, old_: Palette, x: nat, y: nat)
    requires PictureOk(colors, rows, w) && x < w && y < |rows|
    requires st.numColors == |colors| && st.palette == Z.PlainAll(colors) + old_[3 * |colors|..]
    ensures var data := Packing(|colors|, rows);
            |data| == RowSize(|colors|, w) * |rows| && Shows(Picture(st, data, w, |rows|), w, x, y, colors[rows[y][x]])
  {
    PackingSize(colors, rows, w);
    EntryIsColor(colors, old_, rows[y][x]);
    GridBound(w, |rows|, x, y);
    if |colors| == 2 {
      assert Pow2(1) == 2;
      MonoDrawsTheBits(st.palette, rows, w, [], x, y);
      assert PackRows(rows, 1) + [] == PackRows(rows, 1);
    } else {
      IndexAtByte(rows, w, x, y);
    }
  }

  lemma {:induction false} PaletteRead(colors: seq<Color>, st: State, body: seq<byte>)
    requires 2 <= |colors| <= 256 && st.numColors == 0
    ensures var palette := Z.PlainAll(colors) + st.palette[3 * |colors|..];
            ReadPalette(st, [|colors| - 1] + Z.PlainAll(colors) + body) == NoArea(State(|colors|, palette, st.len), body)
  {
    hide Z.PlainAll;
    var n, front := |colors|, Z.PlainAll(colors);
    var inp := [n - 1] + front + body;
    assert inp[0] == n - 1 && PaletteBytes(inp[0]) == 3 * n;
    assert inp[1..1 + 3 * n] == front && inp[1 + 3 * n..] == body;
  }

  lemma {:induction false} BodyDrawn(st: State, data: seq<byte>, zipped: seq<byte>, w: nat, h: nat,
                                     inflate: (seq<byte>, nat) -> Option<seq<byte>>, rest: seq<byte>)
    requires st.numColors != 0 && st.len == 0 && |data| == RowSize(st.numColors, w) * h > 0 && 2 <= |zipped| < MAX_LENGTH
    requires |data| >= 12 ==> inflate(zipped, |data|) == Some(data)
    ensures Tight.Draw(st, Body(data, zipped) + rest, w, h, inflate) == Drawn(Picture(st, data, w, h), st.(numColors := 0), rest)
  {
    hide Picture, EncodeCompact, RowSize;
    var inp := Body(data, zipped) + rest;
    if |data| < 12 {
      assert inp[..|data|] == data && inp[|data|..] == rest;
    } else {
      DataRoundTrip(zipped, rest);
      assert ReadData(0, inp) == Read(Some(zipped), 0, rest);
      assert st.(len := 0) == st;
    }
  }

  /** Meaning of a palette rectangle: for every palette of 2 to 256 colours and every picture in it, compressed
      or not, and whatever follows, the decoder draws each pixel in its own colour, leaves the bytes behind the
      rectangle, and is ready for the next palette. */
  lemma {:induction false} PaletteRectDrawn(st: State, colors: seq<Color>, rows: seq<seq<byte>>, w: nat, zipped: seq<byte>,
                                            inflate: (seq<byte>, nat) -> Option<seq<byte>>, rest: seq<byte>)
    requires PictureOk(colors, rows, w) && st.numColors == 0 && st.len == 0 && 2 <= |zipped| < MAX_LENGTH
    requires var data := Packing(|colors|, rows); |data| >= 12 ==> inflate(zipped, |data|) == Some(data)
    ensures var o := PaletteFilter(st, Wire(colors, rows, w, zipped) + rest, w, |rows|, inflate);
            && o.Drawn? && o.inp == rest && o.st.numColors == 0 && o.st.len == 0
            && forall x, y :: 0 <= x < w && 0 <= y < |rows| ==> Shows(o.pixels, w, x, y, colors[rows[y][x]])
  {
    var h, data := |rows|, Packing(|colors|, rows);
    var body := Body(data, zipped) + rest;
    var t := State(|colors|, Z.PlainAll(colors) + st.palette[3 * |colors|..], 0);
    assert Wire(colors, rows, w, zipped) + rest == [|colors| - 1] + Z.PlainAll(colors) + body;
    PaletteRead(colors, st, body);
    PackingSize(colors, rows, w);
    BodyDrawn(t, data, zipped, w, h, inflate, rest);
    PictureAll(colors, rows, w, t, st.palette);
    hide Picture, ReadPalette, Tight.Draw, Packing, Body, Wire, RowSize, PictureOk, Z.PlainAll, Shows;
  }

  lemma {:induction false} PictureAll(colors: seq<Color>, rows: seq<seq<byte>>, w: nat, st: State, old_: Palette)
    requires PictureOk(colors, rows, w)
    requires st.numColors == |colors| && st.palette == Z.PlainAll(colors) + old_[3 * |colors|..]
    ensures var data := Packing(|colors|, rows);
            && |data| == RowSize(|colors|, w) * |rows|
            && forall x, y :: 0 <= x < w && 0 <= y < |rows| ==> Shows(Picture(st, data, w, |rows|), w, x, y, colors[rows[y][x]])
  {
    PackingSize(colors, rows, w);
    hide Picture, Packing, RowSize, Z.PlainAll, Shows;
    forall x, y | 0 <= x < w && 0 <= y < |rows|
      ensures Shows(Picture(st, Packing(|colors|, rows), w, |rows|), w, x, y, colors[rows[y][x]])
    {
      PictureAt(colors, rows, w, st, old_, x, y);
    }
  }
}
