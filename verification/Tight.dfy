/** Tight rectangles with a palette: the compact data length, the two-colour bitmap and the index picture. */
module Tight {
  import opened Arith
  import opened Bytes
  import opened Wrappers
  import opened Canvas
  import opened DecoderIO
  import opened PackedPixels

  // The compact length

  /** The data once it is all there, or none while bytes are missing; len is the length already read, 0 for none. */
  datatype Read = Read(data: Option<seq<byte>>, len: nat, inp: seq<byte>)

  function Low7(b: byte): nat {
    b % 128
  }

  /** The 1 to 3 bytes of a length: how many, and the number. */
  function Compact(inp: seq<byte>): (nat, nat)
    requires |inp| >= 3
  {
    if inp[0] < 128 then (1, Low7(inp[0]))
    else if inp[1] < 128 then (2, Low7(inp[0]) + Low7(inp[1]) * 128)
    else (3, Low7(inp[0]) + Low7(inp[1]) * 128 + inp[2] as nat * 16384)
  }

  function TakeData(len: nat, inp: seq<byte>): Read {
    if |inp| < len then Read(None, len, inp) else Read(Some(inp[..len]), 0, inp[len..])
  }

  function ReadData(len: nat, inp: seq<byte>): Read {
    if len != 0 then TakeData(len, inp)
    else if |inp| < 3 then Read(None, 0, inp)
    else TakeData(Compact(inp).1, inp[Compact(inp).0..])
  }

  const MAX_LENGTH := 4194304

  function EncodeCompact(n: nat): (s: seq<byte>)
    requires n < MAX_LENGTH
    ensures 1 <= |s| <= 3
  {
    if n < 128 then [n]
    else if n / 128 < 128 then [n % 128 + 128, n / 128]
    else [n % 128 + 128, n / 128 % 128 + 128, n / 128 / 128]
  }

  lemma CompactRoundTrip(n: nat, rest: seq<byte>)
    requires n < MAX_LENGTH && |EncodeCompact(n)| + |rest| >= 3
    ensures var s := EncodeCompact(n) + rest; Compact(s) == (|EncodeCompact(n)|, n)
  {
    var a, q := n % 128, n / 128;
    var b, c := q % 128, q / 128;
    assert n == a + 128 * q && q == b + 128 * c;
    HighBit(a);
    HighBit(b);
    var s := EncodeCompact(n) + rest;
    hide Low7;
    if n < 128 {
    } else if q < 128 {
      assert s[0] == a + 128 && s[1] == q;
      HighBit(q);
    } else {
      assert s[0] == a + 128 && s[1] == b + 128 && s[2] == c;
    }
  }

  lemma HighBit(r: nat)
    requires r < 128
    ensures Low7(r + 128) == r && Low7(r) == r
  {
  }

  /** Data with its length before it is read back whole, provided three bytes are there to look at. */
  lemma DataRoundTrip(data: seq<byte>, rest: seq<byte>)
    requires |data| < MAX_LENGTH && |EncodeCompact(|data|)| + |data| + |rest| >= 3
    ensures ReadData(0, EncodeCompact(|data|) + data + rest) == Read(Some(data), 0, rest)
  {
    var head := EncodeCompact(|data|);
    var s := head + (data + rest);
    assert s == head + data + rest;
    CompactRoundTrip(|data|, data + rest);
    assert s[|head|..] == data + rest;
    assert (data + rest)[..|data|] == data && (data + rest)[|data|..] == rest;
  }

  /** When data comes out, for every cut of a stream that starts with it: exactly when length and data are
      there whole and three bytes have arrived, whether or not they belong to the data. */
  lemma DataOutIff(data: seq<byte>, rest: seq<byte>, n: nat)
    requires |data| < MAX_LENGTH && n <= |EncodeCompact(|data|) + data + rest|
    ensures var r := ReadData(0, (EncodeCompact(|data|) + data + rest)[..n]);
            && (r.data.Some? <==> n >= 3 && n >= |EncodeCompact(|data|)| + |data|)
            && (r.data.Some? ==> r.data.value == data)
  {
    var head, s := EncodeCompact(|data|), EncodeCompact(|data|) + data + rest;
    var t := s[..n];
    if n >= 3 {
      var more := s[|head|..];
      assert s == head + more;
      CompactRoundTrip(|data|, more);
      assert Compact(t) == Compact(s) == (|head|, |data|);
      hide EncodeCompact, Compact;
      Behind(head, data, rest, n);
    }
  }

  lemma Behind(head: seq<byte>, data: seq<byte>, rest: seq<byte>, n: nat)
    requires |head| <= n <= |head + data + rest|
    ensures var t := (head + data + rest)[..n];
            |t[|head|..]| == n - |head| && (n >= |head| + |data| ==> t[|head|..][..|data|] == data)
  {
  }

  /** A rectangle's data that ends the stream comes out if and only if it has two bytes or more: shorter
      data waits for the next message. */
  lemma LastDataOutIff(data: seq<byte>)
    requires |data| < MAX_LENGTH
    ensures ReadData(0, EncodeCompact(|data|) + data).data.Some? <==> |data| >= 2
  {
    var s := EncodeCompact(|data|) + data;
    assert s + [] == s && s[..|s|] == s;
    DataOutIff(data, [], |s|);
  }

  /** Reading goes on after a wait as if all bytes had been there at once. */
  lemma ReadResumes(len: nat, inp: seq<byte>, more: seq<byte>)
    ensures var r := ReadData(len, inp); var all := ReadData(len, inp + more);
            if r.data.Some? then all == r.(inp := r.inp + more) else ReadData(r.len, r.inp + more) == all
  {
    var r := ReadData(len, inp);
    if len != 0 {
      TakeResumes(len, inp, more);
    } else if |inp| >= 3 {
      var c := Compact(inp);
      assert Compact(inp + more) == c;
      assert (inp + more)[c.0..] == inp[c.0..] + more;
      TakeResumes(c.1, inp[c.0..], more);
    }
  }

  lemma TakeResumes(len: nat, inp: seq<byte>, more: seq<byte>)
    ensures var r := TakeData(len, inp); var all := TakeData(len, inp + more);
            if r.data.Some? then all == r.(inp := r.inp + more) else r == Read(None, len, inp)
  {
    if |inp| >= len {
      assert (inp + more)[..len] == inp[..len] && (inp + more)[len..] == inp[len..] + more;
    }
  }

  // The two pictures

  /** Room for 256 colours of four bytes; the palette in use fills the front. */
  type Palette = p: seq<byte> | |p| == 1024 witness seq(1024, _ => 0)

  function Entry(p: Palette, index: byte): Pixel {
    Opaque(ColorAt(p, 3 * index))
  }

  const BLACK := Opaque(Color(0, 0, 0))

  /** Two colours, one bit a pixel. */
  function Mono(p: Palette, data: seq<byte>, w: nat, h: nat): (r: seq<Pixel>)
    requires |data| >= h * RowBytes(w, 1)
    ensures |r| == w * h
  {
    seq(w * h, k requires 0 <= k < w * h => GridCell(w, h, k); MonoAt(p, data, w, h, k))
  }

  function MonoAt(p: Palette, data: seq<byte>, w: nat, h: nat, k: nat): Pixel
    requires |data| >= h * RowBytes(w, 1) && w > 0 && k / w < h
  {
    Entry(p, BitAt(data, w, h, k % w, k / w))
  }

  function BitAt(data: seq<byte>, w: nat, h: nat, x: nat, y: nat): (b: byte)
    requires |data| >= h * RowBytes(w, 1) && x < w && y < h
    ensures b < 2
  {
    assert Pow2(1) == 2;
    IndexAt(data, w, h, 1, x, y)
  }

  /** One byte a pixel; reading past the data gives an undefined colour, which is stored as black. */
  function Indexed(p: Palette, data: seq<byte>, n: nat): (r: seq<Pixel>)
    ensures |r| == n
  {
    seq(n, k requires 0 <= k => if k < |data| then Entry(p, data[k]) else BLACK)
  }

  /** A bitmap packed by rows is drawn with every pixel in the colour its bit names, for every width. */
  lemma {:induction false} MonoDrawsTheBits(p: Palette, rows: seq<seq<nat>>, w: nat, rest: seq<byte>, x: nat, y: nat)
    requires RowsFit(rows, w, 1) && x < w && y < |rows|
    ensures |PackRows(rows, 1)| == |rows| * RowBytes(w, 1) && rows[y][x] < 2
    ensures y * w + x < w * |rows|
    ensures Mono(p, PackRows(rows, 1) + rest, w, |rows|)[y * w + x] == Entry(p, rows[y][x])
  {
    assert Pow2(1) == 2;
    GridBound(w, |rows|, x, y);
    DivisionUnique(y * w + x, w, y, x);
    RowsUnpack(rows, w, 1, rest, x, y);
    hide RowBytes, PackRows, IndexAt;
  }

  // The palette filter

  datatype State = State(numColors: nat, palette: Palette, len: nat)

  datatype Outcome =
    | Wait(st: State, inp: seq<byte>)
    | Drawn(pixels: seq<Pixel>, st: State, inp: seq<byte>)
    | NoArea(st: State, inp: seq<byte>)
    | Threw

  function RowSize(numColors: nat, w: nat): nat {
    if numColors <= 2 then (w + 7) / 8 else w
  }

  function Picture(st: State, data: seq<byte>, w: nat, h: nat): (r: seq<Pixel>)
    requires |data| >= RowSize(st.numColors, w) * h
  {
    if st.numColors == 2 then
      assert RowSize(2, w) == RowBytes(w, 1);
      Mono(st.palette, data, w, h)
    else Indexed(st.palette, data, w * h)
  }

  /** Three bytes for each of one colour more than the byte says. */
  function PaletteBytes(b: byte): (n: nat)
    ensures n <= 768
  {
    3 * (b as nat + 1)
  }

  function ReadPalette(st: State, inp: seq<byte>): Outcome {
    if st.numColors != 0 then NoArea(st, inp)
    else if |inp| < 1 || |inp| < 1 + PaletteBytes(inp[0]) then Wait(st, inp)
    else
      var n := PaletteBytes(inp[0]);
      NoArea(State(n / 3, inp[1..1 + n] + st.palette[n..], st.len), inp[1 + n..])
  }

  /** inflate stands for the zlib stream: the bytes it gives for the data, or none when there are not as many as asked. */
  function Draw(st: State, inp: seq<byte>, w: nat, h: nat, inflate: (seq<byte>, nat) -> Option<seq<byte>>): Outcome {
    var size := RowSize(st.numColors, w) * h;
    if size == 0 then NoArea(st, inp)
    else if size < 12 then
      if |inp| < size then Wait(st, inp) else Drawn(Picture(st, inp[..size], w, h), st.(numColors := 0), inp[size..])
    else
      var r := ReadData(st.len, inp);
      var t := st.(len := r.len);
      if r.data.None? then Wait(t, r.inp) else
        match inflate(r.data.value, size)
        case None => Threw
        case Some(data) => if |data| != size then Threw else Drawn(Picture(t, data, w, h), t.(numColors := 0), r.inp)
  }

  function PaletteFilter(st: State, inp: seq<byte>, w: nat, h: nat, inflate: (seq<byte>, nat) -> Option<seq<byte>>): Outcome {
    var p := ReadPalette(st, inp);
    if p.Wait? then p else Draw(p.st, p.inp, w, h, inflate)
  }

  function More(o: Outcome, more: seq<byte>): Outcome {
    match o
    case Threw => Threw
    case Wait(st, inp) => Wait(st, inp + more)
    case Drawn(pixels, st, inp) => Drawn(pixels, st, inp + more)
    case NoArea(st, inp) => NoArea(st, inp + more)
  }

  lemma ReadPaletteResumes(st: State, inp: seq<byte>, more: seq<byte>)
    ensures var p := ReadPalette(st, inp);
            p.Wait? ==> p == Wait(st, inp)
    ensures !ReadPalette(st, inp).Wait? ==> ReadPalette(st, inp + more) == More(ReadPalette(st, inp), more)
    ensures var p := ReadPalette(st, inp); !p.Wait? ==> p.NoArea? && p.st.numColors != 0
  {
    if st.numColors == 0 && |inp| >= 1 && |inp| >= 1 + PaletteBytes(inp[0]) {
      var n := PaletteBytes(inp[0]);
      assert (inp + more)[1..1 + n] == inp[1..1 + n];
      assert (inp + more)[1 + n..] == inp[1 + n..] + more;
    }
  }

  lemma {:induction false} DrawResumes(st: State, inp: seq<byte>, w: nat, h: nat, inflate: (seq<byte>, nat) -> Option<seq<byte>>, more: seq<byte>)
    ensures var o := Draw(st, inp, w, h, inflate); var all := Draw(st, inp + more, w, h, inflate);
            if o.Wait? then o.st.numColors == st.numColors && Draw(o.st, o.inp + more, w, h, inflate) == all
            else all == More(o, more)
  {
    hide Picture;
    var size := RowSize(st.numColors, w) * h;
    if 0 < size < 12 {
      if |inp| >= size {
        assert (inp + more)[..size] == inp[..size] && (inp + more)[size..] == inp[size..] + more;
      }
    } else {
      hide ReadData;
      ReadResumes(st.len, inp, more);
    }
  }

  /** A palette rectangle is independent of how its bytes arrive: waiting and going on is the same as having them at once. */
  lemma {:induction false} PaletteFilterResumes(st: State, inp: seq<byte>, w: nat, h: nat, inflate: (seq<byte>, nat) -> Option<seq<byte>>, more: seq<byte>)
    ensures var o := PaletteFilter(st, inp, w, h, inflate); var all := PaletteFilter(st, inp + more, w, h, inflate);
            if o.Wait? then PaletteFilter(o.st, o.inp + more, w, h, inflate) == all else all == More(o, more)
  {
    hide Draw, ReadPalette;
    ReadPaletteResumes(st, inp, more);
    var p := ReadPalette(st, inp);
    if !p.Wait? {
      DrawResumes(p.st, p.inp, w, h, inflate, more);
      var o := Draw(p.st, p.inp, w, h, inflate);
      if o.Wait? {
        PaletteKnown(o.st, o.inp + more);
      }
    }
  }

  lemma PaletteKnown(st: State, inp: seq<byte>)
    ensures st.numColors != 0 ==> ReadPalette(st, inp) == NoArea(st, inp)
  {
  }

  /** The palette is forgotten after a rectangle exactly when the rectangle had an area. */
  lemma PaletteForgottenIff(st: State, inp: seq<byte>, w: nat, h: nat, inflate: (seq<byte>, nat) -> Option<seq<byte>>)
    requires PaletteFilter(st, inp, w, h, inflate).Drawn? || PaletteFilter(st, inp, w, h, inflate).NoArea?
    ensures PaletteFilter(st, inp, w, h, inflate).st.numColors == 0 <==> w * h != 0
  {
    ReadPaletteResumes(st, inp, []);
    var p := ReadPalette(st, inp);
    var rowSize := RowSize(p.st.numColors, w);
    assert rowSize == 0 <==> w == 0;
    assert rowSize * h == 0 <==> w * h == 0 by {
      if w > 0 && h > 0 {
        PositiveProduct(w, h);
        PositiveProduct(rowSize, h);
      }
    }
  }

  /** So the rectangle after one without area is drawn with the palette before it, and its own is taken for picture data. */
  lemma PaletteNotReread(st: State, inp: seq<byte>, w: nat, h: nat, inflate: (seq<byte>, nat) -> Option<seq<byte>>,
                         inp': seq<byte>, w': nat, h': nat)
    requires w * h == 0 && PaletteFilter(st, inp, w, h, inflate).NoArea?
    ensures var left := PaletteFilter(st, inp, w, h, inflate).st;
            PaletteFilter(left, inp', w', h', inflate) == Draw(left, inp', w', h', inflate)
  {
    PaletteForgottenIff(st, inp, w, h, inflate);
  }

  /** A one-colour picture comes with one bit a pixel but is read with one byte a pixel: it is right only when no row is wider
      than its byte, or the colour is the black that missing data give. */
  lemma OneColourIff(st: State, w: nat, h: nat)
    requires st.numColors == 1
    ensures var data: seq<byte> := seq(RowSize(1, w) * h, _ => 0);
            (forall k :: 0 <= k < w * h ==> Picture(st, data, w, h)[k] == Entry(st.palette, 0))
            <==> w * h <= RowSize(1, w) * h || Entry(st.palette, 0) == BLACK
  {
    var data: seq<byte> := seq(RowSize(1, w) * h, _ => 0);
    var picture := Picture(st, data, w, h);
    if w * h > RowSize(1, w) * h {
      assert picture[|data|] == BLACK;
    }
  }
}
