/** Canvases as finite maps from coordinates to pixels, with the HTML canvas operations the viewer uses. */
module Canvas {
  import opened Arith
  import opened Bytes

  datatype Color = Color(r: byte, g: byte, b: byte)

  /** A canvas starts transparent; everything the decoders draw is opaque. */
  datatype Pixel = Transparent | Opaque(color: Color)

  type Point = (int, int)
  type Image = map<Point, Pixel>

  predicate InBox(p: Point, x: int, y: int, w: int, h: int) {
    x <= p.0 < x + w && y <= p.1 < y + h
  }

  ghost predicate HasSize(img: Image, w: int, h: int) {
    forall p: Point {:trigger p in img} {:trigger InBox(p, 0, 0, w, h)} :: p in img <==> InBox(p, 0, 0, w, h)
  }

  function Blank(w: nat, h: nat): (img: Image)
    ensures HasSize(img, w, h) && forall p <- img :: img[p] == Transparent
  {
    map x: int, y: int | 0 <= x < w && 0 <= y < h :: (x, y) := Transparent
  }

  /** Setting a canvas size after saving its picture: what still fits is kept, new area is transparent. */
  function Resized(img: Image, w: nat, h: nat): (r: Image)
    ensures HasSize(r, w, h) && forall p <- r :: r[p] == if p in img then img[p] else Transparent
  {
    map p | p in Blank(w, h) :: if p in img then img[p] else Transparent
  }

  function Fill(img: Image, x: int, y: int, w: int, h: int, c: Color): (r: Image)
    ensures r.Keys == img.Keys
  {
    map p | p in img :: if InBox(p, x, y, w, h) then Opaque(c) else img[p]
  }

  /** The pixel a row-major array of width w has at column dx and row dy. */
  function RowMajor(w: int, dx: int, dy: int): int {
    dy * w + dx
  }

  lemma {:induction false} RowMajorInside(w: nat, h: nat, dx: int, dy: int)
    requires 0 <= dx < w && 0 <= dy < h
    ensures 0 <= RowMajor(w, dx, dy) < w * h
  {
    GridBound(w, h, dx, dy);
  }

  /** putImageData: row-major pixels replace what was there. */
  function Put(img: Image, x: int, y: int, w: int, h: int, data: seq<Pixel>): (r: Image)
    ensures r.Keys == img.Keys
  {
    map p | p in img ::
      var k := RowMajor(w, p.0 - x, p.1 - y);
      if InBox(p, x, y, w, h) && 0 <= k < |data| then data[k] else img[p]
  }

  /** Only the first w * h pixels of a buffer reach the canvas. */
  lemma {:induction false} PutSame(fb: Image, x: int, y: int, w: nat, h: nat, a: seq<Pixel>, b: seq<Pixel>)
    requires w * h <= |a| && w * h <= |b| && forall k :: 0 <= k < w * h ==> a[k] == b[k]
    ensures Put(fb, x, y, w, h, a) == Put(fb, x, y, w, h, b)
  {
    hide RowMajor;
    var n := w * h;
    var one, two := Put(fb, x, y, w, h, a), Put(fb, x, y, w, h, b);
    forall p | p in fb
      ensures one[p] == two[p]
    {
      if InBox(p, x, y, w, h) {
        RowMajorInside(w, h, p.0 - x, p.1 - y);
      }
    }
  }

  /** drawImage: opaque source pixels replace, transparent ones leave what was there. */
  function Draw(img: Image, src: Image, sx: int, sy: int, x: int, y: int, w: int, h: int): (r: Image)
    ensures r.Keys == img.Keys
  {
    map p | p in img ::
      var q := (p.0 - x + sx, p.1 - y + sy);
      if InBox(p, x, y, w, h) && q in src && src[q].Opaque? then src[q] else img[p]
  }

  // ----- pixel by pixel -----

  lemma {:induction false} FillAt(img: Image, x: int, y: int, w: nat, h: nat, c: Color, p: Point)
    requires p in img
    ensures Fill(img, x, y, w, h, c)[p] == if x <= p.0 < x + w && y <= p.1 < y + h then Opaque(c) else img[p]
  {
  }

  lemma {:induction false} PutIndex(img: Image, x: int, y: int, w: nat, h: nat, data: seq<Pixel>, p: Point, k: nat)
    requires p in img && InBox(p, x, y, w, h) && k == RowMajor(w, p.0 - x, p.1 - y) && k < |data|
    ensures Put(img, x, y, w, h, data)[p] == data[k]
  {
    hide RowMajor;
  }

  lemma {:induction false} CellInside(w: nat, h: nat, dx: nat, dy: nat, n: nat)
    requires n == w * h && dx < w && dy < h
    ensures 0 <= RowMajor(w, dx, dy) < n
  {
    RowMajorInside(w, h, dx, dy);
  }

  lemma {:induction false} PutCell(img: Image, x: int, y: int, w: nat, h: nat, data: seq<Pixel>, dx: nat, dy: nat, p: Point)
    requires 0 <= RowMajor(w, dx, dy) < |data| && dx < w && dy < h && p in img && p == (x + dx, y + dy)
    ensures Put(img, x, y, w, h, data)[p] == data[RowMajor(w, dx, dy)]
  {
    hide RowMajor, Put;
    PutIndex(img, x, y, w, h, data, p, RowMajor(w, dx, dy));
  }

  /** Column dx of row dy of the data lands dx to the right of x and dy below y. */
  lemma {:induction false} PutAt(img: Image, x: int, y: int, w: nat, h: nat, data: seq<Pixel>, dx: nat, dy: nat, p: Point)
    requires |data| == w * h && dx < w && dy < h && p in img && p == (x + dx, y + dy)
    ensures 0 <= RowMajor(w, dx, dy) < |data| && Put(img, x, y, w, h, data)[p] == data[RowMajor(w, dx, dy)]
  {
    hide RowMajor, Put;
    CellInside(w, h, dx, dy, |data|);
    PutCell(img, x, y, w, h, data, dx, dy, p);
  }

  /** Row-major order counts along a row first and then row by row. */
  lemma {:induction false} RowMajorCounts(w: nat, dx: int, dy: int)
    ensures RowMajor(w, 0, 0) == 0 && RowMajor(w, dx + 1, dy) == RowMajor(w, dx, dy) + 1
    ensures RowMajor(w, 0, dy + 1) == RowMajor(w, w, dy)
  {
  }

  /** A painted pixel of the source lands where the shift puts it; a transparent one changes nothing. */
  lemma {:induction false} DrawAt(img: Image, src: Image, sx: int, sy: int, x: int, y: int, w: nat, h: nat, dx: nat, dy: nat)
    requires dx < w && dy < h && (x + dx, y + dy) in img
    ensures Draw(img, src, sx, sy, x, y, w, h)[(x + dx, y + dy)] ==
            if (sx + dx, sy + dy) in src && src[(sx + dx, sy + dy)] != Transparent then src[(sx + dx, sy + dy)] else img[(x + dx, y + dy)]
  {
  }

  /** What lies outside the rectangle stays. */
  lemma {:induction false} OutsideStays(img: Image, src: Image, sx: int, sy: int, x: int, y: int, w: nat, h: nat,
                                        data: seq<Pixel>, p: Point)
    requires p in img && !(x <= p.0 < x + w && y <= p.1 < y + h)
    ensures Put(img, x, y, w, h, data)[p] == img[p] && Draw(img, src, sx, sy, x, y, w, h)[p] == img[p]
  {
  }
}
