/** Palette indices packed into bytes, the most significant bits first, every row padded to a whole byte. */
module PackedPixels {
  import opened Arith
  import opened Bytes

  /** Bits per index for a palette of at most 16 colours: the least of 1, 2 and 4 that tells them apart. */
  function BitsPerPixel(paletteSize: nat): (bits: nat)
    requires paletteSize <= 16
    ensures bits == 1 || bits == 2 || bits == 4
    ensures paletteSize <= Pow2(bits)
    ensures bits > 1 ==> Pow2(bits / 2) < paletteSize
  {
    assert Pow2(4) == 16;
    if paletteSize <= 2 then 1 else if paletteSize <= 4 then 2 else 4
  }

  type Bits = b: nat | b == 1 || b == 2 || b == 4 witness 1

  function RowBytes(width: nat, bits: Bits): nat {
    (width * bits + 7) / 8
  }

  /** As few whole bytes as hold the row. */
  lemma {:induction false} RowIsPadded(width: nat, bits: Bits)
    ensures 8 * RowBytes(width, bits) - 8 < width * bits <= 8 * RowBytes(width, bits)
  {
  }

  /** The field of a byte that starts `bit` bits below its top. */
  function Field(b: byte, bit: nat, bits: Bits): (f: nat)
    requires bit + bits <= 8
    ensures f < Pow2(bits)
  {
    b / Pow2(8 - bits - bit) % Pow2(bits)
  }

  /** Which byte and which bit of a row hold column x. */
  function ByteOf(x: nat, bits: Bits): nat {
    x * bits / 8
  }

  function BitOf(x: nat, bits: Bits): (b: nat)
    ensures b + bits <= 8
  {
    x * bits % 8
  }

  lemma ByteInRow(x: nat, width: nat, bits: Bits)
    requires x < width
    ensures ByteOf(x, bits) < RowBytes(width, bits)
  {
  }

  /** The index stored for column x of row y. */
  function IndexAt(s: seq<byte>, width: nat, height: nat, bits: Bits, x: nat, y: nat): (i: nat)
    requires |s| >= height * RowBytes(width, bits) && x < width && y < height
    ensures i < Pow2(bits)
  {
    ByteInRow(x, width, bits);
    GridBound(RowBytes(width, bits), height, ByteOf(x, bits), y);
    Field(s[y * RowBytes(width, bits) + ByteOf(x, bits)], BitOf(x, bits), bits)
  }

  // The encoder

  /** m indices from column `from` on as one number; columns beyond the row count as 0. */
  function Digits(row: seq<nat>, from: nat, m: nat, bits: Bits): nat {
    if m == 0 then 0 else
      Digits(row, from, m - 1, bits) * Pow2(bits) + if from + m - 1 < |row| then row[from + m - 1] else 0
  }

  lemma {:induction false} DigitsBound(row: seq<nat>, from: nat, m: nat, bits: Bits)
    requires forall i :: 0 <= i < |row| ==> row[i] < Pow2(bits)
    ensures Digits(row, from, m, bits) < Pow2(bits * m)
  {
    if m > 0 {
      DigitsBound(row, from, m - 1, bits);
      Pow2Add(bits, bits * (m - 1));
      assert bits * m == bits + bits * (m - 1);
      var last := if from + m - 1 < |row| then row[from + m - 1] else 0;
      DigitStep(Digits(row, from, m - 1, bits), Pow2(bits * (m - 1)), Pow2(bits), last);
      hide Pow2;
    }
  }

  lemma {:induction false} DigitStep(d: nat, bound: nat, base: nat, last: nat)
    requires d < bound && last < base
    ensures d * base + last < base * bound
  {
    MulMonotone(d + 1, bound, base);
    assert (d + 1) * base == d * base + base;
  }

  lemma {:induction false} DivideTwice(v: nat, a: nat, b: nat)
    requires a > 0 && b > 0
    ensures a * b > 0 && v / (a * b) == v / a / b
  {
    PositiveProduct(a, b);
    DivisionBounds(v, a);
    DivisionBounds(v / a, b);
    var q, r, t := v / a / b, v / a % b, v % a;
    MulMonotone(r + 1, b, a);
    calc {
      v;
      (q * b + r) * a + t;
      q * (a * b) + (r * a + t);
    }
    DivisionUnique(v, a * b, q, r * a + t);
  }

  lemma {:induction false} DigitAt(row: seq<nat>, from: nat, m: nat, bits: Bits, k: nat)
    requires forall i :: 0 <= i < |row| ==> row[i] < Pow2(bits)
    requires k < m && from + k < |row|
    ensures Digits(row, from, m, bits) / Pow2(bits * (m - 1 - k)) % Pow2(bits) == row[from + k]
    decreases m
  {
    var v, base := Digits(row, from, m, bits), Pow2(bits);
    var last := if from + m - 1 < |row| then row[from + m - 1] else 0;
    DivisionUnique(v, base, Digits(row, from, m - 1, bits), last);
    if k == m - 1 {
      assert bits * 0 == 0 && Pow2(0) == 1;
    } else {
      DigitAt(row, from, m - 1, bits, k);
      assert bits * (m - 1 - k) == bits + bits * (m - 2 - k);
      Pow2Add(bits, bits * (m - 2 - k));
      DivideTwice(v, base, Pow2(bits * (m - 2 - k)));
    }
  }

  function PackRow(row: seq<nat>, bits: Bits): (s: seq<byte>)
    requires forall i :: 0 <= i < |row| ==> row[i] < Pow2(bits)
    ensures |s| == RowBytes(|row|, bits)
  {
    seq(RowBytes(|row|, bits), j requires 0 <= j => PackByte(row, j, bits))
  }

  function PerByte(bits: Bits): (m: nat)
    ensures m > 0 && bits * m == 8
  {
    if bits == 1 then 8 else if bits == 2 then 4 else 2
  }

  function PackByte(row: seq<nat>, j: nat, bits: Bits): byte
    requires forall i :: 0 <= i < |row| ==> row[i] < Pow2(bits)
  {
    DigitsBound(row, j * PerByte(bits), PerByte(bits), bits);
    assert Pow2(8) == 256;
    Digits(row, j * PerByte(bits), PerByte(bits), bits)
  }

  lemma ColumnSplit(x: nat, bits: Bits)
    ensures var m := PerByte(bits);
            && ByteOf(x, bits) == x / m && BitOf(x, bits) == bits * (x % m)
            && 8 - bits - BitOf(x, bits) == bits * (m - 1 - x % m)
            && x == x / m * m + x % m
  {
  }

  lemma FieldAt(b: byte, bit: nat, bits: Bits, shift: nat)
    requires shift == 8 - bits - bit
    ensures Field(b, bit, bits) == b / Pow2(shift) % Pow2(bits)
  {
  }

  /** A packed row gives every column its index back. */
  lemma RowUnpacks(row: seq<nat>, bits: Bits, x: nat)
    requires forall i :: 0 <= i < |row| ==> row[i] < Pow2(bits)
    requires x < |row|
    ensures ByteOf(x, bits) < |PackRow(row, bits)|
    ensures Field(PackRow(row, bits)[ByteOf(x, bits)], BitOf(x, bits), bits) == row[x]
  {
    ByteInRow(x, |row|, bits);
    ColumnSplit(x, bits);
    hide Digits, Pow2, PerByte, ByteOf, BitOf, RowBytes, Field;
    var m, j := PerByte(bits), ByteOf(x, bits);
    var from, k := j * m, x % m;
    assert from + k == x;
    DigitAt(row, from, m, bits, k);
    var b := PackRow(row, bits)[j];
    assert b == PackByte(row, j, bits) == Digits(row, from, m, bits);
    hide PackRow, PackByte;
    FieldAt(b, BitOf(x, bits), bits, bits * (m - 1 - k));
  }

  function PackRows(rows: seq<seq<nat>>, bits: Bits): seq<byte>
    requires forall j, i :: 0 <= j < |rows| && 0 <= i < |rows[j]| ==> rows[j][i] < Pow2(bits)
  {
    if rows == [] then [] else PackRow(rows[0], bits) + PackRows(rows[1..], bits)
  }

  ghost predicate RowsFit(rows: seq<seq<nat>>, width: nat, bits: Bits) {
    && (forall j :: 0 <= j < |rows| ==> |rows[j]| == width)
    && (forall j, i :: 0 <= j < |rows| && 0 <= i < |rows[j]| ==> rows[j][i] < Pow2(bits))
  }

  lemma {:induction false} RowsSize(rows: seq<seq<nat>>, width: nat, bits: Bits)
    requires RowsFit(rows, width, bits)
    ensures |PackRows(rows, bits)| == |rows| * RowBytes(width, bits)
    decreases |rows|
  {
    if rows != [] {
      RowsSize(rows[1..], width, bits);
      var n, k := RowBytes(width, bits), |rows|;
      assert k * n == n + (k - 1) * n;
    }
  }

  /** Dropping one row's bytes moves every index up by one row. */
  lemma NextRow(a: seq<byte>, s: seq<byte>, width: nat, height: nat, bits: Bits, x: nat, y: nat)
    requires |a| == RowBytes(width, bits) && |s| >= height * RowBytes(width, bits) && x < width && y < height
    ensures |a + s| >= (height + 1) * RowBytes(width, bits)
    ensures IndexAt(a + s, width, height + 1, bits, x, y + 1) == IndexAt(s, width, height, bits, x, y)
  {
    ByteInRow(x, width, bits);
    var n, b := RowBytes(width, bits), ByteOf(x, bits);
    hide RowBytes, ByteOf, BitOf, Field;
    GridBound(n, height, b, y);
    assert (y + 1) * n == n + y * n && (height + 1) * n == n + height * n;
    assert (a + s)[(y + 1) * n + b] == s[y * n + b];
  }

  lemma {:induction false} FirstRow(row: seq<nat>, s: seq<byte>, width: nat, height: nat, bits: Bits, x: nat)
    requires |row| == width && (forall i :: 0 <= i < |row| ==> row[i] < Pow2(bits)) && x < width && height > 0
    requires |PackRow(row, bits)| == RowBytes(width, bits) && |PackRow(row, bits) + s| >= height * RowBytes(width, bits)
    ensures IndexAt(PackRow(row, bits) + s, width, height, bits, x, 0) == row[x]
  {
    RowUnpacks(row, bits, x);
    var first, b := PackRow(row, bits), ByteOf(x, bits);
    hide ByteOf, RowBytes, BitOf, PackRow, Field;
    assert 0 * RowBytes(width, bits) + b == b && (first + s)[b] == first[b];
  }

  /** Packed rows give every pixel its index back, where IndexAt looks for it. */
  lemma {:induction false} RowsUnpack(rows: seq<seq<nat>>, width: nat, bits: Bits, rest: seq<byte>, x: nat, y: nat)
    requires RowsFit(rows, width, bits) && x < width && y < |rows|
    ensures |PackRows(rows, bits)| == |rows| * RowBytes(width, bits)
    ensures IndexAt(PackRows(rows, bits) + rest, width, |rows|, bits, x, y) == rows[y][x]
    decreases |rows|
  {
    RowsSize(rows, width, bits);
    RowsSize(rows[1..], width, bits);
    var first, more := PackRow(rows[0], bits), PackRows(rows[1..], bits) + rest;
    assert PackRows(rows, bits) + rest == first + more;
    if y == 0 {
      hide PackRow, PackRows;
      FirstRow(rows[0], more, width, |rows|, bits, x);
    } else {
      hide PackRow, RowBytes, IndexAt;
      RowsUnpack(rows[1..], width, bits, rest, x, y - 1);
      NextRow(first, more, width, |rows| - 1, bits, x, y - 1);
    }
  }
}
