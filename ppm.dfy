/**
 * The plain-text PPM ("P3") output of `helmirt/RTImage.cpp` as a specification:
 * the quantisation of a linear colour channel, the text of one pixel, the
 * header, the bottom-up raster order, and a reader for the format that
 * recovers the quantised image from the text.
 */
module Ppm {
  import opened Options
  import opened Geometry
  import opened Decimal

  // ---------------------------------------------------------------------------
  // Integer arithmetic on flat indices
  // ---------------------------------------------------------------------------

  /** Multiplying by a non-negative factor keeps order. */
  lemma MulLeq(a: int, b: int, w: int)
    requires w >= 0
    ensures a <= b ==> a * w <= b * w
  {
    assert (b - a) * w == b * w - a * w;
  }

  /** Euclidean division is determined by quotient and remainder. */
  lemma DivModOf(q: int, w: int, r: int)
    requires w > 0 && 0 <= r < w
    ensures (q * w + r) / w == q && (q * w + r) % w == r
  {
    var k := q * w + r;
    var q', r' := k / w, k % w;
    assert k == q' * w + r';
    var d := q - q';
    assert d * w == r' - r;
    MulLeq(1, d, w);
    MulLeq(d, -1, w);
  }

  /** Where the top row of a buffer with at least one row starts. */
  lemma TopRowStart(width: nat, height: nat)
    requires height > 0
    ensures 0 <= (height - 1) * width == width * (height - 1)
    ensures (height - 1) * width + width == width * height
  {
    MulLeq(0, height - 1, width);
    assert (height - 1) * width + width == height * width;
  }

  /** An index below `width * height` lies in one of the `height` rows. */
  lemma RowBelowHeight(width: nat, height: nat, k: nat)
    requires k < width * height
    ensures width > 0 && k / width < height
  {
    MulLeq(width, 0, height);
    var q := k / width;
    assert k == q * width + k % width;
    MulLeq(height, q, width);
    assert width * height == height * width;
  }

  /** The flat index of row `row` and column `col` in a buffer of the given width. */
  lemma CellInBuffer(width: nat, height: nat, row: int, col: int)
    requires 0 <= row < height && 0 <= col < width
    ensures 0 <= row * width + col < width * height
  {
    MulLeq(0, row, width);
    MulLeq(row, height - 1, width);
    TopRowStart(width, height);
  }

  // ---------------------------------------------------------------------------
  // Quantisation and the text of one pixel
  // ---------------------------------------------------------------------------

  /** `static_cast<int>(x)` for an in-range value: truncation toward zero. */
  function Truncate(x: real): (n: int)
    ensures x >= 0.0 ==> 0 <= n && n as real <= x < n as real + 1.0
    ensures x < 0.0 ==> n <= 0 && n as real - 1.0 < x <= n as real
  {
    if x >= 0.0 then x.Floor else -((-x).Floor)
  }

  /** The scale of the colour-to-byte quantisation. */
  const QuantScale: real := 255.999

  /**
   * `static_cast<int>(255.999 * c)`: channels in [0, 1] map onto 0..255,
   * with 0 giving 0 and 1 giving 255. Nothing is clamped.
   */
  function Quantize(c: real): (q: int)
    ensures 0.0 <= c <= 1.0 ==> 0 <= q <= 255
    ensures c == 0.0 ==> q == 0
    ensures c == 1.0 ==> q == 255
  {
    Truncate(QuantScale * c)
  }

  /** Quantisation never reverses the order of two channel values. */
  lemma QuantizeMonotone(c1: real, c2: real)
    requires c1 <= c2
    ensures Quantize(c1) <= Quantize(c2)
  {
    var x1, x2 := QuantScale * c1, QuantScale * c2;
    assert x1 <= x2;
    if x1 >= 0.0 {
      assert x1.Floor <= x2.Floor;
    } else if x2 < 0.0 {
      assert (-x2).Floor <= (-x1).Floor;
    }
  }

  /**
   * The quantisation truncates toward zero and does not clamp: a negative
   * channel gives a value above its floor, and a channel above 1 leaves the
   * byte range.
   */
  lemma QuantizeOutOfRange(c: real)
    ensures c >= 256.0 / QuantScale ==> Quantize(c) >= 256
    ensures c <= -1.0 / QuantScale ==> Quantize(c) <= -1
    ensures Quantize(-0.5) == -127 && Quantize(2.0) == 511
  {
  }

  /** Eight-bit values of the three channels of a pixel as written to the file. */
  datatype Rgb = Rgb(r: int, g: int, b: int)

  function QuantizeRgb(v: Vec3): Rgb {
    Rgb(Quantize(v.x), Quantize(v.y), Quantize(v.z))
  }

  /**
   * `vec3toStream`: the line `"<r> <g> <b>\n"` of one pixel, at least one
   * character per channel, and closed by its only line break.
   */
  function PixelLine(v: Vec3): (line: string)
    ensures |line| >= 6 && line[|line| - 1] == '\n'
  {
    IntToDecimal(Quantize(v.x)) + " " + IntToDecimal(Quantize(v.y)) + " "
      + IntToDecimal(Quantize(v.z)) + "\n"
  }

  lemma AppendAssoc(a: string, b: string, c: string)
    ensures (a + b) + c == a + (b + c)
  {
  }

  // ---------------------------------------------------------------------------
  // Header and raster order
  // ---------------------------------------------------------------------------

  /** The header: magic number, width and height, maximum value. */
  function Header(width: int, height: int): (h: string)
    ensures |h| >= 11 && h[..3] == "P3\n" && h[|h| - 5..] == "\n255\n"
  {
    "P3\n" + IntToDecimal(width) + " " + IntToDecimal(height) + "\n255\n"
  }

  /**
   * The cell written as pixel line `k`: rows run from the last (bottom) row to
   * row 0, columns from left to right.
   */
  function RasterIndex(width: nat, height: nat, k: nat): (c: nat)
    requires k < width * height
    ensures c < width * height
  {
    RowBelowHeight(width, height, k);
    CellInBuffer(width, height, height - 1 - k / width, k % width);
    (height - 1 - k / width) * width + k % width
  }

  /** Line `k` comes from row `height - 1 - k / width` and column `k % width`. */
  lemma RasterIndexRowColumn(width: nat, height: nat, k: nat)
    requires k < width * height
    ensures width > 0 && k / width < height
    ensures RasterIndex(width, height, k) / width == height - 1 - k / width
    ensures RasterIndex(width, height, k) % width == k % width
  {
    RowBelowHeight(width, height, k);
    DivModOf(height - 1 - k / width, width, k % width);
  }

  /**
   * The raster order undoes itself: the line of a cell's line is the cell.
   * Hence every cell is written exactly once.
   */
  lemma RasterIndexInvolution(width: nat, height: nat, k: nat)
    requires k < width * height
    ensures RasterIndex(width, height, RasterIndex(width, height, k)) == k
  {
    RasterIndexRowColumn(width, height, k);
    var c := RasterIndex(width, height, k);
    RasterIndexRowColumn(width, height, c);
    assert k == (k / width) * width + k % width;
  }

  /** Distinct lines show distinct cells. */
  lemma RasterIndexInjective(width: nat, height: nat, k1: nat, k2: nat)
    requires k1 < width * height && k2 < width * height
    requires RasterIndex(width, height, k1) == RasterIndex(width, height, k2)
    ensures k1 == k2
  {
    RasterIndexInvolution(width, height, k1);
    RasterIndexInvolution(width, height, k2);
  }

  /** Every cell is shown on some line. */
  lemma RasterIndexOnto(width: nat, height: nat, c: nat)
    requires c < width * height
    ensures exists k: nat :: k < width * height && RasterIndex(width, height, k) == c
  {
    RasterIndexInvolution(width, height, c);
    var k := RasterIndex(width, height, c);
    assert k < width * height && RasterIndex(width, height, k) == c;
  }

  /** The cell at `row`, `col` is written on line `(height - 1 - row) * width + col`. */
  lemma RasterLineOfCell(width: nat, height: nat, row: int, col: int)
    requires 0 <= row < height && 0 <= col < width
    ensures 0 <= (height - 1 - row) * width + col < width * height
    ensures RasterIndex(width, height, (height - 1 - row) * width + col) == row * width + col
  {
    CellInBuffer(width, height, height - 1 - row, col);
    DivModOf(height - 1 - row, width, col);
  }

  /** The cells in the order they are written. */
  function RasterOrder(data: seq<Vec3>, width: nat, height: nat): (out: seq<Vec3>)
    requires |data| == width * height
    ensures |out| == width * height
  {
    seq(width * height, k requires 0 <= k < width * height => data[RasterIndex(width, height, k)])
  }

  /** The rows of `data`, last row first, each left to right. */
  function RowsBottomUp(data: seq<Vec3>, width: nat, height: nat): (out: seq<Vec3>)
    requires |data| == width * height
    ensures |out| == |data|
    decreases height
  {
    if height == 0 then []
    else
      assert (height - 1) * width == width * height - width;
      data[(height - 1) * width..] + RowsBottomUp(data[..(height - 1) * width], width, height - 1)
  }

  lemma MultisetSwap(a: seq<Vec3>, b: seq<Vec3>)
    ensures multiset(a + b) == multiset(b + a)
  {
  }

  lemma {:induction false} RowsBottomUpIsPermutation(data: seq<Vec3>, width: nat, height: nat)
    requires |data| == width * height
    ensures multiset(RowsBottomUp(data, width, height)) == multiset(data)
    decreases height
  {
    if height > 0 {
      TopRowStart(width, height);
      var split := (height - 1) * width;
      var lower := data[..split];
      RowsBottomUpIsPermutation(lower, width, height - 1);
      assert data == lower + data[split..];
      MultisetSwap(data[split..], lower);
    }
  }

  /** Dropping the bottom row shifts every later line up by one row's worth. */
  lemma RasterIndexDropRow(width: nat, height: nat, k: nat)
    requires width <= k < width * height
    ensures height >= 1 && k - width < width * (height - 1)
    ensures RasterIndex(width, height - 1, k - width) == RasterIndex(width, height, k)
  {
    RowBelowHeight(width, height, k);
    assert width * (height - 1) == width * height - width;
    var q, r := k / width, k % width;
    assert k == q * width + r;
    assert k - width == (q - 1) * width + r;
    DivModOf(q - 1, width, r);
  }

  /** The first `width` lines are the bottom row, left to right. */
  lemma RasterIndexBottomRow(width: nat, height: nat, k: nat)
    requires k < width && k < width * height
    ensures RasterIndex(width, height, k) == (height - 1) * width + k
  {
    DivModOf(0, width, k);
  }

  lemma {:induction false} RowsBottomUpIsRasterOrder(data: seq<Vec3>, width: nat, height: nat)
    requires |data| == width * height
    ensures RowsBottomUp(data, width, height) == RasterOrder(data, width, height)
    decreases height
  {
    if height > 0 {
      assert (height - 1) * width == width * height - width;
      var split := (height - 1) * width;
      var lower := data[..split];
      RowsBottomUpIsRasterOrder(lower, width, height - 1);
      var out := RowsBottomUp(data, width, height);
      var raster := RasterOrder(data, width, height);
      assert out == data[split..] + RasterOrder(lower, width, height - 1);
      forall k | 0 <= k < width * height
        ensures out[k] == raster[k]
      {
        if k < width {
          RasterIndexBottomRow(width, height, k);
        } else {
          RasterIndexDropRow(width, height, k);
        }
      }
    }
  }

  /** The written cells are a permutation of the buffer. */
  lemma RasterOrderIsPermutation(data: seq<Vec3>, width: nat, height: nat)
    requires |data| == width * height
    ensures multiset(RasterOrder(data, width, height)) == multiset(data)
  {
    RowsBottomUpIsRasterOrder(data, width, height);
    RowsBottomUpIsPermutation(data, width, height);
  }

  /** The whole P3 text of a `height x width` buffer stored row by row. */
  function PpmText(data: seq<Vec3>, width: nat, height: nat): string
    requires |data| == width * height
  {
    Header(width, height) + Lines(RasterOrder(data, width, height), PixelLine)
  }

  /** Row `row` ends inside a buffer of `height` rows. */
  lemma RowFits(width: nat, height: nat, row: nat)
    requires row < height
    ensures 0 <= row * width && row * width + width <= width * height
  {
    MulLeq(0, row, width);
    MulLeq(row + 1, height, width);
    assert (row + 1) * width == row * width + width;
    assert height * width == width * height;
  }

  // The two loops of `toPPMFile` are stated for any text `line` of a cell, so
  // that their proofs do not depend on how one pixel is printed.

  /** The texts `line(c)` of the cells, in sequence order; with `PixelLine`, the pixel lines of the P3 text. */
  function Lines(cells: seq<Vec3>, line: Vec3 -> string): string
    decreases |cells|
  {
    if cells == [] then "" else line(cells[0]) + Lines(cells[1..], line)
  }

  lemma {:induction false} LinesAppend(a: seq<Vec3>, b: seq<Vec3>, line: Vec3 -> string)
    ensures Lines(a + b, line) == Lines(a, line) + Lines(b, line)
    decreases |a|
  {
    if a == [] {
      assert a + b == b;
    } else {
      assert (a + b)[1..] == a[1..] + b;
      LinesAppend(a[1..], b, line);
      AppendAssoc(line(a[0]), Lines(a[1..], line), Lines(b, line));
    }
  }

  lemma LinesOne(v: Vec3, line: Vec3 -> string)
    ensures Lines([v], line) == line(v)
  {
    assert [v][1..] == [];
  }

  /** The texts of the `count` cells from index `start` on, written left to right: the inner loop of `toPPMFile`. */
  function Cells(data: seq<Vec3>, start: nat, count: nat, line: Vec3 -> string): string
    requires start + count <= |data|
  {
    if count == 0 then "" else Cells(data, start, count - 1, line) + line(data[start + count - 1])
  }

  /** One more cell appends its text. */
  lemma CellsNext(data: seq<Vec3>, start: nat, count: nat, line: Vec3 -> string, prefix: string, text: string)
    requires start + count < |data|
    requires text == prefix + Cells(data, start, count, line)
    ensures text + line(data[start + count]) == prefix + Cells(data, start, count + 1, line)
  {
    AppendAssoc(prefix, Cells(data, start, count, line), line(data[start + count]));
  }

  /** A slice of `n > 0` elements is the slice of its first `n - 1` and the last one. */
  lemma SliceSnoc(s: seq<Vec3>, a: nat, n: nat)
    requires 0 < n && a + n <= |s|
    ensures s[a..a + n] == s[a..a + (n - 1)] + [s[a + (n - 1)]]
  {
  }

  /** The texts of a sequence followed by one more cell. */
  lemma LinesSnoc(cells: seq<Vec3>, v: Vec3, line: Vec3 -> string)
    ensures Lines(cells + [v], line) == Lines(cells, line) + line(v)
  {
    LinesAppend(cells, [v], line);
    LinesOne(v, line);
  }

  /** The cells from `start` are the texts of the slice they occupy. */
  lemma {:induction false} CellsAreLines(data: seq<Vec3>, start: nat, count: nat, line: Vec3 -> string)
    requires start + count <= |data|
    ensures Cells(data, start, count, line) == Lines(data[start..start + count], line)
  {
    if count == 0 {
      assert data[start..start + count] == [];
    } else {
      CellsAreLines(data, start, count - 1, line);
      SliceSnoc(data, start, count);
      LinesSnoc(data[start..start + (count - 1)], data[start + (count - 1)], line);
    }
  }

  /** The last `count` cells are the texts of the suffix they occupy. */
  lemma CellsToEnd(data: seq<Vec3>, start: nat, count: nat, line: Vec3 -> string)
    requires start + count == |data|
    ensures Cells(data, start, count, line) == Lines(data[start..], line)
  {
    CellsAreLines(data, start, count, line);
    assert data[start..start + count] == data[start..];
  }

  /** Cells that lie in a prefix of the buffer have the same texts there. */
  lemma {:induction false} CellsOfPrefix(data: seq<Vec3>, lower: seq<Vec3>, start: nat, count: nat, line: Vec3 -> string)
    requires start + count <= |lower| <= |data| && lower == data[..|lower|]
    ensures Cells(data, start, count, line) == Cells(lower, start, count, line)
  {
    if count > 0 {
      CellsOfPrefix(data, lower, start, count - 1, line);
      assert data[start + count - 1] == lower[start + count - 1];
    }
  }

  /** The texts of rows `height - 1` down to `row`, each left to right: the outer loop of `toPPMFile`. */
  function RowsFrom(data: seq<Vec3>, width: nat, height: nat, row: nat, line: Vec3 -> string): string
    requires |data| == width * height && row <= height
    decreases height - row
  {
    if row == height then ""
    else
      RowFits(width, height, row);
      RowsFrom(data, width, height, row + 1, line) + Cells(data, row * width, width, line)
  }

  /** A complete row appends to the rows written before it. */
  lemma RowsFromNext(data: seq<Vec3>, width: nat, height: nat, row: nat, line: Vec3 -> string,
                     prefix: string, before: string, text: string)
    requires |data| == width * height && row < height && row * width + width <= |data|
    requires before == prefix + RowsFrom(data, width, height, row + 1, line)
    requires text == before + Cells(data, row * width, width, line)
    ensures text == prefix + RowsFrom(data, width, height, row, line)
  {
    AppendAssoc(prefix, RowsFrom(data, width, height, row + 1, line), Cells(data, row * width, width, line));
  }

  /** The rows from `row` up are the top row, then the rows from `row` up of the buffer without it. */
  lemma {:induction false} RowsFromTopRow(data: seq<Vec3>, width: nat, height: nat, row: nat, line: Vec3 -> string)
    requires |data| == width * height && row < height
    ensures 0 <= (height - 1) * width && (height - 1) * width + width == |data|
    ensures RowsFrom(data, width, height, row, line)
      == Cells(data, (height - 1) * width, width, line)
         + RowsFrom(data[..(height - 1) * width], width, height - 1, row, line)
    decreases height - row
  {
    TopRowStart(width, height);
    var split := (height - 1) * width;
    var lower := data[..split];
    if row < height - 1 {
      RowsFromTopRow(data, width, height, row + 1, line);
      RowFits(width, height - 1, row);
      CellsOfPrefix(data, lower, row * width, width, line);
      AppendAssoc(Cells(data, split, width, line), RowsFrom(lower, width, height - 1, row + 1, line),
        Cells(lower, row * width, width, line));
    }
  }

  /** Both loops together write the rows from the last to the first. */
  lemma {:induction false} RowsFromAreRowsBottomUp(data: seq<Vec3>, width: nat, height: nat, line: Vec3 -> string)
    requires |data| == width * height
    ensures RowsFrom(data, width, height, 0, line) == Lines(RowsBottomUp(data, width, height), line)
    decreases height
  {
    if height > 0 {
      TopRowStart(width, height);
      RowsFromTopRow(data, width, height, 0, line);
      var split := (height - 1) * width;
      var lower := data[..split];
      RowsFromAreRowsBottomUp(lower, width, height - 1, line);
      CellsToEnd(data, split, width, line);
      LinesAppend(data[split..], RowsBottomUp(lower, width, height - 1), line);
    }
  }

  /** The text of the two loops of `toPPMFile` is the P3 text. */
  lemma RowsFromIsPpmText(data: seq<Vec3>, width: nat, height: nat)
    requires |data| == width * height
    ensures Header(width, height) + RowsFrom(data, width, height, 0, PixelLine) == PpmText(data, width, height)
  {
    RowsFromAreRowsBottomUp(data, width, height, PixelLine);
    RowsBottomUpIsRasterOrder(data, width, height);
  }

  // ---------------------------------------------------------------------------
  // Reading P3 text back
  // ---------------------------------------------------------------------------

  /** Consumes the literal `lit` at the start of `s`. */
  function Expect(s: string, lit: string): (r: Option<string>)
    ensures r.Some? <==> |lit| <= |s| && s[..|lit|] == lit
    ensures r.Some? ==> lit + r.value == s
  {
    if |lit| <= |s| && s[..|lit|] == lit then Some(s[|lit|..]) else None
  }

  lemma ExpectOf(lit: string, rest: string)
    ensures Expect(lit + rest, lit) == Some(rest)
  {
    assert (lit + rest)[..|lit|] == lit;
    assert (lit + rest)[|lit|..] == rest;
  }

  function ParsePixel(s: string): Option<(Rgb, string)> {
    var r :- ParseInt(s);
    var s1 :- Expect(r.1, " ");
    var g :- ParseInt(s1);
    var s2 :- Expect(g.1, " ");
    var b :- ParseInt(s2);
    var s3 :- Expect(b.1, "\n");
    Some((Rgb(r.0, g.0, b.0), s3))
  }

  function ParsePixels(s: string, n: nat): Option<(seq<Rgb>, string)>
    decreases n
  {
    if n == 0 then Some(([], s))
    else
      var p :- ParsePixel(s);
      var ps :- ParsePixels(p.1, n - 1);
      Some(([p.0] + ps.0, ps.1))
  }

  /** A P3 image as read: the declared dimensions and the pixel values in file order. */
  datatype PpmImage = PpmImage(width: int, height: int, pixels: seq<Rgb>)

  /** Reads a P3 text with exactly `width * height` pixel lines and nothing after them. */
  function ParsePpm(s: string): Option<PpmImage> {
    var s1 :- Expect(s, "P3\n");
    ParseSize(s1)
  }

  /** The rest of the header after the magic number: width, height and maximum value. */
  function ParseSize(s: string): Option<PpmImage> {
    var w :- ParseInt(s);
    var s2 :- Expect(w.1, " ");
    var h :- ParseInt(s2);
    var s3 :- Expect(h.1, "\n255\n");
    ParseRaster(w.0, h.0, s3)
  }

  /** The pixel lines of a `width x height` image, which must end the text. */
  function ParseRaster(width: int, height: int, s: string): Option<PpmImage> {
    if width < 0 || height < 0 then None
    else
      ProductOfNats(width, height);
      var px :- ParsePixels(s, width * height);
      if px.1 == "" then Some(PpmImage(width, height, px.0)) else None
  }

  lemma ProductOfNats(a: int, b: int)
    requires a >= 0 && b >= 0
    ensures a * b >= 0
  {
  }

  /** A pixel line reads back as the quantised colour. */
  lemma ParsePixelOfLine(v: Vec3, rest: string)
    ensures ParsePixel(PixelLine(v) + rest) == Some((QuantizeRgb(v), rest))
  {
    var a, b, c := IntToDecimal(Quantize(v.x)), IntToDecimal(Quantize(v.y)), IntToDecimal(Quantize(v.z));
    var t3 := "\n" + rest;
    var t2 := " " + (c + t3);
    var t1 := " " + (b + t2);
    assert PixelLine(v) + rest == a + t1 by {
      assert PixelLine(v) == a + " " + b + " " + c + "\n";
      SplitLine(a, b, c, rest);
    }
    ParseIntOfDecimal(Quantize(v.x), t1);
    ExpectOf(" ", b + t2);
    ParseIntOfDecimal(Quantize(v.y), t2);
    ExpectOf(" ", c + t3);
    ParseIntOfDecimal(Quantize(v.z), t3);
    ExpectOf("\n", rest);
  }

  lemma SplitLine(a: string, b: string, c: string, rest: string)
    ensures a + " " + b + " " + c + "\n" + rest == a + (" " + (b + (" " + (c + ("\n" + rest)))))
  {
  }

  /** The quantised colours of a sequence of cells. */
  function QuantizeAll(cells: seq<Vec3>): (q: seq<Rgb>)
    ensures |q| == |cells|
    ensures forall k | 0 <= k < |cells| :: q[k] == QuantizeRgb(cells[k])
  {
    seq(|cells|, k requires 0 <= k < |cells| => QuantizeRgb(cells[k]))
  }

  /** The text of the cells is the first cell's line followed by the text of the others. */
  lemma LinesCons(cells: seq<Vec3>, rest: string)
    requires cells != []
    ensures Lines(cells, PixelLine) + rest == PixelLine(cells[0]) + (Lines(cells[1..], PixelLine) + rest)
  {
    AppendAssoc(PixelLine(cells[0]), Lines(cells[1..], PixelLine), rest);
  }

  /** Reading a pixel and then `n` more pixels. */
  lemma ParsePixelsCons(line: string, tail: string, p: Rgb, n: nat, ps: seq<Rgb>, rest: string)
    requires ParsePixel(line + tail) == Some((p, tail))
    requires ParsePixels(tail, n) == Some((ps, rest))
    ensures ParsePixels(line + tail, n + 1) == Some(([p] + ps, rest))
  {
  }

  /** The quantised cells are the first one's colour followed by the others'. */
  lemma QuantizeAllCons(cells: seq<Vec3>)
    requires cells != []
    ensures QuantizeAll(cells) == [QuantizeRgb(cells[0])] + QuantizeAll(cells[1..])
  {
  }

  /** Reading one pixel line and then the lines of the other cells. */
  lemma ParsePixelsStep(cells: seq<Vec3>, rest: string)
    requires cells != []
    requires ParsePixels(Lines(cells[1..], PixelLine) + rest, |cells[1..]|) == Some((QuantizeAll(cells[1..]), rest))
    ensures ParsePixels(Lines(cells, PixelLine) + rest, |cells|) == Some((QuantizeAll(cells), rest))
  {
    var tail := Lines(cells[1..], PixelLine) + rest;
    LinesCons(cells, rest);
    ParsePixelOfLine(cells[0], tail);
    ParsePixelsCons(PixelLine(cells[0]), tail, QuantizeRgb(cells[0]), |cells[1..]|, QuantizeAll(cells[1..]), rest);
    QuantizeAllCons(cells);
    assert |cells[1..]| + 1 == |cells|;
  }

  lemma {:induction false} ParsePixelsOfLines(cells: seq<Vec3>, rest: string)
    ensures ParsePixels(Lines(cells, PixelLine) + rest, |cells|) == Some((QuantizeAll(cells), rest))
    decreases |cells|
  {
    if cells == [] {
      assert Lines(cells, PixelLine) + rest == rest;
    } else {
      ParsePixelsOfLines(cells[1..], rest);
      ParsePixelsStep(cells, rest);
    }
  }

  /**
   * Reading the written text gives back the dimensions and, line by line, the
   * quantised cells in bottom-up raster order; so each cell's value is found
   * again on the line of that cell.
   */
  lemma PpmRoundTrip(data: seq<Vec3>, width: nat, height: nat)
    requires |data| == width * height
    ensures ParsePpm(PpmText(data, width, height)).Some?
    ensures ParsePpm(PpmText(data, width, height))
      == Some(PpmImage(width, height, QuantizeAll(RasterOrder(data, width, height))))
    ensures forall c | 0 <= c < width * height ::
      ParsePpm(PpmText(data, width, height)).value.pixels[RasterIndex(width, height, c)]
        == QuantizeRgb(data[c])
  {
    var cells := RasterOrder(data, width, height);
    PpmTextNested(data, width, height);
    ParsePpmOfCells(width, height, cells);
    forall c | 0 <= c < width * height
      ensures QuantizeAll(cells)[RasterIndex(width, height, c)] == QuantizeRgb(data[c])
    {
      RasterIndexInvolution(width, height, c);
    }
  }

  /** The P3 text with its concatenations grouped from the right, as the reader consumes it. */
  lemma PpmTextNested(data: seq<Vec3>, width: nat, height: nat)
    requires |data| == width * height
    ensures PpmText(data, width, height)
      == "P3\n" + (IntToDecimal(width) + (" " + (IntToDecimal(height)
           + ("\n255\n" + Lines(RasterOrder(data, width, height), PixelLine)))))
  {
  }

  /** The reader takes a header and the pixel lines of `width * height` cells to their quantised values. */
  lemma ParsePpmOfCells(width: nat, height: nat, cells: seq<Vec3>)
    requires |cells| == width * height
    ensures ParsePpm("P3\n" + (IntToDecimal(width) + (" " + (IntToDecimal(height) + ("\n255\n" + Lines(cells, PixelLine))))))
      == Some(PpmImage(width, height, QuantizeAll(cells)))
  {
    var t1 := IntToDecimal(width) + (" " + (IntToDecimal(height) + ("\n255\n" + Lines(cells, PixelLine))));
    ExpectOf("P3\n", t1);
    ParseSizeOf(width, height, Lines(cells, PixelLine));
    ParseRasterOfCells(width, height, cells);
  }

  /** The size line is read back, and the rest handed to the pixel reader. */
  lemma ParseSizeOf(width: nat, height: nat, body: string)
    ensures ParseSize(IntToDecimal(width) + (" " + (IntToDecimal(height) + ("\n255\n" + body))))
      == ParseRaster(width, height, body)
  {
    var t4 := "\n255\n" + body;
    var t3 := IntToDecimal(height) + t4;
    var t2 := " " + t3;
    ParseIntOfDecimal(width, t2);
    ExpectOf(" ", t3);
    ParseIntOfDecimal(height, t4);
    ExpectOf("\n255\n", body);
  }

  /** The pixel lines of `width * height` cells, and nothing after them, read back quantised. */
  lemma ParseRasterOfCells(width: nat, height: nat, cells: seq<Vec3>)
    requires |cells| == width * height
    ensures ParseRaster(width, height, Lines(cells, PixelLine)) == Some(PpmImage(width, height, QuantizeAll(cells)))
  {
    assert Lines(cells, PixelLine) + "" == Lines(cells, PixelLine);
    ParsePixelsOfLines(cells, "");
  }


}
