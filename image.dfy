/**
 * `helmirt::RTImage`: a `height x width` buffer of linear colours stored flat,
 * cell `(i, j)` (column `i`, row `j`) at index `j * width + i`, and its
 * serialisation to plain-text PPM.
 */
module Image {
  import opened Geometry
  import opened Ppm

  /** The outcome of a checked write: `std::vector::at` throws `std::out_of_range`. */
  datatype Status = Ok | OutOfRange

  /**
   * The index that `setColor(i, j, _)` writes: only this flat index is checked.
   * For a column inside the width it identifies the cell: the quotient by the
   * width is the row and the remainder the column.
   */
  function FlatIndex(width: int, i: int, j: int): (k: int)
    ensures 0 <= i < width ==> k / width == j && k % width == i
  {
    if 0 <= i < width then DivModOf(j, width, i); j * width + i else j * width + i
  }

  /**
   * A write to `(i, j)` is accepted exactly when its flat index lies in the
   * buffer; for a column inside the width, only rows inside the height pass.
   */
  predicate InBuffer(width: nat, height: nat, i: int, j: int): (ok: bool)
    ensures ok ==> width > 0 && height > 0
    ensures ok && 0 <= i < width ==> 0 <= j < height
  {
    var k := FlatIndex(width, i, j);
    if 0 <= k < width * height then
      RowBelowHeight(width, height, k); true
    else false
  }

  /**
   * Only the flat index is checked: a column in `width..2*width-1` on a row
   * before the last is accepted and writes column `i - width` of row `j + 1`.
   */
  lemma ColumnOverflowWraps(width: nat, height: nat, i: int, j: int)
    requires width <= i < 2 * width && 0 <= j && j + 1 < height
    ensures InBuffer(width, height, i, j)
    ensures FlatIndex(width, i, j) == FlatIndex(width, i - width, j + 1)
  {
    CellInBuffer(width, height, j + 1, i - width);
  }

  /** A column equal to the width is accepted on every row but the last. */
  lemma OffByOneColumnAccepted(width: nat, height: nat, j: int)
    requires width > 0 && 0 <= j && j + 1 < height
    ensures InBuffer(width, height, width, j)
  {
    ColumnOverflowWraps(width, height, width, j);
  }

  /** A coordinate pair inside the declared dimensions is always accepted. */
  lemma InsideDimensionsAccepted(width: nat, height: nat, i: int, j: int)
    requires 0 <= i < width && 0 <= j < height
    ensures InBuffer(width, height, i, j)
  {
    CellInBuffer(width, height, j, i);
  }

  /** The first row past the last one is rejected, whatever the column in range. */
  lemma RowPastLastRejected(width: nat, height: nat, i: int)
    requires 0 <= i < width
    ensures !InBuffer(width, height, i, height)
  {
    assert FlatIndex(width, i, height) == width * height + i;
  }

  class RTImage {
    const height: nat
    const width: nat
    /** `m_data`: the cells, row `j` occupying indices `j * width .. j * width + width - 1`. */
    const data: array<Vec3>

    ghost predicate Valid() {
      data.Length == width * height
    }

    /** `RTImage(height, width)`: stores the dimensions and `width * height` black cells. */
    constructor (height: nat, width: nat)
      ensures Valid()
      ensures this.height == height && this.width == width
      ensures fresh(data)
      ensures data[..] == seq(width * height, _ => Vec3(0.0, 0.0, 0.0))
    {
      this.height := height;
      this.width := width;
      data := new Vec3[width * height](_ => Vec3(0.0, 0.0, 0.0));
    }

    function GetHeight(): (h: nat)
      ensures h == height
    {
      height
    }

    function GetWidth(): (w: nat)
      ensures w == width
    {
      width
    }

    /**
     * `setColor(i, j, color)`: when the flat index is in the buffer, that one
     * cell becomes `color` and every other cell is unchanged; otherwise the
     * write fails and the buffer is untouched.
     */
    method SetColor(i: int, j: int, color: Vec3) returns (status: Status)
      requires Valid()
      modifies data
      ensures status == (if InBuffer(width, height, i, j) then Ok else OutOfRange)
      ensures status == Ok ==> data[..] == old(data[..])[FlatIndex(width, i, j) := color]
      ensures status == OutOfRange ==> data[..] == old(data[..])
    {
      var k := j * width + i;
      if 0 <= k < data.Length {
        data[k] := color;
        status := Ok;
      } else {
        status := OutOfRange;
      }
    }

    /**
     * `toPPMFile`, with the text returned rather than written to a file: the
     * header, then the rows from the last to the first, each left to right.
     */
    method ToPpm() returns (text: string)
      requires Valid()
      ensures text == PpmText(data[..], width, height)
    {
      text := WriteRows(PixelLine);
      RowsFromIsPpmText(data[..], width, height);
    }

    /**
     * The two loops of `toPPMFile`, writing each cell with `line`: the header,
     * then rows `height - 1` down to 0.
     */
    method WriteRows(line: Vec3 -> string) returns (text: string)
      requires Valid()
      ensures text == Header(width, height) + RowsFrom(data[..], width, height, 0, line)
    {
      text := "P3\n" + Decimal.IntToDecimal(width) + " " + Decimal.IntToDecimal(height) + "\n255\n";
      var j: int := height - 1;
      while j >= 0
        invariant -1 <= j < height
        invariant text == Header(width, height) + RowsFrom(data[..], width, height, j + 1, line)
      {
        ghost var before := text;
        text := WriteRow(j, text, line);
        RowsFromNext(data[..], width, height, j, line, Header(width, height), before, text);
        j := j - 1;
      }
      assert j + 1 == 0;
    }

    /**
     * The inner loop of `toPPMFile`: appends the text `line` of each cell of
     * row `j`, left to right (`toPPMFile` passes `vec3toStream`).
     */
    method WriteRow(j: nat, prefix: string, line: Vec3 -> string) returns (text: string)
      requires Valid() && j < height
      ensures j * width + width <= data.Length
      ensures text == prefix + Cells(data[..], j * width, width, line)
    {
      RowFits(width, height, j);
      text := prefix;
      for i := 0 to width
        invariant text == prefix + Cells(data[..], j * width, i, line)
      {
        CellInBuffer(width, height, j, i);
        CellsNext(data[..], j * width, i, line, prefix, text);
        text := text + line(data[j * width + i]);
      }
    }
  }
}
