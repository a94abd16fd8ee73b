/**
 * The fixed geometry of the simulated dot-matrix display: a 256 x 78 grid
 * of logical dots, each drawn as a 4 x 4 block of screen pixels followed by
 * one blank column and one blank row, on a 1280 x 390 screen.
 *
 * The kernel's writes are described from both ends: `CellIndex` says where
 * cell (row, col) of dot (x, y) lands in the flat screen buffer, and
 * `DotX`/`DotY`/`CellRow`/`CellCol` decode a flat screen index back into the
 * dot and the offset within the dot pitch. `DecodeCell` and `EncodeCell`
 * prove the two mutually inverse; bounds, disjointness of blocks and the
 * untouched gaps all follow from them.
 */
module DmdGeometry {

  const DotWidth: nat := 4
  const DotHeight: nat := 4
  const HSpace: nat := 1
  const VSpace: nat := 1

  const DmdWidth: nat := 256
  const DmdHeight: nat := 78
  const DmdPixels: nat := DmdWidth * DmdHeight
  const DmdBufferByteLength: nat := DmdWidth * DmdHeight * 4

  const ScreenWidth: nat := 1280
  const ScreenHeight: nat := 390
  const ScreenPixels: nat := ScreenWidth * ScreenHeight
  const ScreenBufferByteLength: nat := ScreenWidth * ScreenHeight * 4

  /** Horizontal and vertical distance between the origins of adjacent dots. */
  const HPitch: nat := DotWidth + HSpace
  const VPitch: nat := DotHeight + VSpace

  /** The configured buffer sizes agree with the dot geometry. */
  lemma GeometryConsistent()
    ensures DmdWidth * (DotWidth + HSpace) == ScreenWidth
    ensures DmdHeight * (DotHeight + VSpace) == ScreenHeight
    ensures DmdBufferByteLength == DmdPixels * 4
    ensures ScreenBufferByteLength == ScreenPixels * 4
  {
  }

  predicate IsDot(x: int, y: int) {
    0 <= x < DmdWidth && 0 <= y < DmdHeight
  }

  predicate IsCell(row: int, col: int) {
    0 <= row < DotHeight && 0 <= col < DotWidth
  }

  /** Index, in the packed input frame, of the logical pixel of dot (x, y). */
  function InputIndex(x: nat, y: nat): (k: nat)
    requires IsDot(x, y)
    ensures k < DmdPixels
    ensures k % DmdWidth == x && k / DmdWidth == y
  {
    x + y * DmdWidth
  }

  /** Screen index of the top-left cell of dot (x, y). */
  function DotOrigin(x: nat, y: nat): nat {
    x * DotWidth + x * HSpace + y * ScreenWidth * VPitch
  }

  /** Screen index of cell (row, col) of dot (x, y). */
  function CellIndex(x: nat, y: nat, row: nat, col: nat): nat {
    DotOrigin(x, y) + row * ScreenWidth + col
  }

  /** Decoding a flat screen index into dot coordinates and pitch offsets. */
  function DotX(i: nat): nat { (i % ScreenWidth) / HPitch }
  function DotY(i: nat): nat { (i / ScreenWidth) / VPitch }
  function CellCol(i: nat): nat { (i % ScreenWidth) % HPitch }
  function CellRow(i: nat): nat { (i / ScreenWidth) % VPitch }

  /** A gap pixel lies in the blank column or the blank row of a dot pitch. */
  predicate IsGap(i: nat) {
    CellCol(i) >= DotWidth || CellRow(i) >= DotHeight
  }

  /** Screen pixel i is one of the cells of dot (x, y). */
  predicate InDot(i: nat, x: nat, y: nat) {
    i < ScreenPixels && !IsGap(i) && DotX(i) == x && DotY(i) == y
  }

  /** Every cell of every dot lies on the screen and decodes back to itself. */
  lemma DecodeCell(x: nat, y: nat, row: nat, col: nat)
    requires IsDot(x, y) && IsCell(row, col)
    ensures CellIndex(x, y, row, col) < ScreenPixels
    ensures InDot(CellIndex(x, y, row, col), x, y)
    ensures CellRow(CellIndex(x, y, row, col)) == row
    ensures CellCol(CellIndex(x, y, row, col)) == col
  {
    var i := CellIndex(x, y, row, col);
    var line := y * VPitch + row;
    var column := x * HPitch + col;
    assert i == line * ScreenWidth + column;
  }

  /** Every screen pixel that is not a gap is a cell of exactly one dot. */
  lemma EncodeCell(i: nat)
    requires i < ScreenPixels && !IsGap(i)
    ensures IsDot(DotX(i), DotY(i)) && IsCell(CellRow(i), CellCol(i))
    ensures i == CellIndex(DotX(i), DotY(i), CellRow(i), CellCol(i))
  {
    var line, column := i / ScreenWidth, i % ScreenWidth;
    assert i == line * ScreenWidth + column;
    assert line < ScreenHeight;
    assert line == DotY(i) * VPitch + CellRow(i);
    assert column == DotX(i) * HPitch + CellCol(i);
  }
}
