/**
 * The WGSL compute kernel `main` (one invocation per logical dot): read the
 * packed pixel of dot (x, y), substitute the "DMD off" colour for pixels
 * that are too dark, and fill the dot's 4 x 4 block of the screen buffer.
 *
 * Pixels are 32-bit words. The host uploads the canvas's RGBA bytes as
 * little-endian words, so byte 0 of a word is the canvas's red channel and
 * the kernel's `pixel >> 16` is the canvas's blue channel; `Pack` states
 * that packing and `CanvasDarkness` shows that the darkness test does not
 * depend on it.
 */
module DotKernel {
  import opened U32
  import opened DmdGeometry

  type Pixel = bv32

  /** The replacement colour: bytes 15, 15, 15 with an opaque alpha byte. */
  const OffColor: Pixel := 4279176975

  /** The kernel's darkness test; the alpha byte (bits 24-31) is ignored. */
  predicate IsDark(p: Pixel) {
    var r := (p >> 16) & 255;
    var g := (p >> 8) & 255;
    var b := p & 255;
    r < 15 && g < 15 && b < 15
  }

  /** Dark pixels are replaced by `OffColor`; all others pass unchanged. */
  function Substitute(p: Pixel): (q: Pixel)
    ensures !IsDark(q)
    ensures q == p <==> !IsDark(p)
    ensures q != p ==> q == OffColor
  {
    if IsDark(p) then OffColor else p
  }

  /** Substituting twice is substituting once. */
  lemma SubstituteIdempotent(p: Pixel)
    ensures Substitute(Substitute(p)) == Substitute(p)
  {
  }

  /** The little-endian word the host uploads for canvas bytes r, g, b, a. */
  function Pack(r: bv8, g: bv8, b: bv8, a: bv8): Pixel {
    (a as Pixel << 24) | (b as Pixel << 16) | (g as Pixel << 8) | r as Pixel
  }

  /**
   * Seen through the canvas's bytes: a pixel is dark exactly when its red,
   * green and blue bytes are all below 15, whatever its alpha; and the
   * replacement colour is the opaque pixel (15, 15, 15).
   */
  lemma CanvasDarkness(r: bv8, g: bv8, b: bv8, a: bv8)
    ensures IsDark(Pack(r, g, b, a)) <==> r < 15 && g < 15 && b < 15
    ensures OffColor == Pack(15, 15, 15, 255)
  {
  }

  /**
   * The screen after invocation (x, y) ran on screen `out`: the cells of dot
   * (x, y) hold the substituted input pixel, every other pixel is unchanged.
   */
  function ApplyDot(out: seq<Pixel>, input: seq<Pixel>, x: nat, y: nat): (r: seq<Pixel>)
    requires |out| == ScreenPixels && |input| == DmdPixels && IsDot(x, y)
    ensures |r| == ScreenPixels
  {
    seq(ScreenPixels, i requires 0 <= i < ScreenPixels =>
      if InDot(i, x, y) then Substitute(input[InputIndex(x, y)]) else out[i])
  }

  /** Invocation (x, y) writes every cell of its block with its substituted pixel. */
  lemma ApplyDotWritesBlock(out: seq<Pixel>, input: seq<Pixel>, x: nat, y: nat, row: nat, col: nat)
    requires |out| == ScreenPixels && |input| == DmdPixels && IsDot(x, y) && IsCell(row, col)
    ensures CellIndex(x, y, row, col) < ScreenPixels
    ensures ApplyDot(out, input, x, y)[CellIndex(x, y, row, col)] == Substitute(input[x + y * DmdWidth])
  {
    DecodeCell(x, y, row, col);
  }

  /** Invocation (x, y) leaves every pixel outside its block as it was. */
  lemma ApplyDotFrame(out: seq<Pixel>, input: seq<Pixel>, x: nat, y: nat, i: nat)
    requires |out| == ScreenPixels && |input| == DmdPixels && IsDot(x, y) && i < ScreenPixels
    requires forall row, col | IsCell(row, col) :: CellIndex(x, y, row, col) != i
    ensures ApplyDot(out, input, x, y)[i] == out[i]
  {
    if !IsGap(i) {
      EncodeCell(i);
    }
  }

  /** Two invocations commute, and running one twice is running it once. */
  lemma ApplyDotCommutes(out: seq<Pixel>, input: seq<Pixel>, x1: nat, y1: nat, x2: nat, y2: nat)
    requires |out| == ScreenPixels && |input| == DmdPixels && IsDot(x1, y1) && IsDot(x2, y2)
    ensures ApplyDot(ApplyDot(out, input, x1, y1), input, x2, y2)
         == ApplyDot(ApplyDot(out, input, x2, y2), input, x1, y1)
    ensures ApplyDot(ApplyDot(out, input, x1, y1), input, x1, y1) == ApplyDot(out, input, x1, y1)
  {
  }

  /**
   * The kernel body for invocation id (x, y), filling `output` in place.
   * The index arithmetic is WGSL's wrapping u32 arithmetic; the proof shows
   * that it never wraps and that every write is in bounds.
   */
  method ExpandDot(input: seq<Pixel>, output: array<Pixel>, x: U32, y: U32)
    requires |input| == DmdPixels && output.Length == ScreenPixels && IsDot(x, y)
    modifies output
    ensures output[..] == ApplyDot(old(output[..]), input, x, y)
  {
    var index: U32 := Add(x, Mul(y, DmdWidth));
    var pixel := input[index];
    pixel := Substitute(pixel);

    var resizedPixelIndex: U32 :=
      Add(Add(Mul(x, DotWidth), Mul(x, HSpace)), Mul(Mul(y, ScreenWidth), Add(DotHeight, VSpace)));
    assert resizedPixelIndex == CellIndex(x, y, 0, 0);

    var row: U32 := 0;
    while row < DotHeight
      invariant row <= DotHeight
      invariant resizedPixelIndex == CellIndex(x, y, row, 0)
      invariant forall i | 0 <= i < ScreenPixels ::
        output[i] == if InDot(i, x, y) && CellRow(i) < row then pixel else old(output[i])
    {
      var col: U32 := 0;
      while col < DotWidth
        invariant col <= DotWidth
        invariant resizedPixelIndex == CellIndex(x, y, row, col)
        invariant forall i | 0 <= i < ScreenPixels ::
          output[i] == if InDot(i, x, y) && (CellRow(i) < row || (CellRow(i) == row && CellCol(i) < col))
            then pixel else old(output[i])
      {
        DecodeCell(x, y, row, col);
        forall i | 0 <= i < ScreenPixels && InDot(i, x, y) && CellRow(i) == row && CellCol(i) == col
          ensures i == resizedPixelIndex
        {
          EncodeCell(i);
        }
        output[resizedPixelIndex] := pixel;
        resizedPixelIndex := Add(resizedPixelIndex, 1);
        col := Add(col, 1);
      }
      resizedPixelIndex := Sub(Add(resizedPixelIndex, ScreenWidth), DotWidth);
      row := Add(row, 1);
    }
    assert forall i | 0 <= i < ScreenPixels ::
      output[..][i] == ApplyDot(old(output[..]), input, x, y)[i];
  }
}
