/**
 * The compute dispatch `dispatch(dmdWidth, dmdHeight)` with workgroup size
 * one: the kernel runs once for every dot (x, y) of the 256 x 78 grid, with
 * no ordering between invocations.
 *
 * `Expanded` is the expanded frame the dispatch is meant to produce. The
 * pure `RunSchedule` runs the invocations one after another in any given
 * order, and `ScheduleCovering` proves that every order that runs each dot
 * at least once yields `Expanded`; the method `Dispatch` runs them in
 * row-major order on the output buffer in place.
 */
module ComputeDispatch {
  import opened U32
  import opened DmdGeometry
  import opened DotKernel

  /**
   * The expanded frame: each non-gap screen pixel holds the substituted
   * input pixel of the dot it belongs to; gap pixels keep their value from
   * `before`, the buffer's contents prior to the dispatch.
   */
  function Expanded(input: seq<Pixel>, before: seq<Pixel>): (r: seq<Pixel>)
    requires |input| == DmdPixels && |before| == ScreenPixels
    ensures |r| == ScreenPixels
  {
    seq(ScreenPixels, i requires 0 <= i < ScreenPixels =>
      if IsGap(i) then before[i] else Substitute(input[InputIndex(DotX(i), DotY(i))]))
  }

  /** Every cell of the block of dot (x, y) holds that dot's substituted pixel. */
  lemma ExpandedBlock(input: seq<Pixel>, before: seq<Pixel>, x: nat, y: nat, row: nat, col: nat)
    requires |input| == DmdPixels && |before| == ScreenPixels && IsDot(x, y) && IsCell(row, col)
    ensures CellIndex(x, y, row, col) < ScreenPixels
    ensures Expanded(input, before)[CellIndex(x, y, row, col)] == Substitute(input[x + y * DmdWidth])
  {
    DecodeCell(x, y, row, col);
  }

  /**
   * The darkness rule on the whole frame: a cell of a dot whose input pixel
   * is dark holds `OffColor`, and a cell of any other dot holds the input
   * pixel unchanged.
   */
  lemma ExpandedDarkness(input: seq<Pixel>, before: seq<Pixel>, x: nat, y: nat, row: nat, col: nat)
    requires |input| == DmdPixels && |before| == ScreenPixels && IsDot(x, y) && IsCell(row, col)
    ensures CellIndex(x, y, row, col) < ScreenPixels
    ensures IsDark(input[x + y * DmdWidth]) ==> Expanded(input, before)[CellIndex(x, y, row, col)] == OffColor
    ensures !IsDark(input[x + y * DmdWidth]) ==> Expanded(input, before)[CellIndex(x, y, row, col)] == input[x + y * DmdWidth]
  {
    ExpandedBlock(input, before, x, y, row, col);
  }

  /** Gap pixels are never written: they keep their pre-dispatch value. */
  lemma ExpandedGap(input: seq<Pixel>, before: seq<Pixel>, i: nat)
    requires |input| == DmdPixels && |before| == ScreenPixels && i < ScreenPixels && IsGap(i)
    ensures Expanded(input, before)[i] == before[i]
    ensures forall x, y, row, col | IsDot(x, y) && IsCell(row, col) :: CellIndex(x, y, row, col) != i
  {
    forall x, y, row, col | IsDot(x, y) && IsCell(row, col)
      ensures CellIndex(x, y, row, col) != i
    {
      DecodeCell(x, y, row, col);
    }
  }

  /**
   * The blocks of distinct dots are disjoint, and within one block the
   * 4 x 4 cells are pairwise distinct, so each invocation writes exactly
   * DotWidth * DotHeight screen pixels, all on the screen.
   */
  lemma BlocksDisjoint(x1: nat, y1: nat, row1: nat, col1: nat, x2: nat, y2: nat, row2: nat, col2: nat)
    requires IsDot(x1, y1) && IsCell(row1, col1) && IsDot(x2, y2) && IsCell(row2, col2)
    ensures CellIndex(x1, y1, row1, col1) < ScreenPixels
    ensures CellIndex(x1, y1, row1, col1) == CellIndex(x2, y2, row2, col2)
        <==> x1 == x2 && y1 == y2 && row1 == row2 && col1 == col2
  {
    DecodeCell(x1, y1, row1, col1);
    DecodeCell(x2, y2, row2, col2);
  }

  /** The last dot of the grid still fits: its last cell is the screen's pixel (1278, 388). */
  lemma LastDotFits()
    ensures CellIndex(DmdWidth - 1, DmdHeight - 1, DotHeight - 1, DotWidth - 1)
         == (ScreenHeight - 2) * ScreenWidth + (ScreenWidth - 2)
    ensures CellIndex(DmdWidth - 1, DmdHeight - 1, DotHeight - 1, DotWidth - 1) < ScreenPixels
  {
  }

  /** Runs the invocations of `schedule` one after another, in that order. */
  function RunSchedule(out: seq<Pixel>, input: seq<Pixel>, schedule: seq<(nat, nat)>): (r: seq<Pixel>)
    requires |out| == ScreenPixels && |input| == DmdPixels
    requires forall k | 0 <= k < |schedule| :: IsDot(schedule[k].0, schedule[k].1)
    ensures |r| == ScreenPixels
    decreases |schedule|
  {
    if schedule == [] then out
    else
      var last := schedule[|schedule| - 1];
      ApplyDot(RunSchedule(out, input, schedule[..|schedule| - 1]), input, last.0, last.1)
  }

  /**
   * After running `schedule`, a screen pixel holds its dot's substituted
   * pixel when its dot was scheduled, and its old value otherwise.
   */
  lemma {:induction false} RunScheduleAt(out: seq<Pixel>, input: seq<Pixel>, schedule: seq<(nat, nat)>, i: nat)
    requires |out| == ScreenPixels && |input| == DmdPixels
    requires forall k | 0 <= k < |schedule| :: IsDot(schedule[k].0, schedule[k].1)
    requires i < ScreenPixels
    ensures RunSchedule(out, input, schedule)[i]
         == if !IsGap(i) && (DotX(i), DotY(i)) in schedule
            then Substitute(input[DotX(i) + DotY(i) * DmdWidth]) else out[i]
    decreases |schedule|
  {
    if schedule != [] {
      var prefix := schedule[..|schedule| - 1];
      RunScheduleAt(out, input, prefix, i);
      assert schedule == prefix + [schedule[|schedule| - 1]];
      if !IsGap(i) {
        EncodeCell(i);
      }
    }
  }

  /**
   * Order independence: running the invocations in ANY order in which every
   * dot of the grid occurs at least once produces the expanded frame.
   */
  lemma ScheduleCovering(out: seq<Pixel>, input: seq<Pixel>, schedule: seq<(nat, nat)>)
    requires |out| == ScreenPixels && |input| == DmdPixels
    requires forall k | 0 <= k < |schedule| :: IsDot(schedule[k].0, schedule[k].1)
    requires forall x, y | IsDot(x, y) :: (x, y) in schedule
    ensures RunSchedule(out, input, schedule) == Expanded(input, out)
  {
    forall i | 0 <= i < ScreenPixels
      ensures RunSchedule(out, input, schedule)[i] == Expanded(input, out)[i]
    {
      RunScheduleAt(out, input, schedule, i);
      if !IsGap(i) {
        EncodeCell(i);
      }
    }
  }

  /** Any two covering orders give the same frame. */
  lemma ScheduleIndependent(out: seq<Pixel>, input: seq<Pixel>, s1: seq<(nat, nat)>, s2: seq<(nat, nat)>)
    requires |out| == ScreenPixels && |input| == DmdPixels
    requires forall k | 0 <= k < |s1| :: IsDot(s1[k].0, s1[k].1)
    requires forall k | 0 <= k < |s2| :: IsDot(s2[k].0, s2[k].1)
    requires forall x, y | IsDot(x, y) :: (x, y) in s1 && (x, y) in s2
    ensures RunSchedule(out, input, s1) == RunSchedule(out, input, s2)
  {
    ScheduleCovering(out, input, s1);
    ScheduleCovering(out, input, s2);
  }

  /**
   * Dispatching the same frame again onto an already expanded buffer
   * changes nothing: gap pixels keep their value, dot cells are rewritten
   * with the same pixels.
   */
  lemma ExpandedIdempotent(input: seq<Pixel>, before: seq<Pixel>)
    requires |input| == DmdPixels && |before| == ScreenPixels
    ensures Expanded(input, Expanded(input, before)) == Expanded(input, before)
  {
  }

  /**
   * A frame of one solid colour c that is not dark expands to c in every
   * cell of every dot, the gaps keeping their pre-dispatch value.
   */
  lemma SolidFrame(input: seq<Pixel>, before: seq<Pixel>, c: Pixel, i: nat)
    requires |input| == DmdPixels && |before| == ScreenPixels && i < ScreenPixels
    requires forall k | 0 <= k < DmdPixels :: input[k] == c
    requires !IsDark(c)
    ensures Expanded(input, before)[i] == if IsGap(i) then before[i] else c
  {
  }

  /**
   * The dispatch over the whole dot grid, on the output buffer in place.
   * Invocations run in row-major order; `ScheduleCovering` shows that the
   * order does not matter.
   */
  method Dispatch(input: seq<Pixel>, output: array<Pixel>)
    requires |input| == DmdPixels && output.Length == ScreenPixels
    modifies output
    ensures output[..] == Expanded(input, old(output[..]))
  {
    var y: U32 := 0;
    while y < DmdHeight
      invariant y <= DmdHeight
      invariant forall i | 0 <= i < ScreenPixels ::
        output[i] == if !IsGap(i) && DotY(i) < y
          then Substitute(input[DotX(i) + DotY(i) * DmdWidth]) else old(output[i])
    {
      var x: U32 := 0;
      while x < DmdWidth
        invariant x <= DmdWidth
        invariant forall i | 0 <= i < ScreenPixels ::
          output[i] == if !IsGap(i) && (DotY(i) < y || (DotY(i) == y && DotX(i) < x))
            then Substitute(input[DotX(i) + DotY(i) * DmdWidth]) else old(output[i])
      {
        ExpandDot(input, output, x, y);
        x := x + 1;
      }
      forall i | 0 <= i < ScreenPixels && !IsGap(i)
        ensures DotX(i) < DmdWidth
      {
        EncodeCell(i);
      }
      y := y + 1;
    }
    forall i | 0 <= i < ScreenPixels && !IsGap(i)
      ensures DotY(i) < DmdHeight
    {
      EncodeCell(i);
    }
    assert forall i | 0 <= i < ScreenPixels :: output[..][i] == Expanded(input, old(output[..]))[i];
  }
}
