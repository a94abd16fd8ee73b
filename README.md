# Dot-matrix display expansion kernel

A Dafny model of the core of a WebGPU proof of concept that simulates a
pinball dot-matrix display (DMD). Each frame, a 256 x 78 image of packed
32-bit RGBA pixels is expanded onto a 1280 x 390 screen buffer. Every
logical dot becomes a 4 x 4 block of screen pixels, followed by one blank
column and one blank row. Pixels whose three colour bytes are all below 15
are first replaced by a fixed "display off" colour. A WGSL compute kernel
does the expansion, one invocation per dot, dispatched over the whole grid.

Modules, one per part of `src/index.ts`:

- `U32` (`u32.dfy`): WGSL's wrapping `u32` addition, subtraction and
  multiplication. The kernel's index arithmetic is written with them, so
  the proofs show that no index ever wraps.
- `DmdGeometry` (`geometry.dfy`): the geometry and buffer-size constants.
  `CellIndex` gives the screen index of cell (row, col) of dot (x, y).
  `DotX`, `DotY`, `CellRow` and `CellCol` decode a screen index back into
  a dot and an offset within the dot pitch. `IsGap` marks the blank column
  and row of each pitch.
- `DotKernel` (`kernel.dfy`): pixels as `bv32`, the darkness test and the
  substitution, and the kernel body `ExpandDot`. It fills the block of one
  dot in an `array` in place, with the source's two nested loops and its
  running index. Its specification is the function `ApplyDot`, the screen
  after one invocation.
- `ComputeDispatch` (`dispatch.dfy`): the expanded frame `Expanded` that
  the dispatch computes, and `RunSchedule`, which runs invocations in any
  given order. The method `Dispatch` runs every dot of the grid on the
  output buffer in place.

`ApplyDot`, `Expanded` and `RunSchedule` are specification functions. Their
meaning is stated by the lemmas listed below.

The input frame is a `seq` because the kernel binds it read-only. The output
buffer is an `array` because the kernel writes it in place. The host uploads
the canvas's RGBA bytes as little-endian words (`src/index.ts:240`), so the
kernel's `r` (`pixel >> 16`) is really the canvas's blue byte. `Pack` states
this packing, and `CanvasDarkness` shows that the darkness test means the
same either way.

The code and the design description disagree on one point. The replacement
colour `4279176975` (`0xFF0F0F0F`) is described as a dark amber tint. In the
code it is the opaque neutral grey (15, 15, 15). The model follows the code.

## Model

| member | source | states |
|---|---|---|
| `U32.Add` | src/index.ts:92 | u32 addition equals the integer sum below 2^32 and wraps by 2^32 above it |
| `U32.Sub` | src/index.ts:94 | u32 subtraction equals the integer difference when it is not negative and wraps by 2^32 otherwise |
| `U32.Mul` | src/index.ts:87 | u32 multiplication equals the integer product when that is below 2^32 |
| `DmdGeometry.GeometryConsistent` | src/index.ts:13-28 | 256 dots of pitch 4+1 fill the 1280-pixel width, 78 dots of pitch 4+1 fill the 390-pixel height, and both byte lengths are the pixel counts times 4 |
| `DmdGeometry.InputIndex` | src/index.ts:70-72 | the input index `x + y*256` of every dispatched dot lies in `[0, 256*78)` and decodes back to column x and row y |
| `DmdGeometry.DecodeCell` | src/index.ts:87-95 | cell (row, col) of dot (x, y) lies on the screen, is not a gap, and decodes back to exactly (x, y, row, col) |
| `DmdGeometry.EncodeCell` | src/index.ts:87-95 | every non-gap screen pixel is cell (CellRow, CellCol) of the in-range dot (DotX, DotY) |
| `DotKernel.Substitute` | src/index.ts:74-84 | the result is never dark; it equals the input exactly when the input is not dark; if it differs, it is `OffColor` |
| `DotKernel.SubstituteIdempotent` | src/index.ts:81-82 | substituting twice is substituting once, because the replacement's colour bytes are 15, not below 15 |
| `DotKernel.CanvasDarkness` | src/index.ts:74-84 | for the little-endian word of canvas bytes r, g, b, a: dark exactly when r, g and b are all below 15, whatever a is; `OffColor` is the word of (15, 15, 15, 255) |
| `DotKernel.ApplyDotWritesBlock` | src/index.ts:87-95 | one invocation sets every cell of its 4 x 4 block to its substituted input pixel |
| `DotKernel.ApplyDotFrame` | src/index.ts:87-95 | one invocation leaves every screen pixel outside its block unchanged |
| `DotKernel.ApplyDotCommutes` | src/index.ts:87-95 | two invocations give the same screen in either order, and repeating an invocation changes nothing |
| `DotKernel.ExpandDot` | src/index.ts:69-96 | the kernel body, with wrapping u32 index arithmetic and its two nested loops, leaves the buffer equal to `ApplyDot` of its old contents; every write is in bounds |
| `ComputeDispatch.ExpandedBlock` | src/index.ts:87-95 | in the expanded frame, every cell of the block of dot (x, y) holds the substituted input pixel `x + y*256` |
| `ComputeDispatch.ExpandedDarkness` | src/index.ts:80-84 | every cell of a dark dot's block is `OffColor`; every cell of another dot's block is the input pixel unchanged |
| `ComputeDispatch.ExpandedGap` | src/index.ts:89-95 | a gap pixel is no cell of any dot and keeps its pre-dispatch value |
| `ComputeDispatch.BlocksDisjoint` | src/index.ts:87-95 | two cells of in-range dots coincide only when dot and cell coordinates all agree, so blocks are disjoint and each has exactly 16 distinct on-screen cells |
| `ComputeDispatch.LastDotFits` | src/index.ts:87-95 | the last cell of the last dot (255, 77) is screen pixel (1278, 388), inside the buffer |
| `ComputeDispatch.RunScheduleAt` | src/index.ts:247 | after any sequence of invocations, a pixel holds its dot's substituted pixel if that dot was run, and its old value otherwise |
| `ComputeDispatch.ScheduleCovering` | src/index.ts:247 | every order that runs each dot of the grid at least once produces the expanded frame |
| `ComputeDispatch.ScheduleIndependent` | src/index.ts:247 | any two such orders produce the same screen |
| `ComputeDispatch.ExpandedIdempotent` | src/index.ts:247 | dispatching the same frame onto an already expanded buffer leaves it unchanged |
| `ComputeDispatch.SolidFrame` | src/index.ts:87-95 | a frame of one non-dark colour expands to that colour in every dot cell, and the gaps stay as they were |
| `ComputeDispatch.Dispatch` | src/index.ts:247 | running the kernel on every dot of the 256 x 78 grid leaves the output buffer equal to the expanded frame of the input and the old buffer |

## Left out

- GPU resource handling: the creation of buffers, bind groups and pipelines, command encoding, the buffer-to-buffer copy and the asynchronous map for reading (`src/index.ts:172-267`, `273-280`). These are foreign API calls with no logic. The model takes the kernel's output buffer as the result.
- Parallel execution: invocations are modelled as running one after another. Their independence is stated by `ApplyDotCommutes`, `BlocksDisjoint` and `ScheduleCovering` instead.
- The byte views: uploading the canvas bytes into the input buffer and reading the screen buffer back as bytes (`src/index.ts:240`, `258-261`). The little-endian packing is stated by `Pack` and assumed for the upload.
- Canvas compositing and loading of the image and video assets (`src/index.ts:30-51`, `106-116`): browser I/O.
- The FPS readout `renderFPS` (`src/index.ts:126-148`): it uses the wall clock, floating-point division and the DOM.
- The click handler and the `requestAnimationFrame` loop (`src/index.ts:121`, `151-157`): UI event scheduling.
- The geometry is fixed to the source's constants. Other dot sizes, gaps and screen sizes are not modelled, because the source bakes the constants into the shader text.
- U32.Mul: the contract states only the case without wrap-around, the only case the kernel reaches with its in-range invocation ids. The body still wraps modulo 2^32.
