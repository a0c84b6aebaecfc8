# Mandelbrot set renderer: partitioner, sequential render loop and position hand-off

This project models the non-numeric core of the Mandelbrot set renderer in
`lib/fractal/mandelbrot/mandlbrot_set.go`:

- **Column partitioner** (`Partition`). `GetRanges(partsNum, width)` splits an image
  width into `partsNum` column ranges for the concurrent renderer. The method builds
  the list in a counted loop, as the source does. It is proved equal to the function
  `Ranges`. Lemmas then state what those ranges are. The first is `{0, width/partsNum}`.
  Middle ones are `{(i-1)*rangeSize+1, i*rangeSize}`. The last ends at `width`. Each
  range starts one column after the previous one ends, and no column is in two ranges.
  The central lemma, `CoverageExact`, gives exactly which columns a worker paints
  (`Start <= x < End`). These are the columns of `[0, width)` except the columns
  `k * rangeSize` for `1 <= k < partsNum`. So the ranges are **not** a gap-free
  partition: those columns are never painted.
- **Sequential renderer** (`Mandelbrot.MandelbrotSet.Sequential`, with `Raster`). The
  nested row/column loop writes `pixel(pos, w, h, x, y)` into every cell of a fresh
  `w × h` image. It touches no other state. It visits the cells in row-major order,
  recorded in a ghost trace. `Raster.RowMajorAt` and `Raster.RowMajorVisitsEachOnce`
  prove that this order visits each cell exactly once.
- **Position hand-off** (`Mandelbrot.Parameters`, `Mandelbrot.MandelbrotSet`). The
  buffered channel of capacity 1 is a field `position: Option<PositionParameters>`.
  `NewParameters` (the `Parameters` constructor) fills it with the initial position
  `(kx 1.5, ky 1.2, centx -0.75, centy 0)`. `SendPosition` stores a copy of the current
  position. `ImageRender` takes the pending position without waiting, or keeps `pos`
  unchanged when the slot is empty. `RenderSession` proves the sequence the window
  drives: the first render adopts the initial position, the next one keeps it, and a
  render after a zoom adopts the zoomed position.

The per-pixel kernel (`pixel`, escape-time iteration and colouring in floating point)
is the function parameter `pixel` of type `Kernel`. It takes the adopted position and
`(w, h, x, y)`.

Facts about the code that shape the model:

- The ranges are not a gap-free partition. Each later range starts at
  `(i-1)*rangeSize + 1` (lines 115 and 118), one past the previous `End`, and the
  worker loop treats `End` as exclusive (line 163). So column `k*rangeSize` is never
  painted, and when `partsNum > width` neither is column 0.
- `sendPosition` is a blocking send on a channel of capacity 1 (lines 30 and 55). A
  full slot is never overwritten, so an empty slot is the precondition of
  `SendPosition` and `Zoom`.
- Every render allocates a fresh image (line 140), and so does the model (`fresh(img)`).
- A negative scroll delta picks the zoom multiplier 0.9, otherwise 1.1 (lines 34-37).
  This arithmetic is not part of the model (see below).

In the source, `NewParameters` returns a `Parameters` struct by value and
`MandelbrotSet` keeps that one copy. The model makes `Parameters` a class that the set
holds by reference. This is the same thing, because only that one copy is ever used.
Go's `/` truncates toward zero; `Partition.GoDiv` models it, so `GetRanges` is
modelled for every width and every non-zero `partsNum`. A negative `partsNum` gives no
ranges.

## Model

`FirstRange`, `LastRange` and `MiddleRange` state the closed form of each range for
reading. The properties that carry weight are `CoverageExact`, `NotAPartition`,
`RangesDisjoint`, `NextStartsAfterEnd` and `RangesAscend`.

| member | source | states |
|---|---|---|
| `Partition.GoDiv` | lib/fractal/mandelbrot/mandlbrot_set.go:106 | Go's truncating division. For a positive divisor the quotient times the divisor lies within one divisor of the dividend, toward zero: `0 <= q*b <= a < q*b+b` for `a >= 0`, and `a <= q*b < a+b` with `q <= 0` for `a < 0`. |
| `Partition.GetRanges` | lib/fractal/mandelbrot/mandlbrot_set.go:104-122 | For any non-zero `partsNum` the loop returns exactly `partsNum` ranges (none when it is negative), and they are the ranges `Ranges(partsNum, width)` that the lemmas below describe. |
| `Partition.FirstRange` | lib/fractal/mandelbrot/mandlbrot_set.go:106-112 | The first range is `{0, width/partsNum}`. With one part the whole result is `[{0, width}]`. |
| `Partition.LastRange` | lib/fractal/mandelbrot/mandlbrot_set.go:114-116 | With at least two parts the last range is `{(partsNum-1)*rangeSize+1, width}`, so it ends at `width`. |
| `Partition.MiddleRange` | lib/fractal/mandelbrot/mandlbrot_set.go:118 | Each middle part `i` (`1 < i < partsNum`) is `{(i-1)*rangeSize+1, i*rangeSize}`. |
| `Partition.NextStartsAfterEnd` | lib/fractal/mandelbrot/mandlbrot_set.go:108-119 | For every width, each range after the first starts exactly one column after the previous range's `End`. |
| `Partition.RangesAscend` | lib/fractal/mandelbrot/mandlbrot_set.go:108-119 | For a non-negative width, any earlier range ends strictly before any later range starts. |
| `Partition.RangesDisjoint` | lib/fractal/mandelbrot/mandlbrot_set.go:108-119 | For every width, no column lies in two different half-open ranges, so no two workers paint the same column. |
| `Partition.RangesWithinWidth` | lib/fractal/mandelbrot/mandlbrot_set.go:104-121 | For a non-negative width every `Start` lies in `[0, width+1]` and every `End` in `[0, width]`, so no bound overflows a Go `int` unless `width` itself is the largest `int`. |
| `Partition.MorePartsThanColumns` | lib/fractal/mandelbrot/mandlbrot_set.go:106-118 | When `0 <= width < partsNum`, `rangeSize` is 0. The first range is `{0, 0}`, every middle range is `{1, 0}` (it covers nothing), and the last is `{1, width}`. |
| `Partition.CoverageExact` | lib/fractal/mandelbrot/mandlbrot_set.go:108-119 | A worker loop `x := Start; x < End` (line 163) paints column `x` if and only if `0 <= x < width` and `x` is not one of the columns `k*rangeSize`, `1 <= k < partsNum`. This holds for every width, negative included, and for every `partsNum >= 1`. |
| `Partition.GapColumn` | lib/fractal/mandelbrot/mandlbrot_set.go:115-118 | For each `1 <= k < partsNum`, column `k*rangeSize` lies in no range, and for a width of at least 1 that column lies inside the image, in `[0, width)`. When `rangeSize` is 0 this is column 0. |
| `Partition.NotAPartition` | lib/fractal/mandelbrot/mandlbrot_set.go:108-119 | With at least two parts and a width of at least 1, some column of `[0, width)` lies in no range: the as-written ranges never partition the image. |
| `Partition.GapExample` | lib/fractal/mandelbrot/mandlbrot_set.go:115 | With two parts over ten columns the ranges are `{0, 5}` and `{6, 10}`. Column 5 lies in neither, but it lies in the corrected ranges. |
| `Partition.CorrectedCoverage` | lib/fractal/mandelbrot/mandlbrot_set.go:104-122 | With each later range starting at `(i-1)*rangeSize`, the ranges cover exactly the columns `[0, width)`, for every `partsNum >= 1` and every non-negative width. |
| `Partition.CorrectedDisjoint` | lib/fractal/mandelbrot/mandlbrot_set.go:104-122 | With the corrected start, no column lies in two ranges. |
| `Raster.RowMajorAt` | lib/fractal/mandelbrot/mandlbrot_set.go:142-146 | The nested `y`/`x` loops visit `w*h` cells, and the `i`-th cell visited is `(i % w, i / w)`, which is row-major order. |
| `Raster.RowMajorVisitsEachOnce` | lib/fractal/mandelbrot/mandlbrot_set.go:142-146 | Every cell `(x, y)` of the `w × h` raster is visited at position `y*w + x` and at no other position. |
| `Mandelbrot.Parameters.constructor` | lib/fractal/mandelbrot/mandlbrot_set.go:64-82 | `NewParameters`: depth 500, zoom 1, phases (4, 2, 1), frequencies (0.15, 0.15, 0.10), position (1.5, 1.2, -0.75, 0), and the slot already holds that position. |
| `Mandelbrot.Parameters.SendPosition` | lib/fractal/mandelbrot/mandlbrot_set.go:54-61 | On an empty slot, the slot afterwards holds a copy of the current `kx, ky, centx, centy`, and nothing else changes. |
| `Mandelbrot.Parameters.Zoom` | lib/fractal/mandelbrot/mandlbrot_set.go:46-51 | The position fields take the new position and that position is sent into the (empty) slot. |
| `Mandelbrot.MandelbrotSet.New` | lib/fractal/mandelbrot/mandlbrot_set.go:90-95 | A new set holds fresh parameters with the defaults of `NewParameters` (depth 500, zoom 1, phases (4, 2, 1), frequencies (0.15, 0.15, 0.10), position (1.5, 1.2, -0.75, 0)) and a slot holding the initial position, the name "Mandelbrot set", and the zero position in `pos`. |
| `Mandelbrot.MandelbrotSet.Zoom` | lib/fractal/mandelbrot/mandlbrot_set.go:174-176 | Forwards to `Parameters.Zoom`, so afterwards the slot holds the new position. |
| `Mandelbrot.MandelbrotSet.ImageRender` | lib/fractal/mandelbrot/mandlbrot_set.go:124-137 | A pending position is adopted into `pos` and the slot is emptied. With an empty slot, `pos` stays unchanged. Either way the slot is empty afterwards, and the result is a fresh `w × h` image whose every cell is `pixel(pos, w, h, x, y)` at the adopted position. |
| `Mandelbrot.MandelbrotSet.Sequential` | lib/fractal/mandelbrot/mandlbrot_set.go:139-149 | Returns a fresh `w × h` image in which every cell `(x, y)` holds `pixel(pos, w, h, x, y)`. It changes no existing state. Cells are written in the order `RowMajor(w, h)`. |
| `Mandelbrot.RenderSession` | lib/fractal/mandelbrot/mandlbrot_set.go:127-130 | After `New`, the first render adopts the initial position and paints every cell with it. A second render with no zoom in between keeps that position. A render after `Zoom(next)` adopts `next`. |

## Findings

| source | as written | input that shows it | evidently intended | confidence | as-written member | corrected member |
|---|---|---|---|---|---|---|
| lib/fractal/mandelbrot/mandlbrot_set.go:115-118 | every range after the first starts at `(i-1)*rangeSize + 1`, one past the previous `End`, which the worker loop treats as exclusive | `GetRanges(2, 10)` gives `{0, 5}, {6, 10}`, so column 5 is never painted; `GetRanges(10, 5)` gives `rangeSize` 0 and column 0 is never painted | each range starts at `(i-1)*rangeSize`, so the ranges cover `[0, width)` with no gap and no overlap | high; not executed | `Partition.GapExample` | `Partition.CorrectedCoverage` |

The defect is latent: `ImageRender` calls `sequential`, and the call to `concurrent`, the
only user of `GetRanges`, is commented out (line 133). Nothing else in the model
consumes the ranges, so the corrected ranges `Partition.CorrectedRanges` stand beside the
as-written `Partition.Ranges` rather than replacing them.

## Left out

- Partition.GetRanges: `partsNum == 0` divides by zero at line 106 and panics. It is a
  precondition, because the only caller, `concurrent`, passes `runtime.NumCPU()*3`,
  which is at least 3 (line 152).

- `pixel`, `checkMandelbrot`, `getColor` and `ci` (lines 178-229) are float64
  escape-time iteration with `math.Sin`, `Log` and `Sqrt` and a `uint8` conversion.
  Dafny has no faithful float64 model, so the kernel is the function parameter `pixel`.
- Mandelbrot.Parameters.Zoom: the float32/float64 transform of lines 34-49 (multiplier
  choice, pointer mapping, new bounds) and the `zoom /= mult` update are floating-point
  maths. The new position is taken as the parameter `next`, and the `zoom` field is left
  unchanged.
- `concurrent` (lines 151-172) runs goroutines joined by a `sync.WaitGroup`. The
  concurrency is not modelled. The columns its workers paint are exactly those that
  `Partition.CoverageExact` characterises.
- Timing and logging in `ImageRender` (`time.Now`, `fmt.Println`, lines 125 and 135)
  are I/O and are left out.
- Mandelbrot.MandelbrotSet.ImageRender: the width and height are `nat`. With a negative
  dimension, `image.Rect` would canonicalise the rectangle and the loops would paint
  nothing; that case is not modelled.
- Mandelbrot.Parameters.SendPosition: a send on a full slot blocks the sender until a
  render empties it. With one sequential caller this never returns, so it is a
  precondition rather than a modelled wait.
- Integers are unbounded. `Partition.RangesWithinWidth` shows that `GetRanges` stays
  within `[0, width+1]` for a non-negative width, so 64-bit wrap-around does not arise
  there.
- `cmd/fractal/main.go`, `lib/components/widgets.go` (window, shortcuts and scroll-event
  glue) and `lib/fractal/fractal.go` (an interface with no behaviour) are not part of
  this model.
