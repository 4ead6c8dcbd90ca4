# Heatmap double buffer and spread step, in Dafny

This project models the core of `poster`, a small Go program. The program keeps a
heatmap of unsigned intensities in a flat slice with a stride (`spread`). It runs
one synchronous "ink spreads to empty neighbours" step through a double buffer,
then renders the result as a grayscale image.

The model is functional. A heatmap is a `seq<nat>` with a stride and its
dimensions. The double buffer is a pair of heatmaps. The update rule is a
function value `(nat, Quad) -> nat`, where a `Quad` holds the four neighbours.
Swapping exchanges the two components of the pair.

Modules, one file each:

- `Grid` (`grid.dfy`): the `HeatmapArray` record, `At`/`Set` addressing, the
  constructor, and what the stride-by-height addressing does to coordinates.
- `Neighbourhood` (`neighbours.dfy`): gathering the left, right, up and down
  neighbours of one linear index, with the boundary value at the edges.
- `SpreadRule` (`spread_action.dfy`): `spreadAction`, the first nonzero
  neighbour in the order left, right, up, down.
- `DoubleBuffer` (`double_buffer.dfy`): the front/back pair, `Swap`, the
  synchronous sweep and the `Apply` loop.
- `Render` (`render.dfy`): the per-pixel gray value (the low 8 bits) and the
  average brightness computed by `MakeImage`.

The addressing is modelled as the code writes it. `NewHeatmapArray` sets the
stride to the height, and `At(x, y)` reads slot `x + y * spread`. So the
coordinates map one-to-one into the slice only for square grids and single-row
grids. A grid that is wider (with at least two rows) aliases cells. A grid that
is taller reads past the end of the slice. See "Findings".

Two consequences of the code as written:

- A 3x1 grid has stride 1, so every cell is alone in its linear row. In
  `[0, 0, 7] -> [0, 7, 7]` the middle cell takes the 7 as its DOWN neighbour,
  not its right one (`DoubleBuffer.ThreeCellExample`).
- The code never checks that front and back have equal dimensions. `Apply`
  only needs the back slice to be at least as long as the front one, because
  otherwise the write `hba.b.slice[i]` panics. The model requires exactly that.

## Model

| member | source | states |
|---|---|---|
| `Grid.At` | poster.go:30-32 | Reads slot `x + y*spread`, so the value is one the slice holds. Its law with `Set` is stated by `Grid.Set`, and its 2-D meaning by `Grid.StrideWidthWellAddressed`. |
| `Grid.SizeOf` | poster.go:38-40 | Returns the dimensions given at construction. It has no contract of its own: `Grid.NewHeatmapArray` and `Grid.Set` state what it returns. |
| `Grid.Set` | poster.go:30-36 | After `Set(x, y, v)`, `At(x, y)` returns `v`. Every slot other than `x + y*spread` is unchanged, and so are the length, stride and size. |
| `Grid.NewHeatmapArray` | poster.go:110-121 | A fresh heatmap has `width*height` slots, all zero. Its stride is the height and `Size()` is `(width, height)`. |
| `Grid.NewHeatmapArrayAddressing` | poster.go:110-121 | With the stride set to the height, every in-range coordinate gets its own slot inside the slice if and only if `width == height` or `height == 1`. |
| `Grid.NewHeatmapArrayInBounds` | poster.go:110-121 | With the stride set to the height, every in-range coordinate addresses inside the slice if and only if `width >= height`. |
| `Grid.WiderAliases` | poster.go:114 | If `width > height >= 2`, the distinct coordinates `(height, 0)` and `(0, 1)` address the same slot. |
| `Grid.TallerOverruns` | poster.go:114 | If `width < height`, the coordinate `(width-1, height-1)` addresses past the end of the slice. |
| `Grid.NewRowMajorArray` | poster.go:110-121 | The corrected constructor: `width*height` zero slots, stride = width, size `(width, height)`. |
| `Grid.RowMajorWellAddressed` | poster.go:110-121 | With the corrected constructor, the addressing is a bijection from in-range coordinates onto the slice, for every width and height. |
| `Grid.StrideWidthWellAddressed` | poster.go:30-36 | Any heatmap whose stride is its width and whose slice has `width*height` slots is well addressed by `At`/`Set`. |
| `Neighbourhood.SuccessorInRow` | poster.go:80-84 | If the slice is made of whole rows, the right-neighbour read `i+1` of a slot that is not last in its row stays in bounds. |
| `Neighbourhood.Left` | poster.go:75-79 | The value is the boundary or a slot of the slice, and slot 0 always sees the boundary. `Neighbourhood.LeftMatchesGrid` states its 2-D meaning. |
| `Neighbourhood.Right` | poster.go:80-84 | The value is the boundary or a slot of the slice, and the last slot always sees the boundary, so the read `i+1` never runs off the end. `Neighbourhood.RightMatchesGrid` states its 2-D meaning. |
| `Neighbourhood.Up` | poster.go:85-89 | The value is the boundary or a slot of the slice, and with a positive stride slot 0 sees the boundary. `Neighbourhood.UpMatchesGrid` states its 2-D meaning. |
| `Neighbourhood.Down` | poster.go:90-94 | The value is the boundary or a slot of the slice, and with a positive stride the last slot sees the boundary. `Neighbourhood.DownMatchesGrid` states its 2-D meaning. |
| `Neighbourhood.Neighbours` | poster.go:72-94 | Each of the four values is the boundary or a slot of the slice. A one-slot slice sees the boundary on all four sides. `Neighbourhood.NeighboursMatchGrid` and `Neighbourhood.NeighboursReadOnlyAdjacent` state which slots are read. |
| `Neighbourhood.NeighboursMatchGrid` | poster.go:72-94 | For a row-major grid, the four linear neighbours of `Index(x, y)` are the 2-D neighbours left, right, up and down. At the matching 2-D edge each is the boundary value. |
| `Neighbourhood.LeftMatchesGrid` | poster.go:75-79 | The left neighbour is the boundary exactly when `x == 0`; otherwise it is `At(x-1, y)`. |
| `Neighbourhood.RightMatchesGrid` | poster.go:80-84 | The right neighbour is the boundary exactly when `x == width-1`; otherwise it is `At(x+1, y)`. |
| `Neighbourhood.UpMatchesGrid` | poster.go:85-89 | The up neighbour is the boundary exactly when `y == 0`; otherwise it is `At(x, y-1)`. |
| `Neighbourhood.DownMatchesGrid` | poster.go:90-94 | The down neighbour is the boundary exactly when `y == height-1`; otherwise it is `At(x, y+1)`. |
| `Neighbourhood.SingleCellSeesBoundary` | poster.go:72-94 | In a one-slot slice with stride 1, all four neighbours are the boundary value. |
| `Neighbourhood.NeighboursReadOnlyAdjacent` | poster.go:72-94 | Two slices that agree one step and one stride around `i` give `i` the same neighbours. |
| `SpreadRule.FirstNonzeroFrom` | poster.go:101-107 | The scan from position `k` returns `n[j]` for the smallest `j >= k` with `n[j] != 0`. If there is none, it returns the cell's value. |
| `SpreadRule.SpreadAction` | poster.go:100-108 | Returns the first nonzero neighbour in the order left, right, up, down, else the cell's own value. The result is zero exactly when the cell and all four neighbours are zero. |
| `DoubleBuffer.Heatmap` | poster.go:56-58 | Returns the front heatmap. It has no contract of its own: `DoubleBuffer.Swap` and `DoubleBuffer.Apply` state what it returns after each operation. |
| `DoubleBuffer.Buffer` | poster.go:60-62 | Returns the back heatmap. It has no contract of its own: `DoubleBuffer.Swap` and `DoubleBuffer.Apply` state what it returns after each operation. |
| `DoubleBuffer.Swap` | poster.go:64-68 | The front becomes the back and the back becomes the front. Matched dimensions are preserved. |
| `DoubleBuffer.SwapTwiceRestores` | poster.go:64-68 | Two swaps restore the original assignment. |
| `DoubleBuffer.NewHeatmapBufferArray` | poster.go:123-130 | Both heatmaps are zero, have `width*height` slots, and have equal size, stride and length. The stride is the height. |
| `DoubleBuffer.NewRowMajorBufferArray` | poster.go:123-130 | The corrected pair: both heatmaps are zero, matched and well addressed. |
| `DoubleBuffer.Sweep` | poster.go:72-95 | The synchronous update of a slice has the slice's length. |
| `DoubleBuffer.Apply` | poster.go:70-98 | After `Apply`, `Heatmap()` is the back array with its first `len(front)` slots holding the sweep of the pre-call front. Its other slots are kept. `Buffer()` is the pre-call front, unchanged. Matched buffers stay matched. |
| `DoubleBuffer.SweepReadsOnlyNeighbourhood` | poster.go:72-95 | The new value of slot `k` depends only on the pre-update slot `k` and the slots one step or one stride away. |
| `DoubleBuffer.SingleCellSweep` | poster.go:72-95 | For a 1x1 grid the rule receives the boundary value as all four neighbours. |
| `DoubleBuffer.ZeroSweepMarksEdges` | poster.go:70-108 | One spread step over an all-zero slice gives the boundary value to exactly the slots on a linear edge and leaves every other slot zero. |
| `DoubleBuffer.FreshSweepMarksBorder` | poster.go:70-108 | With the corrected constructor, one spread step over a fresh grid gives the boundary value exactly to the cells on the 2-D border and zero to the inside. |
| `DoubleBuffer.ThreeCellExample` | poster.go:110-121 | For a 3x1 grid built as written and holding `[0, 0, 7]`, the middle cell's neighbours are `[0, 0, 0, 7]` and one step gives `[0, 7, 7]`. |
| `DoubleBuffer.OneCellPerStep` | poster.go:70-96 | From `[7, 0, 0]` in a column, one step gives `[7, 7, 0]`: the third cell still sees the pre-update zero. |
| `Render.Gray` | poster.go:138 | The channel value is below 256. It equals the cell when the cell fits and differs from it by a multiple of 256 otherwise. |
| `Render.GrayPixel` | poster.go:138-140 | The pixel is opaque (alpha 255) and its R, G and B are equal. Each channel is `Gray` of the cell, the low 8 bits: it differs from the cell by a multiple of 256, and equals the cell when the cell is below 256. |
| `Render.ColumnSum` | poster.go:137-139 | The gray values of `n` cells of one column add up to at most `255*n`. |
| `Render.GridSum` | poster.go:135-141 | The gray values of `m` whole columns add up to at most `255*m*height`. |
| `Render.AverageBrightness` | poster.go:143 | The reported average, total gray divided by `width*height`, is at most 255. |
| `Render.RenderColumn` | poster.go:137-141 | Column `x` renders to `height` pixels, pixel `y` being gray `At(x, y) mod 256` with alpha 255. The returned sum is the column's total gray value. |
| `Render.MakeImage` | poster.go:132-145 | The image has `width` columns of `height` pixels. Pixel `(x, y)` is gray `At(x, y) mod 256` in R, G and B with alpha 255. The average is the integer mean of those gray values. |
| `Render.UniformAverage` | poster.go:135-143 | A grid holding `c` in every cell reports average brightness `c mod 256`, so a grid of 128s reports 128. |
| `Render.TruncationAliases` | poster.go:138 | A cell holding 300 renders as 44, the same pixel as a cell holding 44. |

Helper lemmas without rows: `Grid.MulLeq`, `Grid.StrideUnique`,
`Grid.StrideBound`, `Grid.StrideDivMod`, `Neighbourhood.RowMajorStrided`,
`DoubleBuffer.SpreadOverZeros`, `DoubleBuffer.ThreeCellSweep`,
`DoubleBuffer.SweptPrefix`, `Render.QuotientBound`, `Render.AverageOfTotal`,
`Render.MulDivCancel`, `Render.MulGap`, `Render.Regroup`,
`Render.UniformColumnSum` and `Render.UniformGridSum`.

## Left out

- `main`, `check`, `os.Create`, `bufio`, `png.Encode` and `log.Fatal`
  (poster.go:147-165) are not modelled. They are file output and process exit.
- `image.NewRGBA` and `img.Set` belong to the Go image library. The image is
  modelled as a sequence of columns of `RGBA` values, with `img[x][y]` the
  pixel at `(x, y)`.
- The `fmt.Print`/`Printf` output is not modelled: the `"!"` per propagated cell
  and the size and average printouts (poster.go:103, 133, 143). The average
  itself is returned as a value.
- Go's unsigned machine integers are not modelled. All values are `nat`, so
  `x + y*spread` and the brightness sum never wrap.
- The up-edge test `int(i-h.spread) < 0` is modelled as `i < spread`, which is
  what it computes on 64-bit platforms.
- The `Heatmap` and `HeatmapBuffer` interfaces are not modelled. Only the
  array-backed variant exists.
- Reference identity and shared backing arrays are not modelled. `Set` and `Apply`
  return new values, and front and back are never the same array.
- DoubleBuffer.Sweep: its own contract states only the length of the result.
  What each slot holds is stated by `DoubleBuffer.Apply` and the sweep lemmas.
- Neighbourhood.Neighbours: its own contract states only that it reads the
  boundary or the slice. Which slots it reads is stated by
  `Neighbourhood.NeighboursMatchGrid` and `Neighbourhood.NeighboursReadOnlyAdjacent`.
- Grid.SizeOf, DoubleBuffer.Heatmap, DoubleBuffer.Buffer: plain accessors with
  no contract of their own. The contracts of the operations that use them say
  what they return.

## Findings

| source | as written | input that shows it | evidently intended | confidence | as-written member | corrected member |
|---|---|---|---|---|---|---|
| poster.go:114 | `NewHeatmapArray` sets `spread: height`, so `At`/`Set` address `(x, y)` at `x + y*height`. | width 3, height 2: `(2, 0)` and `(0, 1)` both address slot 2. Width 2, height 3: `(1, 2)` addresses slot 7 of a 6-slot slice. | `spread: width` (row-major). This makes the addressing a bijection onto the slice, and `Apply`'s `i % spread` edge tests become the 2-D left and right edges. | high; not executed | `Grid.NewHeatmapArray`, `Grid.NewHeatmapArrayAddressing` | `Grid.NewRowMajorArray`, `Grid.RowMajorWellAddressed` |

The program's own 300x200 grid is wider than it is tall, so its cells alias.
`MakeImage` reads only slots below 40100 of the 60000-slot slice, and 19900 of
those slots (almost half) stand for two coordinates. The 2-D statements use the corrected
constructor: `DoubleBuffer.NewRowMajorBufferArray`,
`Neighbourhood.NeighboursMatchGrid` and `DoubleBuffer.FreshSweepMarksBorder`.
`Apply` and `MakeImage` are stated for any stride.
