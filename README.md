# Weave derivation of a weaving-draft editor

The editor shows four grids. The user edits three of them: the **threading**, which marks the shafts each
warp thread is drawn through; the **tie-up**, which marks the treadles each shaft is tied to; and the
**treadling**, which marks the treadles pressed on each weft pick. The editor derives the fourth grid, the
**fabric**. A fabric cell is true when the warp thread lies over the weft pick at that crossing. This project
models four parts of `main.js` in Dafny: the derivation `weave`, its helpers `createArray` and `zip`, and the
one-cell toggle that edits a grid.

The grids are dense boolean matrices indexed as the drawing code uses them:

- `threading[shaft][warp]`
- `tie_up[shaft][treadle]`
- `treadling[pick][treadle]`
- `fabric[pick][warp]`

A grid is an `array<Slot>`. A `Slot` is either a `Row` of cells or a `Hole`, which is an index the JavaScript
array covers but that was never assigned. A cell is modelled by its truthiness. A cell past the end of its
row reads as false, just as JavaScript reads `undefined`.

Modules:

- `Options`: the `Option` datatype.
- `Sequences`: `zip`, `findIndex` and `some`, as recursive functions characterised index by index.
- `Grid`: the `Slot` representation, `createArray` (`Grid.CreateArray`) and the toggle (`Grid.Flip`, `Grid.Toggle`).
- `Loom`: the per-cell computation (`Loom.Cell`) and `weave` (`Loom.Weave`). The lemmas turn the cell
  computation into the loom's rule: the lowest shaft carrying a warp decides it, and that warp is up exactly
  when some treadle tied to that shaft is pressed on the pick.

How `weave` behaves on these grids:

- The grids are dense boolean matrices and may be multi-hot. A warp can be drawn through several shafts, and several treadles can be pressed on one pick.
- A warp is decided by its first truthy shaft only. A pick ORs over every treadle pressed on it.
- The fabric is `treadling.length` × `treadling.length` and is indexed `[pick][warp]`. Its warp loop runs to `treadling.length`, not to the number of warps.
- `weave` faults on malformed input instead of reporting an error. `Loom.Weave` therefore requires `Loom.Weavable`, which holds exactly when the code runs without a fault.

## Model

| member | source | states |
|---|---|---|
| `Sequences.Zip` | main.js:1 | `zip(a, b)` has exactly `a.length` pairs. Pair `k` is `(a[k], b[k])`, with `b[k]` absent past the end of `b`. |
| `Sequences.Any` | main.js:170-172 | `some(p)` is true iff some element satisfies `p`. |
| `Sequences.FindIndex` | main.js:166 | `findIndex(p)` returns -1 iff no element satisfies `p`. Otherwise it returns an index whose element satisfies `p` and below which no element does. |
| `Sequences.FindIndexIsFirst` | main.js:166 | Any index that is the first to satisfy `p` is the one `findIndex` returns. |
| `Grid.CreateArray` | main.js:151-158 | The result is fresh and `max(x, y)` long. Entries `0..y-1` are rows of `y` cells that all equal `item`. Entries `y..x-1` are holes. |
| `Grid.Flip` | main.js:141 | `row[c] ^= true` inverts the truthiness of cell `c` and leaves every other cell's truthiness alone. Past the end of the row, the row grows to `c + 1`. |
| `Grid.FlipTwice` | main.js:141 | Toggling a cell twice restores every cell's truthiness. It restores the row itself when the cell was inside it. |
| `Grid.Toggle` | main.js:139-144 | The click handler changes only row `r` of the grid. Exactly the truthiness of cell `(r, c)` is inverted. The entry must be a row, because reading from a missing row or a hole faults. |
| `Loom.Column` | main.js:164 | `threading.map(row => row[j])` has one entry per shaft. Entry `s` is the truthiness of `threading[s][j]`. A hole row or a row too short for `j` gives false. |
| `Loom.FirstShaft` | main.js:166-168 | `findIndex` over column `j` gives -1 iff no shaft carries warp `j`. Otherwise it gives the lowest shaft that carries the warp. |
| `Loom.Cell` | main.js:164-173 | The loop body's value for pick `i` and warp `j` is true iff warp `j` has a first shaft `s` and some treadle `t < tie_up[s].length` has both `tie_up[s][t]` and `treadling[i][t]` truthy. |
| `Loom.Weave` | main.js:160-178 | Precondition: the inputs are weavable, which includes `threading[0].length <= treadling.length`. Then the fabric is a newly allocated array with `treadling.length` rows of `treadling.length` cells, and cell `(i, j)` equals `Cell` of pick `i` and warp `j`. The inputs are never modified. |
| `Loom.CellIffSharedTreadle` | main.js:164-172 | Suppose `s` is warp `j`'s first shaft. The cell is true iff there is a `t < tie_up[s].length` with both `tie_up[s][t]` and `treadling[i][t]` truthy. Treadles past `tie_up[s]`'s end are ignored. |
| `Loom.UnthreadedWarpStaysDown` | main.js:164-168 | A warp on no shaft is false on every pick. |
| `Loom.FirstShaftDecides` | main.js:166 | Two threadings that give warp `j` the same first shaft give the same cell, whatever is on the higher shafts. |
| `Loom.IdlePickStaysDown` | main.js:165-172 | A pick with no treadle pressed is false for every warp. |
| `Loom.StraightDraft` | main.js:160-178 | Take two shafts and two treadles, with warp `k` on shaft `k`, treadle `k` tied to shaft `k`, and treadle `k` pressed on pick `k`. These inputs are weavable, and the fabric is the diagonal. |

## Left out

- Rendering and layout: `init`, `draw`, `drawGrid` apart from its toggle line, `getRectColor` and `window.onresize` (main.js:15-145). These are SVG drawing through a library that is not part of this model.
- `handleUserInput` and the `console.log` calls: these only produce output.
- The global `state` object and the grid-size settings (main.js:3-13). The grids are passed as parameters instead. The implicit globals that `weave` creates by assigning to undeclared names are locals here.
- JavaScript coercions: `^=` stores the numbers 0 and 1, and `map` and `some` skip holes. Cells are modelled as booleans. Holes inside a row are modelled as false cells, which they read as.
- Grid.CreateArray: JavaScript grows the array as the loop assigns past its end. The model allocates the array at its final length, all holes, so both end in the same state.
- Rows are values (`seq<bool>`), not shared arrays. In the source, each row comes from `createArray` and no row is shared. Toggling past the end of a row grows it, which a Dafny array cannot do. Writing a fabric cell therefore replaces the row value.
- Loom.Weave: the faults that `weave` raises on malformed input are preconditions (`Loom.Weavable`), not a modelled exception.
- Loom.Cell passes an empty treadling row where `treadling[i]` is a hole. The source faults there unless `tie_up[s]` is empty, and `Loom.CellDefined` excludes exactly that case, counting holes inside `tie_up[s]` as cells. `createArray` and the toggle never make a non-empty row that is all holes.
