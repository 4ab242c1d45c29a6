/**
 * The editable grids of the weaving draft: an outer JavaScript array whose
 * entries are rows of cells, the allocator `createArray` and the one-cell
 * toggle the click handler performs.
 *
 * An entry of the outer array is either a row or a hole (an index the array
 * covers but that was never assigned). Cells are modelled by their
 * truthiness; a cell past the end of its row reads as `undefined`, i.e. false.
 */
module Grid {

  datatype Slot = Hole | Row(cells: seq<bool>)

  /** Truthiness of `cells[c]`; an index past the end reads as false. */
  function At(cells: seq<bool>, c: nat): bool {
    c < |cells| && cells[c]
  }

  /** Truthiness of `slot[c]` for an entry of the outer array that is known to exist. */
  function Get(slot: Slot, c: nat): bool {
    slot.Row? && At(slot.cells, c)
  }

  /** The cells of a row; a hole has none. */
  function CellsOf(slot: Slot): seq<bool> {
    if slot.Row? then slot.cells else []
  }

  /** `slot` is a row of exactly `n` cells, each equal to `item`. */
  predicate Uniform(slot: Slot, n: nat, item: bool) {
    slot.Row? && |slot.cells| == n && forall c :: 0 <= c < n ==> slot.cells[c] == item
  }

  /**
   * `createArray(x, y, item)`. The loop runs to `y`, not `x`, and every row it
   * creates has `y` cells: the array ends up `max(x, y)` long, entries below `y`
   * are rows of `y` copies of `item`, and the entries from `y` to `x` (when
   * `x > y`) stay holes. JavaScript grows the array as the loop assigns past
   * its end; here it is allocated at its final length and starts as all holes,
   * which is what `new Array(x)` gives.
   */
  method CreateArray(x: nat, y: nat, item: bool) returns (arr: array<Slot>)
    ensures fresh(arr)
    ensures arr.Length == if x < y then y else x
    ensures forall i :: 0 <= i < y ==> Uniform(arr[i], y, item)
    ensures forall i :: y <= i < arr.Length ==> arr[i] == Hole
  {
    arr := new Slot[if x < y then y else x](_ => Hole);
    var i := 0;
    while i < y
      invariant 0 <= i <= y
      invariant forall k :: 0 <= k < i ==> Uniform(arr[k], y, item)
      invariant forall k :: i <= k < arr.Length ==> arr[k] == Hole
    {
      arr[i] := Row(seq(y, _ => item));
      i := i + 1;
    }
  }

  /**
   * The cells of a row after `row[c] ^= true`. Inside the row the cell is
   * inverted; past the end, the missing cell reads as `undefined`, the toggle
   * stores a truthy value at `c`, and the indices in between become holes,
   * which read as false.
   */
  function Flip(cells: seq<bool>, c: nat): (r: seq<bool>)
    ensures |r| == if c < |cells| then |cells| else c + 1
    ensures At(r, c) == !At(cells, c)
    ensures forall k: nat :: k != c ==> At(r, k) == At(cells, k)
  {
    if c < |cells| then cells[c := !cells[c]]
    else cells + seq(c - |cells|, _ => false) + [true]
  }

  /** Toggling the same cell twice restores the truthiness of every cell, and the row itself when the cell was inside it. */
  lemma FlipTwice(cells: seq<bool>, c: nat)
    ensures forall k: nat :: At(Flip(Flip(cells, c), c), k) == At(cells, k)
    ensures c < |cells| ==> Flip(Flip(cells, c), c) == cells
  {
  }

  /**
   * The click handler's `arr[r][c] ^= true` on an editable grid. Reading
   * `arr[r][c]` faults when `arr[r]` is missing or a hole, so the entry must be a row.
   */
  method Toggle(grid: array<Slot>, r: nat, c: nat)
    requires r < grid.Length && grid[r].Row?
    modifies grid
    ensures grid[r] == Row(Flip(old(grid[r].cells), c))
    ensures forall k :: 0 <= k < grid.Length && k != r ==> grid[k] == old(grid[k])
    ensures forall k, col: nat :: 0 <= k < grid.Length ==>
      Get(grid[k], col) == (Get(old(grid[k]), col) != (k == r && col == c))
  {
    grid[r] := Row(Flip(grid[r].cells, c));
  }
}
