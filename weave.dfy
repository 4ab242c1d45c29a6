/**
 * The weave derivation: from the threading (`threading[shaft][warp]`), the
 * tie-up (`tie_up[shaft][treadle]`) and the treadling (`treadling[pick][treadle]`)
 * grids, compute the fabric grid (`fabric[pick][warp]`), whose cell is true
 * when the warp thread lies over the weft pick.
 */
module Loom {
  import opened Options
  import opened Sequences
  import opened Grid

  /** The `findIndex` predicate `element => element`. */
  function Truthy(b: bool): bool { b }

  /** The `some` predicate `arr => arr[0] && arr[1]` on a zipped pair of tie-up and treadling cells. */
  function BothTruthy(p: (bool, Option<bool>)): bool {
    p.0 && p.1 == Some(true)
  }

  /**
   * `threading.map(row => row[j])`: column `j` of the threading, one entry per
   * shaft, each the truthiness of that shaft's cell for warp `j` (a hole row or
   * a row too short for `j` gives false).
   */
  function Column(threading: seq<Slot>, j: nat): (col: seq<bool>)
    ensures |col| == |threading|
    ensures forall s :: 0 <= s < |threading| ==> col[s] == Get(threading[s], j)
  {
    if threading == [] then []
    else [Get(threading[0], j)] + Column(threading[1..], j)
  }

  /** Shaft `s` carries warp `j` and no lower shaft does. */
  predicate IsFirstShaft(threading: seq<Slot>, j: nat, s: nat) {
    s < |threading| && Get(threading[s], j) &&
    forall k :: 0 <= k < s ==> !Get(threading[k], j)
  }

  /**
   * `threading_state.findIndex(element => element)`: the shaft that decides
   * warp `j` is the lowest shaft carrying it, and there is none (-1) exactly
   * when no shaft carries the warp.
   */
  function FirstShaft(threading: seq<Slot>, j: nat): (s: int)
    ensures -1 <= s
    ensures s == -1 <==> forall k :: 0 <= k < |threading| ==> !Get(threading[k], j)
    ensures s != -1 ==> IsFirstShaft(threading, j, s)
  {
    FindIndex(Column(threading, j), Truthy)
  }

  /** Some treadle tied to the shaft (an index of `ties`) is pressed on `pick`. */
  predicate SharedTreadle(ties: seq<bool>, pick: Slot) {
    exists t :: 0 <= t < |ties| && ties[t] && Get(pick, t)
  }

  /**
   * Computing cell `(i, j)` does not fault: when warp `j` has a first shaft `s`,
   * `tie_up[s]` is a row (zip maps over it), and when that row has cells,
   * `treadling[i]` is a row too (zip indexes into it).
   */
  predicate CellDefined(treadling: seq<Slot>, threading: seq<Slot>, tie_up: seq<Slot>, i: nat, j: nat) {
    i < |treadling| &&
    var s := FirstShaft(threading, j);
    s == -1 || (s < |tie_up| && tie_up[s].Row? && (tie_up[s].cells == [] || treadling[i].Row?))
  }

  /**
   * The three grids can be woven without a fault: `threading[0]` exists and is a
   * row, the fabric allocated from its length and the treadling's has no hole
   * among the rows the loops visit (`threading[0].length <= treadling.length`),
   * and every cell of the `treadling.length` by `treadling.length` fabric is defined.
   */
  predicate Weavable(treadling: seq<Slot>, threading: seq<Slot>, tie_up: seq<Slot>) {
    |threading| > 0 && threading[0].Row? && |threading[0].cells| <= |treadling| &&
    forall i, j :: 0 <= i < |treadling| && 0 <= j < |treadling| ==> CellDefined(treadling, threading, tie_up, i, j)
  }

  /**
   * The fabric cell at pick `i` and warp `j`, computed the way the weave loop
   * body computes it. It is true exactly when warp `j` has a first shaft and
   * some treadle tied to that shaft (within the length of its tie-up row) is
   * pressed on pick `i`.
   */
  function Cell(treadling: seq<Slot>, threading: seq<Slot>, tie_up: seq<Slot>, i: nat, j: nat): (up: bool)
    requires CellDefined(treadling, threading, tie_up, i, j)
    ensures up <==>
      (FirstShaft(threading, j) != -1 && SharedTreadle(tie_up[FirstShaft(threading, j)].cells, treadling[i]))
  {
    var shaft := FirstShaft(threading, j);
    if shaft == -1 then false
    else
      var pairs := Zip(tie_up[shaft].cells, CellsOf(treadling[i]));
      assert forall t :: 0 <= t < |pairs| ==>
        (BothTruthy(pairs[t]) <==> tie_up[shaft].cells[t] && Get(treadling[i], t));
      Any(pairs, BothTruthy)
  }

  /**
   * `weave(treadling, threading, tie_up)`: allocates the fabric with
   * `createArray(threading[0].length, treadling.length, false)` and fills it
   * pick by pick, warp by warp. The fabric is square, `treadling.length` on
   * each side, and every cell holds `Cell` of its pick and warp. The inputs are
   * only read: the method has no `modifies` clause.
   */
  method Weave(treadling: array<Slot>, threading: array<Slot>, tie_up: array<Slot>) returns (fabric: array<Slot>)
    requires Weavable(treadling[..], threading[..], tie_up[..])
    ensures fresh(fabric)
    ensures fabric.Length == treadling.Length
    ensures forall i :: 0 <= i < fabric.Length ==> fabric[i].Row? && |fabric[i].cells| == treadling.Length
    ensures forall i, j :: 0 <= i < treadling.Length && 0 <= j < treadling.Length ==>
      fabric[i].cells[j] == Cell(treadling[..], threading[..], tie_up[..], i, j)
  {
    ghost var tr, th, tu := treadling[..], threading[..], tie_up[..];
    fabric := CreateArray(|threading[0].cells|, treadling.Length, false);
    var i := 0;
    while i < fabric.Length
      invariant 0 <= i <= fabric.Length == |tr|
      invariant forall k :: 0 <= k < fabric.Length ==> fabric[k].Row? && |fabric[k].cells| == |tr|
      invariant forall k, m :: 0 <= k < i && 0 <= m < |tr| ==> fabric[k].cells[m] == Cell(tr, th, tu, k, m)
    {
      var j := 0;
      while j < |fabric[0].cells|
        invariant 0 <= j <= |tr|
        invariant forall k :: 0 <= k < fabric.Length ==> fabric[k].Row? && |fabric[k].cells| == |tr|
        invariant forall k, m :: 0 <= k < i && 0 <= m < |tr| ==> fabric[k].cells[m] == Cell(tr, th, tu, k, m)
        invariant forall m :: 0 <= m < j ==> fabric[i].cells[m] == Cell(tr, th, tu, i, m)
      {
        assert CellDefined(tr, th, tu, i, j);
        var threadingState := Column(threading[..], j);
        var treadlingState := treadling[i];
        var threadShaft := FindIndex(threadingState, Truthy);
        var fabricState: bool;
        if threadShaft == -1 {
          fabricState := false;
        } else {
          fabricState := Any(Zip(tie_up[threadShaft].cells, CellsOf(treadlingState)), BothTruthy);
        }
        assert fabricState == Cell(tr, th, tu, i, j);
        fabric[i] := Row(fabric[i].cells[j := fabricState]);
        j := j + 1;
      }
      i := i + 1;
    }
  }

  /**
   * The weaving rule behind the cell: when `s` is warp `j`'s first shaft, the
   * warp is up on pick `i` exactly when some treadle tied to shaft `s` (within
   * the length of `tie_up[s]`) is pressed on that pick.
   */
  lemma CellIffSharedTreadle(treadling: seq<Slot>, threading: seq<Slot>, tie_up: seq<Slot>, i: nat, j: nat, s: nat)
    requires CellDefined(treadling, threading, tie_up, i, j)
    requires IsFirstShaft(threading, j, s)
    ensures s < |tie_up| && tie_up[s].Row?
    ensures Cell(treadling, threading, tie_up, i, j) <==>
      exists t :: 0 <= t < |tie_up[s].cells| && tie_up[s].cells[t] && Get(treadling[i], t)
  {
  }

  /** A warp thread drawn through no shaft is never raised: its whole fabric column is false. */
  lemma UnthreadedWarpStaysDown(treadling: seq<Slot>, threading: seq<Slot>, tie_up: seq<Slot>, j: nat)
    requires Weavable(treadling, threading, tie_up) && j < |treadling|
    requires forall s :: 0 <= s < |threading| ==> !Get(threading[s], j)
    ensures forall i :: 0 <= i < |treadling| ==> !Cell(treadling, threading, tie_up, i, j)
  {
  }

  /**
   * Only the lowest threaded shaft decides a warp: two threadings that give
   * warp `j` the same first shaft weave the same cell, whatever they put on
   * the shafts above it.
   */
  lemma FirstShaftDecides(treadling: seq<Slot>, threading: seq<Slot>, threading': seq<Slot>, tie_up: seq<Slot>,
                          i: nat, j: nat, s: nat)
    requires CellDefined(treadling, threading, tie_up, i, j) && CellDefined(treadling, threading', tie_up, i, j)
    requires IsFirstShaft(threading, j, s) && IsFirstShaft(threading', j, s)
    ensures Cell(treadling, threading, tie_up, i, j) == Cell(treadling, threading', tie_up, i, j)
  {
    CellIffSharedTreadle(treadling, threading, tie_up, i, j, s);
    CellIffSharedTreadle(treadling, threading', tie_up, i, j, s);
  }

  /** A pick on which no treadle is pressed raises nothing: its whole fabric row is false. */
  lemma IdlePickStaysDown(treadling: seq<Slot>, threading: seq<Slot>, tie_up: seq<Slot>, i: nat)
    requires Weavable(treadling, threading, tie_up) && i < |treadling|
    requires forall t: nat :: !Get(treadling[i], t)
    ensures forall j :: 0 <= j < |treadling| ==> !Cell(treadling, threading, tie_up, i, j)
  {
  }

  /**
   * A straight draft on two shafts and two treadles: warp 0 on shaft 0, warp 1
   * on shaft 1, treadle `t` tied to shaft `t`, treadle 0 pressed on pick 0 and
   * treadle 1 on pick 1. Each warp is up exactly on the pick of its own treadle.
   */
  lemma StraightDraft(i: nat, j: nat)
    requires i < 2 && j < 2
    ensures var diagonal := [Row([true, false]), Row([false, true])];
      Weavable(diagonal, diagonal, diagonal) &&
      Cell(diagonal, diagonal, diagonal, i, j) == (i == j)
  {
  }
}
