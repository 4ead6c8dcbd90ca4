/**
  The double buffer: a front heatmap that readers see and a back heatmap that
  an update step writes into, after which the two exchange roles.
 */
module DoubleBuffer {
  import opened Grid
  import opened Neighbourhood
  import opened SpreadRule

  /** An update rule: the cell's value and its four neighbours give the new value. */
  type Action = (nat, Quad) -> nat

  /** `h` is the front (current) heatmap, `b` the back (scratch) one. */
  datatype HeatmapBufferArray = HeatmapBufferArray(h: HeatmapArray, b: HeatmapArray)

  function Heatmap(buf: HeatmapBufferArray): HeatmapArray
  {
    buf.h
  }

  function Buffer(buf: HeatmapBufferArray): HeatmapArray
  {
    buf.b
  }

  /** Front and back have the same dimensions, stride and length. */
  predicate Matched(buf: HeatmapBufferArray)
  {
    && SizeOf(buf.h) == SizeOf(buf.b)
    && buf.h.spread == buf.b.spread
    && |buf.h.slice| == |buf.b.slice|
  }

  /** Front and back exchange roles. */
  function Swap(buf: HeatmapBufferArray): (r: HeatmapBufferArray)
    ensures Heatmap(r) == Buffer(buf) && Buffer(r) == Heatmap(buf)
    ensures Matched(r) <==> Matched(buf)
  {
    HeatmapBufferArray(buf.b, buf.h)
  }

  /** Two swaps restore the original assignment of front and back. */
  lemma SwapTwiceRestores(buf: HeatmapBufferArray)
    ensures Swap(Swap(buf)) == buf
  {
  }

  /** The constructor as written: two zeroed heatmaps whose stride is the height. */
  function NewHeatmapBufferArray(width: nat, height: nat): (r: HeatmapBufferArray)
    ensures Matched(r)
    ensures |Heatmap(r).slice| == width * height
    ensures forall k :: 0 <= k < |Heatmap(r).slice| ==> Heatmap(r).slice[k] == 0 && Buffer(r).slice[k] == 0
    ensures SizeOf(Heatmap(r)) == Size(width, height) && Heatmap(r).spread == height
  {
    HeatmapBufferArray(NewHeatmapArray(width, height), NewHeatmapArray(width, height))
  }

  /** The corrected constructor: two zeroed row-major heatmaps. */
  function NewRowMajorBufferArray(width: nat, height: nat): (r: HeatmapBufferArray)
    ensures Matched(r)
    ensures WellAddressed(Heatmap(r)) && WellAddressed(Buffer(r))
    ensures forall k :: 0 <= k < |Heatmap(r).slice| ==> Heatmap(r).slice[k] == 0 && Buffer(r).slice[k] == 0
    ensures SizeOf(Heatmap(r)) == Size(width, height)
  {
    RowMajorWellAddressed(width, height);
    HeatmapBufferArray(NewRowMajorArray(width, height), NewRowMajorArray(width, height))
  }

  /** The synchronous update of a whole slice: every slot is recomputed from
      the slice as it was before the update. */
  function Sweep(s: seq<nat>, spread: nat, rule: Action, boundary: nat): (r: seq<nat>)
    requires Strided(|s|, spread)
    ensures |r| == |s|
  {
    seq<nat>(|s|, k requires 0 <= k < |s| => rule(s[k], Neighbours(s, spread, k, boundary)))
  }

  /** One update step: sweep the front into the back, then swap. The previous
      front is not written and becomes the back; the slots of the back beyond
      the length of the front keep their values. */
  method Apply(buf: HeatmapBufferArray, rule: Action, boundary: nat) returns (r: HeatmapBufferArray)
    requires Strided(|buf.h.slice|, buf.h.spread)
    requires |buf.h.slice| <= |buf.b.slice|
    ensures Buffer(r) == Heatmap(buf)
    ensures Heatmap(r).spread == buf.b.spread && SizeOf(Heatmap(r)) == SizeOf(buf.b)
    ensures Heatmap(r).slice ==
      Sweep(buf.h.slice, buf.h.spread, rule, boundary) + buf.b.slice[|buf.h.slice|..]
    ensures Matched(buf) ==> Matched(r)
  {
    var front := buf.h.slice;
    var back := buf.b.slice;
    var i := 0;
    while i < |front|
      invariant i <= |front|
      invariant |back| == |buf.b.slice|
      invariant forall k :: 0 <= k < i ==>
                  back[k] == rule(front[k], Neighbours(front, buf.h.spread, k, boundary))
      invariant forall k :: i <= k < |back| ==> back[k] == buf.b.slice[k]
    {
      var neighbours := Neighbours(front, buf.h.spread, i, boundary);
      back := back[i := rule(front[i], neighbours)];
      i := i + 1;
    }
    SweptPrefix(front, buf.h.spread, rule, boundary, buf.b.slice, back);
    r := Swap(HeatmapBufferArray(buf.h, buf.b.(slice := back)));
  }

  /** A slice whose first `|s|` slots hold the sweep of `s` and whose other
      slots are those of `rest` is the sweep followed by the rest of `rest`. */
  lemma SweptPrefix(s: seq<nat>, spread: nat, rule: Action, boundary: nat, rest: seq<nat>, back: seq<nat>)
    requires Strided(|s|, spread) && |s| <= |rest| == |back|
    requires forall k :: 0 <= k < |s| ==> back[k] == rule(s[k], Neighbours(s, spread, k, boundary))
    requires forall k :: |s| <= k < |back| ==> back[k] == rest[k]
    ensures back == Sweep(s, spread, rule, boundary) + rest[|s|..]
  {
    var r := Sweep(s, spread, rule, boundary) + rest[|s|..];
    forall k | 0 <= k < |back|
      ensures back[k] == r[k]
    {
      if k >= |s| {
        assert r[k] == rest[|s|..][k - |s|];
      }
    }
  }

  /** The swept value of a slot depends only on that slot and the slots one
      step or one stride away in the pre-update slice. */
  lemma SweepReadsOnlyNeighbourhood(s1: seq<nat>, s2: seq<nat>, spread: nat, rule: Action,
                                    boundary: nat, k: nat)
    requires Strided(|s1|, spread) && |s2| == |s1| && k < |s1|
    requires forall j :: 0 <= j < |s1| && (j == k || j + 1 == k || j == k + 1 || j + spread == k || j == k + spread)
               ==> s1[j] == s2[j]
    ensures Sweep(s1, spread, rule, boundary)[k] == Sweep(s2, spread, rule, boundary)[k]
  {
    NeighboursReadOnlyAdjacent(s1, s2, spread, k, boundary);
    assert s1[k] == s2[k];
  }

  /** A 1x1 grid: the rule receives the boundary value as all four neighbours. */
  lemma SingleCellSweep(v: nat, rule: Action, boundary: nat)
    ensures Sweep([v], 1, rule, boundary) == [rule(v, [boundary, boundary, boundary, boundary])]
  {
    SingleCellSeesBoundary(v, boundary);
  }

  /** A slot lies on an edge of the linear layout: first or last of its row,
      or in the first or last row. */
  predicate OnEdge(len: nat, spread: nat, k: nat)
    requires spread > 0
  {
    k % spread == 0 || k % spread == spread - 1 || k < spread || k + spread >= len
  }

  /** A zero cell whose neighbours are each the boundary value or zero takes
      the boundary value exactly when some neighbour is the boundary. */
  lemma SpreadOverZeros(n: Quad, boundary: nat, e0: bool, e1: bool, e2: bool, e3: bool)
    requires n[0] == (if e0 then boundary else 0) && n[1] == (if e1 then boundary else 0)
    requires n[2] == (if e2 then boundary else 0) && n[3] == (if e3 then boundary else 0)
    ensures SpreadAction(0, n) == if e0 || e1 || e2 || e3 then boundary else 0
  {
  }

  /** Spreading over an all-zero slice: exactly the edge slots take the
      boundary value, every other slot stays zero. */
  lemma ZeroSweepMarksEdges(s: seq<nat>, spread: nat, boundary: nat, k: nat)
    requires Strided(|s|, spread) && k < |s|
    requires forall j :: 0 <= j < |s| ==> s[j] == 0
    ensures Sweep(s, spread, SpreadAction, boundary)[k] == if OnEdge(|s|, spread, k) then boundary else 0
  {
    var n := Neighbours(s, spread, k, boundary);
    if k % spread != spread - 1 {
      SuccessorInRow(|s|, spread, k);
    }
    SpreadOverZeros(n, boundary, k % spread == 0, k % spread == spread - 1, k < spread, k + spread >= |s|);
    assert Sweep(s, spread, SpreadAction, boundary)[k] == SpreadAction(s[k], n);
  }

  /** With the corrected constructor, one spreading step over a fresh grid
      gives the boundary value exactly on the 2-D border and zero inside. */
  lemma FreshSweepMarksBorder(width: nat, height: nat, boundary: nat, x: nat, y: nat)
    requires x < width && y < height
    ensures Addressable(NewRowMajorArray(width, height), x, y)
    ensures Strided(width * height, width)
    ensures var a := NewRowMajorArray(width, height);
      Sweep(a.slice, a.spread, SpreadAction, boundary)[Index(a, x, y)] ==
        if x == 0 || x + 1 == width || y == 0 || y + 1 == height then boundary else 0
  {
    var a := NewRowMajorArray(width, height);
    var i := Index(a, x, y);
    StrideBound(width, height, x, y);
    StrideDivMod(width, x, y);
    RowMajorStrided(a);
    if y != 0 {
      MulLeq(1, y, width);
    }
    assert i + width == x + (y + 1) * width by {
      assert (y + 1) * width == y * width + width;
    }
    if y + 1 < height {
      StrideBound(width, height, x, y + 1);
    } else {
      assert (y + 1) * width == width * height;
    }
    assert OnEdge(|a.slice|, width, i) <==> x == 0 || x + 1 == width || y == 0 || y + 1 == height;
    ZeroSweepMarksEdges(a.slice, width, boundary, i);
  }

  /** The three-cell example with the constructor as written: a 3x1 grid has
      stride 1, so the middle cell receives the 7 as its DOWN neighbour, and
      one step turns [0, 0, 7] into [0, 7, 7]. */
  lemma ThreeCellExample()
    ensures Addressable(NewHeatmapArray(3, 1), 2, 0)
    ensures var a := Set(NewHeatmapArray(3, 1), 2, 0, 7);
      && a.slice == [0, 0, 7] && a.spread == 1
      && Neighbours(a.slice, a.spread, 1, 0) == [0, 0, 0, 7]
      && Sweep(a.slice, a.spread, SpreadAction, 0) == [0, 7, 7]
  {
    var a := Set(NewHeatmapArray(3, 1), 2, 0, 7);
    assert a.slice == [0, 0, 7];
    ThreeCellSweep();
  }

  lemma ThreeCellSweep()
    ensures Neighbours([0, 0, 7], 1, 1, 0) == [0, 0, 0, 7]
    ensures Sweep([0, 0, 7], 1, SpreadAction, 0) == [0, 7, 7]
  {
    var s := [0, 0, 7];
    var r := Sweep(s, 1, SpreadAction, 0);
    assert Neighbours(s, 1, 0, 0) == [0, 0, 0, 0];
    assert Neighbours(s, 1, 1, 0) == [0, 0, 0, 7];
    assert Neighbours(s, 1, 2, 0) == [0, 0, 0, 0];
    assert r[0] == 0 && r[1] == 7 && r[2] == 7;
  }

  /** The sweep is synchronous: a value moves one cell per step. From [7, 0, 0]
      in a column, the second cell picks up the 7 but the third still sees the
      pre-update zero (an in-place sweep would have given [7, 7, 7]). */
  lemma OneCellPerStep()
    ensures Sweep([7, 0, 0], 1, SpreadAction, 0) == [7, 7, 0]
  {
    var s := [7, 0, 0];
    var r := Sweep(s, 1, SpreadAction, 0);
    assert Neighbours(s, 1, 0, 0) == [0, 0, 0, 0];
    assert Neighbours(s, 1, 1, 0) == [0, 0, 7, 0];
    assert Neighbours(s, 1, 2, 0) == [0, 0, 0, 0];
    assert r[0] == 7 && r[1] == 7 && r[2] == 0;
  }
}
