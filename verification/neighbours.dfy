/**
  Neighbour gathering for one linear index of a heatmap slice: left, right,
  up and down, with a boundary value substituted at the edges. The edges are
  decided on the linear index and the stride alone, as the update loop does.
 */
module Neighbourhood {
  import opened Grid

  /** The four neighbours in the order left, right, up, down. */
  type Quad = n: seq<nat> | |n| == 4 witness [0, 0, 0, 0]

  /** A slice of length `len` can be swept with stride `spread` without an
      out-of-range read: the slice is empty, or the stride is positive and
      divides the length. */
  predicate Strided(len: nat, spread: nat)
  {
    len == 0 || (spread > 0 && len % spread == 0)
  }

  /** In a slice made of whole rows, an index that is not the last of its row
      has a successor inside the slice. */
  lemma SuccessorInRow(len: nat, spread: nat, i: nat)
    requires spread > 0 && len % spread == 0 && i < len
    requires i % spread != spread - 1
    ensures i + 1 < len
  {
    if i + 1 == len {
      var q := len / spread;
      assert len == q * spread;
      assert q >= 1;
      assert i == (spread - 1) + (q - 1) * spread;
      StrideDivMod(spread, spread - 1, q - 1);
    }
  }

  /** Left neighbour: the boundary at the start of a row, else the previous slot. */
  function Left(s: seq<nat>, spread: nat, i: nat, boundary: nat): (r: nat)
    requires spread > 0 && i < |s|
    ensures r == boundary || r in s
    ensures i == 0 ==> r == boundary
  {
    if i % spread == 0 then boundary else s[i - 1]
  }

  /** Right neighbour: the boundary at the end of a row, else the next slot. */
  function Right(s: seq<nat>, spread: nat, i: nat, boundary: nat): (r: nat)
    requires spread > 0 && |s| % spread == 0 && i < |s|
    ensures r == boundary || r in s
    ensures i + 1 == |s| ==> r == boundary
  {
    if i % spread == spread - 1 then boundary
    else SuccessorInRow(|s|, spread, i); s[i + 1]
  }

  /** Up neighbour: the boundary in the first row, else the slot one stride back. */
  function Up(s: seq<nat>, spread: nat, i: nat, boundary: nat): (r: nat)
    requires i < |s|
    ensures r == boundary || r in s
    ensures spread > 0 && i == 0 ==> r == boundary
  {
    if i < spread then boundary else s[i - spread]
  }

  /** Down neighbour: the boundary in the last row, else the slot one stride on. */
  function Down(s: seq<nat>, spread: nat, i: nat, boundary: nat): (r: nat)
    requires i < |s|
    ensures r == boundary || r in s
    ensures spread > 0 && i + 1 == |s| ==> r == boundary
  {
    if i + spread >= |s| then boundary else s[i + spread]
  }

  /** The four neighbours of slot `i`, in the order the update rule receives them. */
  function Neighbours(s: seq<nat>, spread: nat, i: nat, boundary: nat): (n: Quad)
    requires spread > 0 && |s| % spread == 0 && i < |s|
    ensures forall j :: 0 <= j < 4 ==> n[j] == boundary || n[j] in s
    ensures |s| == 1 ==> n == [boundary, boundary, boundary, boundary]
  {
    [Left(s, spread, i, boundary), Right(s, spread, i, boundary),
     Up(s, spread, i, boundary), Down(s, spread, i, boundary)]
  }

  /** A 1x1 grid sees the boundary value on all four sides. */
  lemma SingleCellSeesBoundary(v: nat, boundary: nat)
    ensures Neighbours([v], 1, 0, boundary) == [boundary, boundary, boundary, boundary]
  {
  }

  /** Each neighbour is the boundary value or a slot of the slice at distance 1
      or `spread` from `i`: nothing else of the slice is read. */
  lemma NeighboursReadOnlyAdjacent(s1: seq<nat>, s2: seq<nat>, spread: nat, i: nat, boundary: nat)
    requires spread > 0 && |s1| % spread == 0 && i < |s1| && |s2| == |s1|
    requires forall j :: 0 <= j < |s1| && (j + 1 == i || j == i + 1 || j + spread == i || j == i + spread)
               ==> s1[j] == s2[j]
    ensures Neighbours(s1, spread, i, boundary) == Neighbours(s2, spread, i, boundary)
  {
    assert Left(s1, spread, i, boundary) == Left(s2, spread, i, boundary) by {
      if i % spread != 0 {
        assert s1[i - 1] == s2[i - 1];
      }
    }
    assert Right(s1, spread, i, boundary) == Right(s2, spread, i, boundary) by {
      if i % spread != spread - 1 {
        SuccessorInRow(|s1|, spread, i);
        assert s1[i + 1] == s2[i + 1];
      }
    }
    assert Up(s1, spread, i, boundary) == Up(s2, spread, i, boundary) by {
      if i >= spread {
        assert s1[i - spread] == s2[i - spread];
      }
    }
    assert Down(s1, spread, i, boundary) == Down(s2, spread, i, boundary) by {
      if i + spread < |s1| {
        assert s1[i + spread] == s2[i + spread];
      }
    }
  }

  /** For a row-major grid (stride equal to the width) the linear edge tests
      are the 2-D edges, and each neighbour read is the adjacent cell. */
  lemma NeighboursMatchGrid(a: HeatmapArray, x: nat, y: nat, boundary: nat)
    requires a.spread == a.size.width && WellAddressed(a) && Strided(|a.slice|, a.spread)
    requires ValidCoord(a, x, y)
    ensures Neighbours(a.slice, a.spread, Index(a, x, y), boundary) ==
      [ if x == 0 then boundary else At(a, x - 1, y),
        if x + 1 == a.size.width then boundary else At(a, x + 1, y),
        if y == 0 then boundary else At(a, x, y - 1),
        if y + 1 == a.size.height then boundary else At(a, x, y + 1) ]
  {
    LeftMatchesGrid(a, x, y, boundary);
    RightMatchesGrid(a, x, y, boundary);
    UpMatchesGrid(a, x, y, boundary);
    DownMatchesGrid(a, x, y, boundary);
  }

  /** A row-major slice of whole rows is swept without an out-of-range read. */
  lemma RowMajorStrided(a: HeatmapArray)
    requires a.spread == a.size.width > 0 && |a.slice| == a.size.width * a.size.height
    ensures |a.slice| % a.spread == 0
  {
    assert |a.slice| == 0 + a.size.height * a.spread;
    StrideDivMod(a.spread, 0, a.size.height);
  }

  lemma LeftMatchesGrid(a: HeatmapArray, x: nat, y: nat, boundary: nat)
    requires a.spread == a.size.width && |a.slice| == a.size.width * a.size.height
    requires ValidCoord(a, x, y)
    ensures Addressable(a, x, y)
    ensures x != 0 ==> Addressable(a, x - 1, y)
    ensures Left(a.slice, a.spread, Index(a, x, y), boundary) ==
      if x == 0 then boundary else At(a, x - 1, y)
  {
    StrideBound(a.spread, a.size.height, x, y);
    StrideDivMod(a.spread, x, y);
  }

  lemma RightMatchesGrid(a: HeatmapArray, x: nat, y: nat, boundary: nat)
    requires a.spread == a.size.width && |a.slice| == a.size.width * a.size.height
    requires ValidCoord(a, x, y)
    ensures Addressable(a, x, y) && |a.slice| % a.spread == 0
    ensures x + 1 < a.size.width ==> Addressable(a, x + 1, y)
    ensures Right(a.slice, a.spread, Index(a, x, y), boundary) ==
      if x + 1 == a.size.width then boundary else At(a, x + 1, y)
  {
    StrideBound(a.spread, a.size.height, x, y);
    StrideDivMod(a.spread, x, y);
    RowMajorStrided(a);
    if x + 1 < a.size.width {
      StrideBound(a.spread, a.size.height, x + 1, y);
    }
  }

  lemma UpMatchesGrid(a: HeatmapArray, x: nat, y: nat, boundary: nat)
    requires a.spread == a.size.width && |a.slice| == a.size.width * a.size.height
    requires ValidCoord(a, x, y)
    ensures Addressable(a, x, y)
    ensures y != 0 ==> Addressable(a, x, y - 1)
    ensures Up(a.slice, a.spread, Index(a, x, y), boundary) ==
      if y == 0 then boundary else At(a, x, y - 1)
  {
    var w := a.size.width;
    StrideBound(w, a.size.height, x, y);
    if y != 0 {
      assert (y - 1) * w == y * w - w;
      assert Index(a, x, y) - w == Index(a, x, y - 1);
    }
  }

  lemma DownMatchesGrid(a: HeatmapArray, x: nat, y: nat, boundary: nat)
    requires a.spread == a.size.width && |a.slice| == a.size.width * a.size.height
    requires ValidCoord(a, x, y)
    ensures Addressable(a, x, y)
    ensures y + 1 < a.size.height ==> Addressable(a, x, y + 1)
    ensures Down(a.slice, a.spread, Index(a, x, y), boundary) ==
      if y + 1 == a.size.height then boundary else At(a, x, y + 1)
  {
    var w, h := a.size.width, a.size.height;
    StrideBound(w, h, x, y);
    assert Index(a, x, y) + w == x + (y + 1) * w by {
      assert (y + 1) * w == y * w + w;
    }
    if y + 1 == h {
      assert (y + 1) * w == w * h;
    } else {
      StrideBound(w, h, x, y + 1);
    }
  }
}
