/**
  The heatmap grid: a flat slice of unsigned intensities together with the
  stride (`spread`) that turns a coordinate `(x, y)` into the linear index
  `x + y * spread`, and the dimensions the grid was created with.
 */
module Grid {

  /** Width and height of a heatmap, fixed when it is created. */
  datatype Size = Size(width: nat, height: nat)

  /** The array-backed heatmap. */
  datatype HeatmapArray = HeatmapArray(slice: seq<nat>, spread: nat, size: Size)

  /** The linear index the accessors use for `(x, y)`. */
  function Index(a: HeatmapArray, x: nat, y: nat): nat
  {
    x + y * a.spread
  }

  /** `(x, y)` addresses a cell of the slice (otherwise the access panics). */
  predicate Addressable(a: HeatmapArray, x: nat, y: nat)
  {
    Index(a, x, y) < |a.slice|
  }

  /** `(x, y)` lies inside the declared dimensions. */
  predicate ValidCoord(a: HeatmapArray, x: nat, y: nat)
  {
    x < a.size.width && y < a.size.height
  }

  function SizeOf(a: HeatmapArray): Size
  {
    a.size
  }

  /** Reads the cell at `(x, y)`: one of the values the slice holds. */
  function At(a: HeatmapArray, x: nat, y: nat): (r: nat)
    requires Addressable(a, x, y)
    ensures r in a.slice
  {
    a.slice[Index(a, x, y)]
  }

  /** Overwrites the cell at `(x, y)`; reading it back yields `v` and no other
      slot of the slice changes. */
  function Set(a: HeatmapArray, x: nat, y: nat, v: nat): (r: HeatmapArray)
    requires Addressable(a, x, y)
    ensures r.spread == a.spread && SizeOf(r) == SizeOf(a) && |r.slice| == |a.slice|
    ensures Addressable(r, x, y) && At(r, x, y) == v
    ensures forall k :: 0 <= k < |a.slice| && k != Index(a, x, y) ==> r.slice[k] == a.slice[k]
  {
    a.(slice := a.slice[Index(a, x, y) := v])
  }

  /** Every coordinate inside the dimensions has an address inside the slice. */
  ghost predicate AddressesInBounds(a: HeatmapArray)
  {
    forall x: nat, y: nat :: ValidCoord(a, x, y) ==> Addressable(a, x, y)
  }

  /** No two distinct coordinates inside the dimensions share an address. */
  ghost predicate AddressesDistinct(a: HeatmapArray)
  {
    forall x1: nat, y1: nat, x2: nat, y2: nat ::
      ValidCoord(a, x1, y1) && ValidCoord(a, x2, y2) && Index(a, x1, y1) == Index(a, x2, y2)
      ==> x1 == x2 && y1 == y2
  }

  /** The slice holds one cell per coordinate and the addressing is a bijection
      between coordinates and slots. */
  ghost predicate WellAddressed(a: HeatmapArray)
  {
    && |a.slice| == a.size.width * a.size.height
    && AddressesInBounds(a)
    && AddressesDistinct(a)
  }

  /** The constructor as the program writes it: the stride is the HEIGHT. */
  function NewHeatmapArray(width: nat, height: nat): (r: HeatmapArray)
    ensures |r.slice| == width * height
    ensures forall k :: 0 <= k < |r.slice| ==> r.slice[k] == 0
    ensures r.spread == height && SizeOf(r) == Size(width, height)
  {
    HeatmapArray(seq(width * height, _ => 0), height, Size(width, height))
  }

  /** The evidently intended constructor: row-major, the stride is the WIDTH. */
  function NewRowMajorArray(width: nat, height: nat): (r: HeatmapArray)
    ensures |r.slice| == width * height
    ensures forall k :: 0 <= k < |r.slice| ==> r.slice[k] == 0
    ensures r.spread == width && SizeOf(r) == Size(width, height)
  {
    HeatmapArray(seq(width * height, _ => 0), width, Size(width, height))
  }

  // ---------------------------------------------------------------------
  // Stride arithmetic
  // ---------------------------------------------------------------------

  lemma MulLeq(a: nat, b: nat, c: nat)
    requires a <= b
    ensures a * c <= b * c
  {
  }

  /** Within a stride `w`, a column below `w` and a row determine the index uniquely. */
  lemma StrideUnique(w: nat, x1: nat, y1: nat, x2: nat, y2: nat)
    requires x1 < w && x2 < w && x1 + y1 * w == x2 + y2 * w
    ensures x1 == x2 && y1 == y2
  {
    if y1 < y2 {
      assert (y1 + 1) * w == y1 * w + w;
      MulLeq(y1 + 1, y2, w);
    } else if y2 < y1 {
      assert (y2 + 1) * w == y2 * w + w;
      MulLeq(y2 + 1, y1, w);
    }
  }

  /** A column below `w` in a row below `h` lands inside a `w * h` slice. */
  lemma StrideBound(w: nat, h: nat, x: nat, y: nat)
    requires x < w && y < h
    ensures x + y * w < w * h
  {
    MulLeq(y + 1, h, w);
    assert (y + 1) * w == y * w + w;
    assert h * w == w * h;
  }

  /** Division and remainder by the stride recover the row and the column. */
  lemma StrideDivMod(w: nat, x: nat, y: nat)
    requires x < w
    ensures (x + y * w) % w == x && (x + y * w) / w == y
  {
    var i := x + y * w;
    assert i == (i / w) * w + i % w;
    StrideUnique(w, i % w, i / w, x, y);
  }

  /** An array whose stride is its width and whose slice has one slot per cell
      is well addressed. */
  lemma {:induction false} StrideWidthWellAddressed(a: HeatmapArray)
    requires a.spread == a.size.width
    requires |a.slice| == a.size.width * a.size.height
    ensures WellAddressed(a)
  {
    forall x: nat, y: nat | ValidCoord(a, x, y)
      ensures Addressable(a, x, y)
    {
      StrideBound(a.size.width, a.size.height, x, y);
    }
    forall x1: nat, y1: nat, x2: nat, y2: nat |
      ValidCoord(a, x1, y1) && ValidCoord(a, x2, y2) && Index(a, x1, y1) == Index(a, x2, y2)
      ensures x1 == x2 && y1 == y2
    {
      StrideUnique(a.spread, x1, y1, x2, y2);
    }
  }

  /** The corrected constructor always yields a well-addressed grid. */
  lemma RowMajorWellAddressed(width: nat, height: nat)
    ensures WellAddressed(NewRowMajorArray(width, height))
  {
    StrideWidthWellAddressed(NewRowMajorArray(width, height));
  }

  /** The constructor as written yields a well-addressed grid exactly when the
      grid is square or a single row: when it is wider (and has at least two
      rows) distinct coordinates share a slot, and when it is taller some
      coordinate addresses past the end of the slice. */
  lemma NewHeatmapArrayAddressing(width: nat, height: nat)
    requires width > 0 && height > 0
    ensures WellAddressed(NewHeatmapArray(width, height)) <==> width == height || height == 1
  {
    var a := NewHeatmapArray(width, height);
    if width == height {
      StrideWidthWellAddressed(a);
    } else if height == 1 {
      forall x: nat, y: nat | ValidCoord(a, x, y)
        ensures Addressable(a, x, y)
      {
        assert y == 0;
      }
      forall x1: nat, y1: nat, x2: nat, y2: nat |
        ValidCoord(a, x1, y1) && ValidCoord(a, x2, y2) && Index(a, x1, y1) == Index(a, x2, y2)
        ensures x1 == x2 && y1 == y2
      {
        assert y1 == 0 && y2 == 0;
      }
    } else if width > height {
      WiderAliases(width, height);
    } else {
      TallerOverruns(width, height);
    }
  }

  /** With the constructor as written every coordinate stays inside the slice
      exactly when the grid is at least as wide as it is tall; this is what
      reading every cell of a fresh grid needs. */
  lemma NewHeatmapArrayInBounds(width: nat, height: nat)
    requires width > 0 && height > 0
    ensures AddressesInBounds(NewHeatmapArray(width, height)) <==> width >= height
  {
    var a := NewHeatmapArray(width, height);
    if width >= height {
      forall x: nat, y: nat | ValidCoord(a, x, y)
        ensures Addressable(a, x, y)
      {
        assert y * height <= y * width by {
          MulLeq(height, width, y);
          assert height * y == y * height && width * y == y * width;
        }
        StrideBound(width, height, x, y);
      }
    } else {
      TallerOverruns(width, height);
    }
  }

  /** Wider than tall with at least two rows: `(height, 0)` and `(0, 1)` share a slot. */
  lemma WiderAliases(width: nat, height: nat)
    requires width > height >= 2
    ensures var a := NewHeatmapArray(width, height);
      && ValidCoord(a, height, 0) && ValidCoord(a, 0, 1)
      && Index(a, height, 0) == Index(a, 0, 1)
    ensures !AddressesDistinct(NewHeatmapArray(width, height))
  {
  }

  /** Taller than wide: the last coordinate `(width - 1, height - 1)` addresses
      past the end of the slice. */
  lemma TallerOverruns(width: nat, height: nat)
    requires 0 < width < height
    ensures var a := NewHeatmapArray(width, height);
      ValidCoord(a, width - 1, height - 1) && !Addressable(a, width - 1, height - 1)
  {
    var a := NewHeatmapArray(width, height);
    var d := height - width;
    assert (height - 1) * height == (height - 1) * width + (height - 1) * d;
    assert (height - 1) * d >= d by {
      MulLeq(1, height - 1, d);
    }
    assert (height - 1) * width + width == height * width;
    assert width * height == height * width;
  }
}
