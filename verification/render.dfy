/**
  The arithmetic of rendering a heatmap: each cell becomes an opaque gray
  pixel whose channels hold the low 8 bits of the cell, and the reported
  average brightness is the integer mean of those gray values.
 */
module Render {
  import opened Grid

  newtype byte = v: int | 0 <= v < 256

  const MaxUint8: byte := 255

  datatype RGBA = RGBA(r: byte, g: byte, b: byte, a: byte)

  /** The conversion of a cell to an 8-bit channel: the low 8 bits. Values
      that fit are kept; larger values alias a value 256 apart. */
  function Gray(v: nat): (g: byte)
    ensures v < 256 ==> g as int == v
    ensures (v - g as int) % 256 == 0
  {
    (v % 256) as byte
  }

  /** The opaque gray pixel for a cell value. */
  function GrayPixel(v: nat): (p: RGBA)
    ensures p.r == p.g == p.b == Gray(v) && p.a == 255
    ensures v < 256 ==> p.r as int == v
  {
    var g := Gray(v);
    RGBA(g, g, g, MaxUint8)
  }

  /** The gray values of column `x`, rows `0 .. n - 1`, added up. */
  function ColumnSum(a: HeatmapArray, x: nat, n: nat): (t: nat)
    requires AddressesInBounds(a) && x < a.size.width && n <= a.size.height
    ensures t <= 255 * n
  {
    if n == 0 then 0 else ColumnSum(a, x, n - 1) + Gray(At(a, x, n - 1)) as nat
  }

  /** The gray values of columns `0 .. m - 1`, added up. */
  function GridSum(a: HeatmapArray, m: nat): (t: nat)
    requires AddressesInBounds(a) && m <= a.size.width
    ensures t <= 255 * (m * a.size.height)
  {
    if m == 0 then 0
    else
      assert (m - 1) * a.size.height + a.size.height == m * a.size.height;
      GridSum(a, m - 1) + ColumnSum(a, m - 1, a.size.height)
  }

  lemma QuotientBound(total: nat, cells: nat, k: nat)
    requires cells > 0 && total <= k * cells
    ensures total / cells <= k
  {
  }

  /** The integer mean of the gray values over the whole grid. */
  function AverageBrightness(a: HeatmapArray): (avg: nat)
    requires AddressesInBounds(a) && a.size.width > 0 && a.size.height > 0
    ensures avg <= 255
  {
    var cells := a.size.width * a.size.height;
    var total := GridSum(a, a.size.width);
    MulLeq(1, a.size.width, a.size.height);
    QuotientBound(total, cells, 255);
    total / cells
  }

  /** The total gray value over the grid, divided by the cell count, is the
      average brightness. */
  lemma AverageOfTotal(a: HeatmapArray, total: nat)
    requires AddressesInBounds(a) && a.size.width > 0 && a.size.height > 0
    requires total == GridSum(a, a.size.width)
    ensures a.size.width * a.size.height > 0
    ensures total / (a.size.width * a.size.height) == AverageBrightness(a)
  {
    MulLeq(1, a.size.width, a.size.height);
  }

  /** Renders column `x`: the pixels of rows `0 .. height - 1` and the sum of
      their gray values. */
  method RenderColumn(a: HeatmapArray, x: nat) returns (column: seq<RGBA>, sum: nat)
    requires AddressesInBounds(a) && x < a.size.width
    ensures |column| == a.size.height
    ensures forall y: nat :: y < a.size.height ==> column[y] == GrayPixel(At(a, x, y))
    ensures sum == ColumnSum(a, x, a.size.height)
  {
    column, sum := [], 0;
    var y := 0;
    while y < a.size.height
      invariant y <= a.size.height && |column| == y
      invariant forall j: nat :: j < y ==> column[j] == GrayPixel(At(a, x, j))
      invariant sum == ColumnSum(a, x, y)
    {
      assert ValidCoord(a, x, y);
      sum := sum + Gray(At(a, x, y)) as nat;
      column := column + [GrayPixel(At(a, x, y))];
      y := y + 1;
    }
  }

  /** Renders the heatmap column by column: `img[x][y]` is the pixel at
      `(x, y)`. The grid must have at least one cell, since the average
      divides by the cell count. */
  method MakeImage(a: HeatmapArray) returns (img: seq<seq<RGBA>>, average: nat)
    requires a.size.width > 0 && a.size.height > 0
    requires AddressesInBounds(a)
    ensures |img| == a.size.width
    ensures forall x :: 0 <= x < |img| ==> |img[x]| == a.size.height
    ensures forall x: nat, y: nat :: ValidCoord(a, x, y) ==> img[x][y] == GrayPixel(At(a, x, y))
    ensures average == AverageBrightness(a)
  {
    var sum := 0;
    img := [];
    var x := 0;
    while x < a.size.width
      invariant x <= a.size.width && |img| == x
      invariant forall i :: 0 <= i < x ==> |img[i]| == a.size.height
      invariant forall i: nat, j: nat :: i < x && j < a.size.height ==> img[i][j] == GrayPixel(At(a, i, j))
      invariant sum == GridSum(a, x)
    {
      var column, columnSum := RenderColumn(a, x);
      sum := sum + columnSum;
      img := img + [column];
      x := x + 1;
    }
    var cells := a.size.width * a.size.height;
    AverageOfTotal(a, sum);
    average := sum / cells;
  }

  /** A grid holding one value `c` everywhere renders with average brightness
      equal to the gray value of `c`. */
  lemma UniformAverage(a: HeatmapArray, c: nat)
    requires AddressesInBounds(a) && a.size.width > 0 && a.size.height > 0
    requires forall x: nat, y: nat :: ValidCoord(a, x, y) ==> At(a, x, y) == c
    ensures AverageBrightness(a) == Gray(c) as nat
  {
    var w, h, g := a.size.width, a.size.height, Gray(c) as nat;
    UniformGridSum(a, c, w);
    Regroup(w, h, g);
    MulLeq(1, w, h);
    MulDivCancel(w * h, g);
  }

  lemma Regroup(w: nat, h: nat, g: nat)
    ensures w * (h * g) == g * (w * h)
  {
  }

  /** Dividing a multiple of `c` by `c` gives back the factor. */
  lemma MulDivCancel(c: nat, k: nat)
    requires c > 0
    ensures (k * c) / c == k
  {
    var q, r := (k * c) / c, (k * c) % c;
    assert k * c == q * c + r && 0 <= r < c;
    MulGap(q, k, c);
    MulGap(k, q, c);
  }

  /** Multiples of `c` with distinct factors lie at least `c` apart. */
  lemma MulGap(a: int, b: int, c: nat)
    ensures a < b ==> a * c + c <= b * c
  {
    if a < b {
      assert (b - a) * c == b * c - a * c;
      MulLeq(1, b - a, c);
    }
  }

  lemma {:induction false} UniformColumnSum(a: HeatmapArray, c: nat, x: nat, n: nat)
    requires AddressesInBounds(a) && x < a.size.width && n <= a.size.height
    requires forall x: nat, y: nat :: ValidCoord(a, x, y) ==> At(a, x, y) == c
    ensures ColumnSum(a, x, n) == n * Gray(c) as nat
  {
    if n > 0 {
      UniformColumnSum(a, c, x, n - 1);
      assert ValidCoord(a, x, n - 1);
      assert (n - 1) * Gray(c) as nat + Gray(c) as nat == n * Gray(c) as nat;
    }
  }

  lemma {:induction false} UniformGridSum(a: HeatmapArray, c: nat, m: nat)
    requires AddressesInBounds(a) && m <= a.size.width
    requires forall x: nat, y: nat :: ValidCoord(a, x, y) ==> At(a, x, y) == c
    ensures GridSum(a, m) == m * (a.size.height * Gray(c) as nat)
  {
    var p := a.size.height * Gray(c) as nat;
    if m > 0 {
      UniformGridSum(a, c, m - 1);
      UniformColumnSum(a, c, m - 1, a.size.height);
      assert (m - 1) * p + p == m * p;
    }
  }

  /** Rendering a value above 255 silently aliases: 300 renders as 44. */
  lemma TruncationAliases()
    ensures Gray(300) == 44 && GrayPixel(300) == GrayPixel(44)
  {
  }
}
