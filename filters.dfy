/** The four pixel filters of the patch editor, as specification functions
    on grids, with the properties they have and the loops that compute the
    sliding-window sums. */
module Filters {
  import opened Pixels

  /** The filters in the order of the selection list: 0 edges (Sobel),
      1 inversion, 2 smoothing (Gauss), 3 contrast. */
  datatype Operation = Sobel | Negative | Gauss | Contrast

  /** Operation chosen by list index `i`: the first three through the table
      of filter methods, every other index through the contrast call. */
  function OperationAt(i: int): (op: Operation)
    requires 0 <= i < 4
    ensures op == Contrast <==> i >= 3
  {
    if i == 0 then Sobel else if i == 1 then Negative else if i == 2 then Gauss else Contrast
  }

  /** List index of an operation. */
  function IndexOf(op: Operation): (i: int)
    ensures 0 <= i < 4
    ensures OperationAt(i) == op
  {
    match op
    case Sobel => 0
    case Negative => 1
    case Gauss => 2
    case Contrast => 3
  }

  lemma IndexOfOperationAt(i: int)
    requires 0 <= i < 4
    ensures IndexOf(OperationAt(i)) == i
  {
  }

  // ---------------------------------------------------------------- kernels

  /** 5 x 5 smoothing kernel; its entries add up to 273. */
  const GAUSS: seq<seq<int>> :=
    [[1, 4, 7, 4, 1],
     [4, 16, 26, 16, 4],
     [7, 26, 41, 26, 7],
     [4, 16, 26, 16, 4],
     [1, 4, 7, 4, 1]]

  /** Horizontal and vertical 3 x 3 Sobel kernels. */
  const SOBEL_X: seq<seq<int>> := [[-1, 0, 1], [-2, 0, 2], [-1, 0, 1]]
  const SOBEL_Y: seq<seq<int>> := [[1, 2, 1], [0, 0, 0], [-1, -2, -1]]

  /** `k` is a (2c+1) x (2c+1) kernel whose centre is (c, c). */
  predicate IsKernel(k: seq<seq<int>>, c: nat) {
    |k| == 2 * c + 1 && forall r :: 0 <= r < |k| ==> |k[r]| == 2 * c + 1
  }

  predicate NonNegative(k: seq<seq<int>>) {
    forall r, q :: 0 <= r < |k| && 0 <= q < |k[r]| ==> k[r][q] >= 0
  }

  /** Sum of the entries of row `r` of `k` from column `q` on. */
  function KernelRowTail(k: seq<seq<int>>, r: nat, q: nat): (total: int)
    requires r < |k| && q <= |k[r]|
    decreases |k[r]| - q
  {
    if q == |k[r]| then 0 else k[r][q] + KernelRowTail(k, r, q + 1)
  }

  /** Sum of the entries of rows `r` and below; `KernelTail(k, 0)` is the
      total weight of `k`. */
  function KernelTail(k: seq<seq<int>>, r: nat): (total: int)
    requires r <= |k|
    decreases |k| - r
  {
    if r == |k| then 0 else KernelRowTail(k, r, 0) + KernelTail(k, r + 1)
  }

  lemma GaussKernelFacts()
    ensures IsKernel(GAUSS, 2) && NonNegative(GAUSS) && KernelTail(GAUSS, 0) == 273
  {
  }

  lemma SobelKernelFacts()
    ensures IsKernel(SOBEL_X, 1) && KernelTail(SOBEL_X, 0) == 0
    ensures IsKernel(SOBEL_Y, 1) && KernelTail(SOBEL_Y, 0) == 0
  {
  }

  /** What is left of the Gauss kernel, read as one flat array of 25
      entries row after row, from flat position `i` on. */
  function GaussFlatTail(i: nat): (total: int)
    requires i <= 25
  {
    if i == 25 then 0 else KernelRowTail(GAUSS, i / 5, i % 5) + KernelTail(GAUSS, i / 5 + 1)
  }

  /** Flat position `i` holds entry (i / 5, i % 5) of the kernel. */
  lemma GaussFlatStep(i: nat)
    requires i < 25
    ensures GaussFlatTail(i) == GAUSS[i / 5][i % 5] + GaussFlatTail(i + 1)
  {
    var r, q := i / 5, i % 5;
    assert i == 5 * r + q && 0 <= q < 5;
    if q < 4 {
      assert (i + 1) / 5 == r && (i + 1) % 5 == q + 1;
    } else if i + 1 < 25 {
      assert (i + 1) / 5 == r + 1 && (i + 1) % 5 == 0;
      assert KernelRowTail(GAUSS, r, 5) == 0;
    } else {
      assert KernelRowTail(GAUSS, r, 5) == 0;
    }
  }

  /** The division coefficient of the smoothing filter: the loop over the
      25 entries of the kernel read as one flat array. */
  method GaussDivisor() returns (divC: int)
    ensures divC == KernelTail(GAUSS, 0)
  {
    divC := 0;
    for i := 0 to 25
      invariant divC + GaussFlatTail(i) == KernelTail(GAUSS, 0)
    {
      GaussFlatStep(i);
      divC := divC + GAUSS[i / 5][i % 5];
    }
  }

  // ------------------------------------------------ correlation with break

  /** Contribution of window row `i`, from column `j` up to x + c, to the
      window sum at (x, y), in the order the filter loops visit it. The
      first sample outside the patch ends the row (the loop `break`s), so
      a column left of the patch abandons the whole row. Kernels are read
      as `k[i - y + c][j - x + c]`: a correlation, with no flip. */
  function RowTail(src: Grid, w: nat, h: nat, k: seq<seq<int>>, c: nat,
                   x: int, y: int, i: int, j: int): (sum: int)
    requires IsGrid(src, w, h) && IsKernel(k, c)
    requires y - c <= i <= y + c && x - c <= j
    decreases x + c + 1 - j
  {
    if j > x + c then 0
    else if i < 0 || j < 0 || i >= h || j >= w then 0
    else src[i][j] * k[i - y + c][j - x + c] + RowTail(src, w, h, k, c, x, y, i, j + 1)
  }

  /** Contribution of window rows `i` to y + c. */
  function WindowTail(src: Grid, w: nat, h: nat, k: seq<seq<int>>, c: nat,
                      x: int, y: int, i: int): (sum: int)
    requires IsGrid(src, w, h) && IsKernel(k, c)
    requires y - c <= i
    decreases y + c + 1 - i
  {
    if i > y + c then 0
    else RowTail(src, w, h, k, c, x, y, i, x - c) + WindowTail(src, w, h, k, c, x, y, i + 1)
  }

  /** The accumulator `aux` of the filter loops for output pixel (x, y). */
  function Correlation(src: Grid, w: nat, h: nat, k: seq<seq<int>>, c: nat, x: int, y: int): (aux: int)
    requires IsGrid(src, w, h) && IsKernel(k, c)
  {
    WindowTail(src, w, h, k, c, x, y, y - c)
  }

  /** Reference definition: a plain sum over columns lo <= j < hi of row i. */
  function RangeSum(src: Grid, w: nat, h: nat, k: seq<seq<int>>, c: nat,
                    x: int, y: int, i: int, lo: int, hi: int): (sum: int)
    requires IsGrid(src, w, h) && IsKernel(k, c)
    requires 0 <= i < h && y - c <= i <= y + c
    requires 0 <= lo && x - c <= lo && hi <= w && hi <= x + c + 1
    decreases hi - lo
  {
    if lo >= hi then 0
    else src[i][lo] * k[i - y + c][lo - x + c] + RangeSum(src, w, h, k, c, x, y, i, lo + 1, hi)
  }

  function Min(a: int, b: int): (m: int) {
    if a <= b then a else b
  }

  lemma {:induction false} RowTailFrom(src: Grid, w: nat, h: nat, k: seq<seq<int>>, c: nat,
                                       x: int, y: int, i: int, j: int)
    requires IsGrid(src, w, h) && IsKernel(k, c)
    requires 0 <= i < h && y - c <= i <= y + c && 0 <= j && x - c <= j
    ensures RowTail(src, w, h, k, c, x, y, i, j)
         == RangeSum(src, w, h, k, c, x, y, i, j, Min(x + c + 1, w))
    decreases x + c + 1 - j
  {
    if j <= x + c && j < w {
      RowTailFrom(src, w, h, k, c, x, y, i, j + 1);
    }
  }

  /** What the break does to one window row: a row outside the patch and
      every row of a window reaching left of the patch count nothing; any
      other row is summed from x - c up to its last column inside the patch. */
  lemma RowTailIsClippedRow(src: Grid, w: nat, h: nat, k: seq<seq<int>>, c: nat,
                            x: int, y: int, i: int)
    requires IsGrid(src, w, h) && IsKernel(k, c) && y - c <= i <= y + c
    ensures RowTail(src, w, h, k, c, x, y, i, x - c)
         == if x < c || i < 0 || i >= h then 0
            else RangeSum(src, w, h, k, c, x, y, i, x - c, Min(x + c + 1, w))
  {
    if !(x < c || i < 0 || i >= h) {
      RowTailFrom(src, w, h, k, c, x, y, i, x - c);
    }
  }

  lemma {:induction false} WindowTailLeftEdge(src: Grid, w: nat, h: nat, k: seq<seq<int>>, c: nat,
                                              x: int, y: int, i: int)
    requires IsGrid(src, w, h) && IsKernel(k, c) && y - c <= i && x < c
    ensures WindowTail(src, w, h, k, c, x, y, i) == 0
    decreases y + c + 1 - i
  {
    if i <= y + c {
      WindowTailLeftEdge(src, w, h, k, c, x, y, i + 1);
    }
  }

  /** A window that reaches left of the patch sums to nothing. */
  lemma CorrelationLeftEdge(src: Grid, w: nat, h: nat, k: seq<seq<int>>, c: nat, x: int, y: int)
    requires IsGrid(src, w, h) && IsKernel(k, c) && x < c
    ensures Correlation(src, w, h, k, c, x, y) == 0
  {
    WindowTailLeftEdge(src, w, h, k, c, x, y, y - c);
  }

  lemma {:induction false} KernelRowTailNonNegative(k: seq<seq<int>>, r: nat, q: nat)
    requires NonNegative(k) && r < |k| && q <= |k[r]|
    ensures KernelRowTail(k, r, q) >= 0
    decreases |k[r]| - q
  {
    if q < |k[r]| {
      KernelRowTailNonNegative(k, r, q + 1);
    }
  }

  lemma {:induction false} RowTailBounds(src: Grid, w: nat, h: nat, k: seq<seq<int>>, c: nat,
                                         x: int, y: int, i: int, j: int)
    requires IsGrid(src, w, h) && IsKernel(k, c) && NonNegative(k)
    requires y - c <= i <= y + c && x - c <= j <= x + c + 1
    ensures 0 <= RowTail(src, w, h, k, c, x, y, i, j) <= 255 * KernelRowTail(k, i - y + c, j - x + c)
    decreases x + c + 1 - j
  {
    var r, q := i - y + c, j - x + c;
    if j > x + c {
    } else if i < 0 || j < 0 || i >= h || j >= w {
      KernelRowTailNonNegative(k, r, q);
    } else {
      RowTailBounds(src, w, h, k, c, x, y, i, j + 1);
      var p, e := src[i][j], k[r][q];
      assert 0 <= p * e <= 255 * e by {
        assert 0 <= p <= 255 && 0 <= e;
      }
    }
  }

  lemma {:induction false} WindowTailBounds(src: Grid, w: nat, h: nat, k: seq<seq<int>>, c: nat,
                                            x: int, y: int, i: int)
    requires IsGrid(src, w, h) && IsKernel(k, c) && NonNegative(k)
    requires y - c <= i <= y + c + 1
    ensures 0 <= WindowTail(src, w, h, k, c, x, y, i) <= 255 * KernelTail(k, i - y + c)
    decreases y + c + 1 - i
  {
    if i <= y + c {
      RowTailBounds(src, w, h, k, c, x, y, i, x - c);
      WindowTailBounds(src, w, h, k, c, x, y, i + 1);
    }
  }

  /** With a non-negative kernel the window sum lies between 0 and 255 times
      the kernel's total weight. */
  lemma CorrelationBounds(src: Grid, w: nat, h: nat, k: seq<seq<int>>, c: nat, x: int, y: int)
    requires IsGrid(src, w, h) && IsKernel(k, c) && NonNegative(k)
    ensures 0 <= Correlation(src, w, h, k, c, x, y) <= 255 * KernelTail(k, 0)
  {
    WindowTailBounds(src, w, h, k, c, x, y, y - c);
  }

  /** Every pixel of `src` equals `v`. */
  predicate Uniform(src: Grid, v: int) {
    forall i, j :: 0 <= i < |src| && 0 <= j < |src[i]| ==> src[i][j] == v
  }

  lemma {:induction false} RowTailUniform(src: Grid, w: nat, h: nat, k: seq<seq<int>>, c: nat,
                                          x: int, y: int, i: int, j: int, v: int)
    requires IsGrid(src, w, h) && IsKernel(k, c) && Uniform(src, v)
    requires 0 <= i < h && y - c <= i <= y + c
    requires 0 <= x - c && x + c < w && x - c <= j <= x + c + 1
    ensures RowTail(src, w, h, k, c, x, y, i, j) == v * KernelRowTail(k, i - y + c, j - x + c)
    decreases x + c + 1 - j
  {
    if j <= x + c {
      RowTailUniform(src, w, h, k, c, x, y, i, j + 1, v);
    }
  }

  lemma {:induction false} WindowTailUniform(src: Grid, w: nat, h: nat, k: seq<seq<int>>, c: nat,
                                             x: int, y: int, i: int, v: int)
    requires IsGrid(src, w, h) && IsKernel(k, c) && Uniform(src, v)
    requires 0 <= x - c && x + c < w && 0 <= y - c && y + c < h
    requires y - c <= i <= y + c + 1
    ensures WindowTail(src, w, h, k, c, x, y, i) == v * KernelTail(k, i - y + c)
    decreases y + c + 1 - i
  {
    if i <= y + c {
      RowTailUniform(src, w, h, k, c, x, y, i, x - c, v);
      WindowTailUniform(src, w, h, k, c, x, y, i + 1, v);
    }
  }

  /** On a uniform patch, a window lying wholly inside it sums to the
      uniform value times the kernel's total weight. */
  lemma CorrelationUniform(src: Grid, w: nat, h: nat, k: seq<seq<int>>, c: nat,
                           x: int, y: int, v: int)
    requires IsGrid(src, w, h) && IsKernel(k, c) && Uniform(src, v)
    requires 0 <= x - c && x + c < w && 0 <= y - c && y + c < h
    ensures Correlation(src, w, h, k, c, x, y) == v * KernelTail(k, 0)
  {
    WindowTailUniform(src, w, h, k, c, x, y, y - c, v);
  }

  // ------------------------------------------------------------ smoothing

  /** Smoothed value of pixel (x, y): the window sum divided by 273,
      rounded down. */
  function GaussAt(src: Grid, w: nat, h: nat, x: int, y: int): (v: Byte)
    requires IsGrid(src, w, h)
    ensures 273 * v <= Correlation(src, w, h, GAUSS, 2, x, y) < 273 * (v + 1)
  {
    GaussKernelFacts();
    CorrelationBounds(src, w, h, GAUSS, 2, x, y);
    Correlation(src, w, h, GAUSS, 2, x, y) / 273
  }

  /** Post buffer of the smoothing filter. */
  function GaussImage(src: Grid, w: nat, h: nat): (r: Grid)
    requires IsGrid(src, w, h)
    ensures IsGrid(r, w, h)
  {
    seq(h, y requires 0 <= y < h => seq(w, x requires 0 <= x < w => GaussAt(src, w, h, x, y)))
  }

  /** The first two columns of a smoothed patch are black. */
  lemma GaussLeftColumns(src: Grid, w: nat, h: nat, x: int, y: int)
    requires IsGrid(src, w, h) && x < 2
    ensures GaussAt(src, w, h, x, y) == 0
  {
    GaussKernelFacts();
    CorrelationLeftEdge(src, w, h, GAUSS, 2, x, y);
  }

  /** Smoothing a uniform patch keeps its value wherever the whole 5 x 5
      window lies inside the patch. */
  lemma GaussUniform(src: Grid, w: nat, h: nat, x: int, y: int, v: Byte)
    requires IsGrid(src, w, h) && Uniform(src, v)
    requires 2 <= x && x + 2 < w && 2 <= y && y + 2 < h
    ensures GaussAt(src, w, h, x, y) == v
  {
    GaussKernelFacts();
    CorrelationUniform(src, w, h, GAUSS, 2, x, y, v);
  }

  /** The accumulation loop of one output pixel (the two inner loops of the
      smoothing filter), for any square kernel. */
  method WindowSum(src: array2<Byte>, k: seq<seq<int>>, c: nat, x: int, y: int) returns (aux: int)
    requires IsKernel(k, c)
    ensures aux == Correlation(Rows(src), src.Length1, src.Length0, k, c, x, y)
  {
    ghost var g := Rows(src);
    var w, h := src.Length1, src.Length0;
    aux := 0;
    var i := y - c;
    while i <= y + c
      invariant y - c <= i <= y + c + 1
      invariant aux + WindowTail(g, w, h, k, c, x, y, i) == Correlation(g, w, h, k, c, x, y)
    {
      var j := x - c;
      while j <= x + c
        invariant x - c <= j <= x + c + 1
        invariant aux + RowTail(g, w, h, k, c, x, y, i, j) + WindowTail(g, w, h, k, c, x, y, i + 1)
               == Correlation(g, w, h, k, c, x, y)
      {
        if i < 0 || j < 0 || i >= h || j >= w {
          break;
        }
        aux := aux + src[i, j] * k[i - y + c][j - x + c];
        j := j + 1;
      }
      i := i + 1;
    }
  }

  // ------------------------------------------------------ edge detection

  /** Floor of the square root. */
  function FloorSqrt(n: nat): (r: nat)
    ensures r * r <= n < (r + 1) * (r + 1)
  {
    if n < 4 then (if n == 0 then 0 else 1)
    else
      var t := FloorSqrt(n / 4);
      DoubledSquares(t);
      if (2 * t + 1) * (2 * t + 1) <= n then 2 * t + 1 else 2 * t
  }

  /** The squares of 2t, 2t + 1 and 2t + 2 in terms of the squares of t and t + 1. */
  lemma DoubledSquares(t: int)
    ensures (2 * t) * (2 * t) == 4 * (t * t)
    ensures (2 * t + 2) * (2 * t + 2) == 4 * ((t + 1) * (t + 1))
  {
  }

  /** Sum of two squares, a natural number. */
  function SquareSum(a: int, b: int): (n: nat) {
    assert a * a >= 0 && b * b >= 0;
    a * a + b * b
  }

  /** Gradient magnitude floor(sqrt(gx^2 + gy^2)) cast to an `unsigned
      char`, which keeps it modulo 256. */
  function Magnitude(gx: int, gy: int): (m: Byte)
    ensures SquareSum(gx, gy) < 256 * 256 ==> m == FloorSqrt(SquareSum(gx, gy))
  {
    var r := FloorSqrt(SquareSum(gx, gy));
    SmallRoot(r, SquareSum(gx, gy));
    r % 256
  }

  /** A root whose square stays below 256 * 256 is below 256. */
  lemma SmallRoot(r: nat, n: nat)
    requires r * r <= n
    ensures n < 256 * 256 ==> r < 256
  {
    if r >= 256 {
      assert r * r >= 256 * r >= 256 * 256;
    }
  }

  lemma MagnitudeOfZero()
    ensures Magnitude(0, 0) == 0
  {
    SquareSumOfZero();
    FloorSqrtOfZero();
  }

  lemma SquareSumOfZero()
    ensures SquareSum(0, 0) == 0
  {
  }

  lemma FloorSqrtOfZero()
    ensures FloorSqrt(0) == 0
  {
  }

  /** Edge value of pixel (x, y). */
  function SobelAt(src: Grid, w: nat, h: nat, x: int, y: int): (v: Byte)
    requires IsGrid(src, w, h)
  {
    SobelKernelFacts();
    Magnitude(Correlation(src, w, h, SOBEL_X, 1, x, y), Correlation(src, w, h, SOBEL_Y, 1, x, y))
  }

  /** Post buffer of the edge filter. */
  function SobelImage(src: Grid, w: nat, h: nat): (r: Grid)
    requires IsGrid(src, w, h)
    ensures IsGrid(r, w, h)
  {
    seq(h, y requires 0 <= y < h => seq(w, x requires 0 <= x < w => SobelAt(src, w, h, x, y)))
  }

  /** Column 0 of an edge-filtered patch is black. */
  lemma SobelLeftColumn(src: Grid, w: nat, h: nat, x: int, y: int)
    requires IsGrid(src, w, h) && x < 1
    ensures SobelAt(src, w, h, x, y) == 0
  {
    SobelKernelFacts();
    CorrelationLeftEdge(src, w, h, SOBEL_X, 1, x, y);
    CorrelationLeftEdge(src, w, h, SOBEL_Y, 1, x, y);
    MagnitudeOfZero();
  }

  /** A uniform region has no edges wherever the whole 3 x 3 window lies
      inside the patch. */
  lemma SobelUniform(src: Grid, w: nat, h: nat, x: int, y: int, v: Byte)
    requires IsGrid(src, w, h) && Uniform(src, v)
    requires 1 <= x && x + 1 < w && 1 <= y && y + 1 < h
    ensures SobelAt(src, w, h, x, y) == 0
  {
    SobelKernelFacts();
    CorrelationUniform(src, w, h, SOBEL_X, 1, x, y, v);
    CorrelationUniform(src, w, h, SOBEL_Y, 1, x, y, v);
    MagnitudeOfZero();
  }

  /** The accumulation loop of one output pixel of the edge filter: both
      gradients in one pass over the 3 x 3 window. */
  method SobelWindow(src: array2<Byte>, x: int, y: int) returns (gx: int, gy: int)
    ensures gx == Correlation(Rows(src), src.Length1, src.Length0, SOBEL_X, 1, x, y)
    ensures gy == Correlation(Rows(src), src.Length1, src.Length0, SOBEL_Y, 1, x, y)
  {
    SobelKernelFacts();
    ghost var g := Rows(src);
    var w, h := src.Length1, src.Length0;
    gx, gy := 0, 0;
    var i := y - 1;
    while i <= y + 1
      invariant y - 1 <= i <= y + 2
      invariant gx + WindowTail(g, w, h, SOBEL_X, 1, x, y, i) == Correlation(g, w, h, SOBEL_X, 1, x, y)
      invariant gy + WindowTail(g, w, h, SOBEL_Y, 1, x, y, i) == Correlation(g, w, h, SOBEL_Y, 1, x, y)
    {
      var j := x - 1;
      while j <= x + 1
        invariant x - 1 <= j <= x + 2
        invariant gx + RowTail(g, w, h, SOBEL_X, 1, x, y, i, j) + WindowTail(g, w, h, SOBEL_X, 1, x, y, i + 1)
               == Correlation(g, w, h, SOBEL_X, 1, x, y)
        invariant gy + RowTail(g, w, h, SOBEL_Y, 1, x, y, i, j) + WindowTail(g, w, h, SOBEL_Y, 1, x, y, i + 1)
               == Correlation(g, w, h, SOBEL_Y, 1, x, y)
      {
        if i < 0 || j < 0 || i >= h || j >= w {
          break;
        }
        gx := gx + src[i, j] * SOBEL_X[i - y + 1][j - x + 1];
        gy := gy + src[i, j] * SOBEL_Y[i - y + 1][j - x + 1];
        j := j + 1;
      }
      i := i + 1;
    }
  }

  // ------------------------------------------------------------- contrast

  /** The C++ `(int)` conversion of a floating value: toward zero. */
  function Trunc(r: real): (t: int)
    ensures 0.0 <= r ==> t as real <= r < t as real + 1.0
    ensures r < 0.0 ==> t as real - 1.0 < r <= t as real
  {
    if r >= 0.0 then r.Floor else -((-r).Floor)
  }

  /** Contrast/brightness of one pixel: `(int)(v * alpha) + beta` stored into
      an `unsigned char`, that is, kept modulo 256. */
  function ContrastAt(v: Byte, alpha: real, beta: int): (stored: Byte)
    ensures (stored - (Trunc(v as real * alpha) + beta)) % 256 == 0
    ensures 0 <= Trunc(v as real * alpha) + beta < 256 ==> stored == Trunc(v as real * alpha) + beta
  {
    (Trunc(v as real * alpha) + beta) % 256
  }

  /** With alpha = 1 and beta = 0 a pixel is unchanged. */
  lemma ContrastIdentityAt(v: Byte)
    ensures ContrastAt(v, 1.0, 0) == v
  {
    assert v as real * 1.0 == v as real;
  }

  /** The upper clamp never takes effect: a bright pixel wraps around. */
  lemma ContrastWraps()
    ensures ContrastAt(200, 1.0, 100) == 44
  {
    assert 200 as real * 1.0 == 200.0;
  }

  /** Post buffer of the contrast filter, pixel by pixel. */
  function ContrastGrid(g: Grid, alpha: real, beta: int): (r: Grid)
    ensures |r| == |g| && forall i :: 0 <= i < |g| ==> |r[i]| == |g[i]|
  {
    seq(|g|, i requires 0 <= i < |g| =>
      seq(|g[i]|, j requires 0 <= j < |g[i]| => ContrastAt(g[i][j], alpha, beta)))
  }

  /** With alpha = 1 and beta = 0 the contrast filter changes nothing. */
  lemma ContrastIdentity(g: Grid)
    ensures ContrastGrid(g, 1.0, 0) == g
  {
    var r := ContrastGrid(g, 1.0, 0);
    forall i | 0 <= i < |g|
      ensures r[i] == g[i]
    {
      forall j | 0 <= j < |g[i]|
        ensures r[i][j] == g[i][j]
      {
        ContrastIdentityAt(g[i][j]);
      }
    }
  }

  // ------------------------------------------------------------- negation

  function Pow2(k: nat): (p: nat)
    ensures p >= 1
  {
    if k == 0 then 1 else 2 * Pow2(k - 1)
  }

  /** The C `^` operator on the low `bits` bits of `a` and `b`, bit by bit
      from the least significant one. */
  function Xor(a: nat, b: nat, bits: nat): (r: nat)
    ensures r < Pow2(bits)
  {
    if bits == 0 then 0
    else (if a % 2 == b % 2 then 0 else 1) + 2 * Xor(a / 2, b / 2, bits - 1)
  }

  /** Inversion of one intensity, `255 ^ v`: both operands fit in 8 bits, so
      the 8-bit exclusive or is the whole result. */
  function Negate(v: Byte): (inverted: Byte)
    ensures inverted == 255 - v
  {
    assert Pow2(8) == 256;
    XorAllOnes(v, 8);
    Xor(255, v, 8)
  }

  /** Exclusive or with the all-ones mask of `bits` bits subtracts from it. */
  lemma {:induction false} XorAllOnes(v: nat, bits: nat)
    requires v < Pow2(bits)
    ensures Xor(Pow2(bits) - 1, v, bits) == Pow2(bits) - 1 - v
  {
    if bits > 0 {
      var m := Pow2(bits) - 1;
      assert m % 2 == 1 && m / 2 == Pow2(bits - 1) - 1;
      XorAllOnes(v / 2, bits - 1);
    }
  }

  /** Negating twice gives back the intensity. */
  lemma NegateTwice(v: Byte)
    ensures Negate(Negate(v)) == v
  {
  }

  /** Post buffer of the inversion filter, pixel by pixel. */
  function NegateGrid(g: Grid): (r: Grid)
    ensures |r| == |g| && forall i :: 0 <= i < |g| ==> |r[i]| == |g[i]|
  {
    seq(|g|, i requires 0 <= i < |g| => seq(|g[i]|, j requires 0 <= j < |g[i]| => Negate(g[i][j])))
  }

  /** Inverting a patch twice restores it. */
  lemma NegateGridTwice(g: Grid)
    ensures NegateGrid(NegateGrid(g)) == g
  {
    var r := NegateGrid(NegateGrid(g));
    forall i | 0 <= i < |g|
      ensures r[i] == g[i]
    {
      forall j | 0 <= j < |g[i]|
        ensures r[i][j] == g[i][j]
      {
        NegateTwice(g[i][j]);
      }
    }
  }

  // ------------------------------------------------------------- dispatch

  /** Post buffer produced by `op` on a patch whose pre-operation buffer is
      `pre` (the post buffer starts as a copy of it). */
  function Filtered(op: Operation, pre: Grid, w: nat, h: nat, alpha: real, beta: int): (r: Grid)
    requires IsGrid(pre, w, h)
    ensures IsGrid(r, w, h)
  {
    match op
    case Sobel => SobelImage(pre, w, h)
    case Negative => NegateGrid(pre)
    case Gauss => GaussImage(pre, w, h)
    case Contrast => ContrastGrid(pre, alpha, beta)
  }
}
