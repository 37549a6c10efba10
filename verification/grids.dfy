/**
 * Pixel grids as the analyzers see them (numpy arrays): a grayscale or mask
 * plane is a grid of integers, a colour image a grid of three-channel pixels.
 * Also the per-pixel colour conversions and the sum over a plane.
 */
module Grids {

  /** One pixel; which channel is blue and which is red is fixed by the caller
      (OpenCV images are B,G,R, PIL images R,G,B). */
  datatype Pixel = Pixel(c0: int, c1: int, c2: int)

  const Black := Pixel(0, 0, 0)

  type Grid = seq<seq<int>>
  type Image = seq<seq<Pixel>>

  /** The number of columns: the length of the first row (0 for no rows). */
  function Width<T>(g: seq<seq<T>>): nat
  {
    if |g| == 0 then 0 else |g[0]|
  }

  /** `g` has shape h × w. */
  ghost predicate IsRect<T>(g: seq<seq<T>>, h: nat, w: nat)
  {
    |g| == h && forall r :: 0 <= r < |g| ==> |g[r]| == w
  }

  /** Every row has the width of the first: what any numpy array guarantees. */
  predicate Rectangular<T>(g: seq<seq<T>>)
  {
    forall r :: 0 <= r < |g| ==> |g[r]| == Width(g)
  }

  /** numpy's `size == 0`. */
  predicate IsEmpty<T>(g: seq<seq<T>>)
  {
    |g| == 0 || Width(g) == 0
  }

  /** Applies a per-pixel conversion to every pixel (cv2.cvtColor to one channel). */
  function MapPixels(img: Image, f: Pixel -> int): (g: Grid)
    ensures |g| == |img|
    ensures forall r :: 0 <= r < |g| ==> |g[r]| == |img[r]|
  {
    seq(|img|, r requires 0 <= r < |img| =>
      seq(|img[r]|, c requires 0 <= c < |img[r]| => f(img[r][c])))
  }

  /** Reverses the channel order (BGR to RGB and back). */
  function Swap(p: Pixel): Pixel
  {
    Pixel(p.c2, p.c1, p.c0)
  }

  function SwapAll(img: Image): (out: Image)
    ensures |out| == |img|
    ensures forall r :: 0 <= r < |out| ==> |out[r]| == |img[r]|
  {
    seq(|img|, r requires 0 <= r < |img| =>
      seq(|img[r]|, c requires 0 <= c < |img[r]| => Swap(img[r][c])))
  }

  /** Swapping the channel order twice gives the image back. */
  lemma SwapAllTwice(img: Image)
    ensures SwapAll(SwapAll(img)) == img
  {
    var back := SwapAll(SwapAll(img));
    forall r | 0 <= r < |img|
      ensures back[r] == img[r]
    {
      assert forall c :: 0 <= c < |img[r]| ==> back[r][c] == img[r][c];
    }
  }

  function RowSum(row: seq<int>): int
  {
    if |row| == 0 then 0 else RowSum(row[..|row| - 1]) + row[|row| - 1]
  }

  /** numpy's `a.sum()` over a whole plane. */
  function GridSum(g: Grid): int
  {
    if |g| == 0 then 0 else GridSum(g[..|g| - 1]) + RowSum(g[|g| - 1])
  }

  lemma {:induction false} RowSumMonotone(a: seq<int>, b: seq<int>)
    requires |a| == |b|
    requires forall c :: 0 <= c < |a| ==> a[c] <= b[c]
    ensures RowSum(a) <= RowSum(b)
  {
    if |a| > 0 {
      RowSumMonotone(a[..|a| - 1], b[..|b| - 1]);
    }
  }

  /** A plane that is pointwise no larger has no larger sum. */
  lemma {:induction false} GridSumMonotone(a: Grid, b: Grid)
    requires |a| == |b|
    requires forall r :: 0 <= r < |a| ==> |a[r]| == |b[r]|
    requires forall r, c :: 0 <= r < |a| && 0 <= c < |a[r]| ==> a[r][c] <= b[r][c]
    ensures GridSum(a) <= GridSum(b)
  {
    if |a| > 0 {
      GridSumMonotone(a[..|a| - 1], b[..|b| - 1]);
      RowSumMonotone(a[|a| - 1], b[|b| - 1]);
    }
  }

  lemma {:induction false} RowSumBounds(row: seq<int>, m: int)
    requires 0 <= m
    requires forall c :: 0 <= c < |row| ==> 0 <= row[c] <= m
    ensures 0 <= RowSum(row) <= m * |row|
  {
    if |row| > 0 {
      RowSumBounds(row[..|row| - 1], m);
    }
  }

  lemma Distribute(m: int, h: int, w: int)
    ensures m * ((h + 1) * w) == m * (h * w) + m * w
  {
  }

  /** A w-wide plane whose cells lie in [0, m] sums to at most m per cell. */
  lemma {:induction false} GridSumBounds(g: Grid, w: nat, m: int)
    requires 0 <= m
    requires IsRect(g, |g|, w)
    requires forall r, c :: 0 <= r < |g| && 0 <= c < |g[r]| ==> 0 <= g[r][c] <= m
    ensures 0 <= GridSum(g) <= m * (|g| * w)
  {
    if |g| > 0 {
      var h := |g| - 1;
      GridSumBounds(g[..h], w, m);
      RowSumBounds(g[h], m);
      assert GridSum(g) == GridSum(g[..h]) + RowSum(g[h]);
      Distribute(m, h, w);
    }
  }

  function Min(a: int, b: int): int
  {
    if a <= b then a else b
  }

  /** Number of cells of a row equal to v. */
  function RowCount(row: seq<int>, v: int): nat
  {
    if |row| == 0 then 0 else RowCount(row[..|row| - 1], v) + (if row[|row| - 1] == v then 1 else 0)
  }

  /** Number of cells of a plane equal to v. */
  function GridCount(g: Grid, v: int): nat
  {
    if |g| == 0 then 0 else GridCount(g[..|g| - 1], v) + RowCount(g[|g| - 1], v)
  }

  lemma Distribute2(m: int, a: int, b: int)
    ensures m * (a + b) == m * a + m * b
  {
  }

  lemma {:induction false} RowSumBinary(row: seq<int>, m: int)
    requires m != 0
    requires forall c :: 0 <= c < |row| ==> row[c] == 0 || row[c] == m
    ensures RowSum(row) == m * RowCount(row, m)
  {
    if |row| > 0 {
      RowSumBinary(row[..|row| - 1], m);
    }
  }

  /** A plane whose cells are all 0 or m sums to m times the number of m cells. */
  lemma {:induction false} GridSumBinary(g: Grid, m: int)
    requires m != 0
    requires forall r, c :: 0 <= r < |g| && 0 <= c < |g[r]| ==> g[r][c] == 0 || g[r][c] == m
    ensures GridSum(g) == m * GridCount(g, m)
  {
    if |g| > 0 {
      var h := |g| - 1;
      GridSumBinary(g[..h], m);
      RowSumBinary(g[h], m);
      assert GridSum(g) == GridSum(g[..h]) + RowSum(g[h]);
      assert GridCount(g, m) == GridCount(g[..h], m) + RowCount(g[h], m);
      Distribute2(m, GridCount(g[..h], m), RowCount(g[h], m));
    }
  }
}
