/// The motion kernel's averaging window in Performance/kernels.c: pixel (i, j)
/// of the result is the per-channel mean of the cells of the 3 x 3 window
/// whose top-left corner is (i, j), clipped to the image, each mean rounded
/// down and cast to `unsigned short`.
module KernelWindow {
  import opened KernelImage

  /** Channel sums, the `int red, green, blue` accumulators of the weighted_combo helpers. */
  datatype Sums = Sums(red: int, green: int, blue: int)

  const Zero := Sums(0, 0, 0)

  /** `red += p.red; green += p.green; blue += p.blue`. */
  function Plus(t: Sums, p: Pixel): Sums
  {
    Sums(t.red + p.red, t.green + p.green, t.blue + p.blue)
  }

  function Add(t: Sums, u: Sums): Sums
  {
    Sums(t.red + u.red, t.green + u.green, t.blue + u.blue)
  }

  /** The sums of the n pixels at flat indices start .. start+n-1. */
  function RowSum(s: seq<Pixel>, start: int, n: nat): Sums
    requires 0 <= start && start + n <= |s|
  {
    if n == 0 then Zero else Plus(RowSum(s, start, n - 1), s[start + n - 1])
  }

  /** The sums of the n cells of row r from column j on. */
  function Row(dim: nat, s: seq<Pixel>, r: nat, j: nat, n: nat): Sums
    requires |s| == dim * dim && r < dim && j + n <= dim
  {
    RowInside(dim, r, j, n);
    RowSum(s, Ridx(r, j, dim), n)
  }

  /** No cells sum to zero. */
  lemma RowEmpty(dim: nat, s: seq<Pixel>, r: nat, j: nat)
    requires |s| == dim * dim && r < dim && j <= dim
    ensures Row(dim, s, r, j, 0) == Zero
  {
  }

  /** One more cell of row r adds that cell. */
  lemma RowStep(dim: nat, s: seq<Pixel>, r: nat, j: nat, n: nat)
    requires |s| == dim * dim && r < dim && j + n < dim
    ensures Ridx(r, j + n, dim) < |s|
    ensures Row(dim, s, r, j, n + 1) == Plus(Row(dim, s, r, j, n), s[Ridx(r, j + n, dim)])
  {
    RowInside(dim, r, j, n + 1);
  }

  /** The sums of the h x w block of cells whose top-left corner is (i, j). */
  function BoxSum(dim: nat, s: seq<Pixel>, i: nat, j: nat, h: nat, w: nat): Sums
    requires |s| == dim * dim && i + h <= dim && j + w <= dim
  {
    if h == 0 then Zero else Add(BoxSum(dim, s, i, j, h - 1, w), Row(dim, s, i + h - 1, j, w))
  }

  /** One more row of the block adds that row. */
  lemma BoxStep(dim: nat, s: seq<Pixel>, i: nat, j: nat, h: nat, w: nat)
    requires |s| == dim * dim && i + h < dim && j + w <= dim
    ensures BoxSum(dim, s, i, j, h + 1, w) == Add(BoxSum(dim, s, i, j, h, w), Row(dim, s, i + h, j, w))
  {
  }

  /** `(unsigned short)(sum / n)` for each channel; every sum here is non-negative, so C's truncating division
    * and Dafny's agree. */
  function Average(t: Sums, n: int): Pixel
    requires n > 0
  {
    Pixel(Short(t.red / n), Short(t.green / n), Short(t.blue / n))
  }

  /** The rows of the window at (i, j) that lie inside the image. */
  function Height(dim: nat, i: nat): nat
    requires i < dim
  {
    Min(3, dim - i)
  }

  /** weighted_combo's num_neighbors: the in-bounds cells of the window, between 1 and 9. */
  function Neighbours(dim: nat, i: nat, j: nat): (n: nat)
    requires i < dim && j < dim
    ensures 1 <= n <= 9
    ensures n == Height(dim, i) * Height(dim, j)
  {
    var h, w := Height(dim, i), Height(dim, j);
    assert 1 <= h <= 3 && 1 <= w <= 3;
    h * w
  }

  /** weighted_combo(dim, i, j, src): the mean over the in-bounds cells of the window at (i, j). */
  function Combo(dim: nat, s: seq<Pixel>, i: nat, j: nat): Pixel
    requires |s| == dim * dim && i < dim && j < dim
  {
    Average(BoxSum(dim, s, i, j, Height(dim, i), Height(dim, j)), Neighbours(dim, i, j))
  }

  /** The result of naive_motion: cell (i, j) of the image is Combo at (i, j). */
  function MotionImage(dim: nat, s: seq<Pixel>): (d: seq<Pixel>)
    requires |s| == dim * dim
    ensures |d| == dim * dim
  {
    seq(dim * dim, k requires 0 <= k < dim * dim => ComboAt(dim, s, k))
  }

  /** Combo at the cell with flat index k. */
  function ComboAt(dim: nat, s: seq<Pixel>, k: int): Pixel
    requires |s| == dim * dim && 0 <= k < dim * dim
  {
    RidxOf(dim, k);
    Combo(dim, s, k / dim, k % dim)
  }

  /** Cell (i, j) of MotionImage is the window mean at (i, j). */
  lemma MotionImageAt(dim: nat, s: seq<Pixel>, i: nat, j: nat)
    requires |s| == dim * dim && i < dim && j < dim
    ensures Ridx(i, j, dim) < |s| && MotionImage(dim, s)[Ridx(i, j, dim)] == Combo(dim, s, i, j)
  {
    RidxParts(dim, i, j);
  }

  /** An image whose every cell (i, j) holds Combo at (i, j) is MotionImage. */
  lemma {:induction false} MotionFromCells(dim: nat, d: seq<Pixel>, s: seq<Pixel>)
    requires |d| == dim * dim && |s| == dim * dim
    requires forall i: nat, j: nat :: i < dim && j < dim ==> d[Ridx(i, j, dim)] == Combo(dim, s, i, j)
    ensures d == MotionImage(dim, s)
  {
    forall k | 0 <= k < dim * dim
      ensures d[k] == MotionImage(dim, s)[k]
    {
      RidxOf(dim, k);
      var i: nat, j: nat := k / dim, k % dim;
      assert d[Ridx(i, j, dim)] == Combo(dim, s, i, j);
    }
  }

  // ---------------------------------------------------------------------------
  // The mean needs no truncation
  // ---------------------------------------------------------------------------

  /** Each channel sum of n pixels lies between 0 and n * 65535. */
  lemma {:induction false} RowSumBound(s: seq<Pixel>, start: int, n: nat)
    requires 0 <= start && start + n <= |s|
    ensures var t := RowSum(s, start, n);
      0 <= t.red <= n * 0xFFFF && 0 <= t.green <= n * 0xFFFF && 0 <= t.blue <= n * 0xFFFF
  {
    if n > 0 {
      RowSumBound(s, start, n - 1);
    }
  }

  /** Each channel sum of an h x w block lies between 0 and h * w * 65535. */
  lemma {:induction false} BoxSumBound(dim: nat, s: seq<Pixel>, i: nat, j: nat, h: nat, w: nat)
    requires |s| == dim * dim && i + h <= dim && j + w <= dim
    ensures var t := BoxSum(dim, s, i, j, h, w);
      0 <= t.red <= h * w * 0xFFFF && 0 <= t.green <= h * w * 0xFFFF && 0 <= t.blue <= h * w * 0xFFFF
  {
    if h > 0 {
      BoxSumBound(dim, s, i, j, h - 1, w);
      RowInside(dim, i + h - 1, j, w);
      RowSumBound(s, Ridx(i + h - 1, j, dim), w);
      assert h * w * 0xFFFF == (h - 1) * w * 0xFFFF + w * 0xFFFF;
    }
  }

  /** The `(unsigned short)` cast of weighted_combo loses nothing: each channel of Combo is the exact rounded-down
    * mean of the window's cells. */
  lemma ComboExact(dim: nat, s: seq<Pixel>, i: nat, j: nat)
    requires |s| == dim * dim && i < dim && j < dim
    ensures var t, n, p := BoxSum(dim, s, i, j, Height(dim, i), Height(dim, j)), Neighbours(dim, i, j), Combo(dim, s, i, j);
      p.red == t.red / n && p.green == t.green / n && p.blue == t.blue / n
  {
    var h, w := Height(dim, i), Height(dim, j);
    var n := Neighbours(dim, i, j);
    BoxSumBound(dim, s, i, j, h, w);
    var t := BoxSum(dim, s, i, j, h, w);
    MeanBound(t.red, n);
    MeanBound(t.green, n);
    MeanBound(t.blue, n);
  }

  lemma MeanBound(x: int, n: int)
    requires n > 0 && 0 <= x <= n * 0xFFFF
    ensures 0 <= x / n <= 0xFFFF
  {
    var q := x / n;
    assert q * n <= x;
    assert (q - 0xFFFF) * n == q * n - 0xFFFF * n;
  }

  /** The bottom-right cell's window is the cell alone, so its mean is the cell itself, which motion copies. */
  lemma CornerIsCopy(dim: nat, s: seq<Pixel>)
    requires |s| == dim * dim && dim >= 1
    ensures Ridx(dim - 1, dim - 1, dim) < |s| && Combo(dim, s, dim - 1, dim - 1) == s[Ridx(dim - 1, dim - 1, dim)]
  {
    var c := dim - 1;
    assert Height(dim, c) == 1 && Neighbours(dim, c, c) == 1;
    var q := s[Ridx(c, c, dim)];
    assert RowSum(s, Ridx(c, c, dim), 0) == Zero;
    assert Row(dim, s, c, c, 1) == Plus(Zero, q);
    assert BoxSum(dim, s, c, c, 1, 1) == Sums(q.red, q.green, q.blue);
  }

  // ---------------------------------------------------------------------------
  // A picture of one colour is left as it is
  // ---------------------------------------------------------------------------

  /** n pixels of colour p sum to n times each channel. */
  lemma {:induction false} RowSumUniform(s: seq<Pixel>, start: int, n: nat, p: Pixel)
    requires 0 <= start && start + n <= |s|
    requires forall k :: 0 <= k < |s| ==> s[k] == p
    ensures RowSum(s, start, n) == Times(n, p)
  {
    if n > 0 {
      RowSumUniform(s, start, n - 1, p);
      assert s[start + n - 1] == p;
      TimesStep(n, p);
    }
  }

  /** Each channel of p multiplied by n. */
  function Times(n: int, p: Pixel): Sums
  {
    Sums(n * p.red, n * p.green, n * p.blue)
  }

  lemma TimesStep(n: int, p: Pixel)
    ensures Times(n, p) == Plus(Times(n - 1, p), p)
  {
    assert n * p.red == (n - 1) * p.red + p.red;
    assert n * p.green == (n - 1) * p.green + p.green;
    assert n * p.blue == (n - 1) * p.blue + p.blue;
  }

  lemma TimesAdd(h: int, w: int, p: Pixel)
    ensures Times(h * w, p) == Add(Times((h - 1) * w, p), Times(w, p))
  {
    assert h * w == (h - 1) * w + w;
    assert h * w * p.red == (h - 1) * w * p.red + w * p.red;
    assert h * w * p.green == (h - 1) * w * p.green + w * p.green;
    assert h * w * p.blue == (h - 1) * w * p.blue + w * p.blue;
  }

  /** An h x w block of colour p sums to h * w times each channel. */
  lemma {:induction false} BoxSumUniform(dim: nat, s: seq<Pixel>, i: nat, j: nat, h: nat, w: nat, p: Pixel)
    requires |s| == dim * dim && i + h <= dim && j + w <= dim
    requires forall k :: 0 <= k < |s| ==> s[k] == p
    ensures BoxSum(dim, s, i, j, h, w) == Times(h * w, p)
  {
    if h > 0 {
      BoxSumUniform(dim, s, i, j, h - 1, w, p);
      RowInside(dim, i + h - 1, j, w);
      RowSumUniform(s, Ridx(i + h - 1, j, dim), w, p);
      TimesAdd(h, w, p);
    }
  }

  /** n equal values average to that value. */
  lemma MeanOfEqual(n: nat, x: nat)
    requires n > 0
    ensures (n * x) / n == x
  {
    RidxParts(n, x, 0);
    assert Ridx(x, 0, n) == n * x;
  }

  /** Blurring a picture of a single colour leaves it unchanged. */
  lemma MotionUniform(dim: nat, s: seq<Pixel>, p: Pixel)
    requires |s| == dim * dim
    requires forall k :: 0 <= k < |s| ==> s[k] == p
    ensures MotionImage(dim, s) == s
  {
    forall k | 0 <= k < dim * dim
      ensures MotionImage(dim, s)[k] == p
    {
      RidxOf(dim, k);
      var i: nat, j: nat := k / dim, k % dim;
      var h, w := Height(dim, i), Height(dim, j);
      BoxSumUniform(dim, s, i, j, h, w, p);
      var n := Neighbours(dim, i, j);
      MeanOfEqual(n, p.red);
      MeanOfEqual(n, p.green);
      MeanOfEqual(n, p.blue);
    }
  }
}
