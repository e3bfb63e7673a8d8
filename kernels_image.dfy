/// Pixels and row-major indexing of Performance/kernels.c.  An image of
/// dimension dim is a dim x dim array of pixels; row i, column j sits at
/// RIDX(i, j, dim) = i * dim + j (the macro comes from defs.h, which is not
/// part of this model).
module KernelImage {
  /** An `unsigned short`. */
  type Channel = x: int | 0 <= x < 0x1_0000

  /** pixel: three 16-bit colour channels. */
  datatype Pixel = Pixel(red: Channel, green: Channel, blue: Channel)

  /** The `(unsigned short)` conversion of a C `int`: its value modulo 2^16. */
  function Short(x: int): (r: Channel)
    ensures 0 <= x < 0x1_0000 ==> r == x
    ensures (r - x) % 0x1_0000 == 0
  {
    x % 0x1_0000
  }

  function Min(a: int, b: int): int
  {
    if a < b then a else b
  }

  /** RIDX(i, j, n): the index of row i, column j; a cell of the image indexes into the image. */
  function Ridx(i: int, j: int, n: int): (k: int)
    ensures 0 <= i < n && 0 <= j < n ==> 0 <= k < n * n
  {
    RidxBound(i, j, n);
    i * n + j
  }

  lemma RidxBound(i: int, j: int, n: int)
    ensures 0 <= i < n && 0 <= j < n ==> 0 <= i * n + j < n * n
  {
    if 0 <= i < n && 0 <= j < n {
      MulLess(i, n, n);
      MulMono(0, i, n);
    }
  }

  /** Multiplication by a positive number keeps a strict order apart by at least that number. */
  lemma MulLess(a: int, b: int, n: int)
    requires a < b && n > 0
    ensures a * n + n <= b * n
  {
    MulMono(a + 1, b, n);
  }

  /** Multiplication by a non-negative number is monotonic. */
  lemma MulMono(a: int, b: int, n: int)
    requires a <= b && n >= 0
    ensures a * n <= b * n
  {
    assert b * n - a * n == (b - a) * n;
  }

  /** One more copy of b. */
  lemma MulStep(a: int, b: int)
    ensures (a + 1) * b == a * b + b
  {
  }

  /** The cells of row r from column j on, w of them, lie inside the image. */
  lemma RowInside(dim: nat, r: int, j: int, w: nat)
    requires 0 <= r < dim && 0 <= j && j + w <= dim
    ensures 0 <= Ridx(r, j, dim) && Ridx(r, j, dim) + w <= dim * dim
  {
    MulLess(r, dim, dim);
    MulMono(0, r, dim);
  }

  /** Row and column are recovered from an index: `RIDX(i, j, dim) / dim == i` and `% dim == j`. */
  lemma RidxParts(dim: nat, i: int, j: int)
    requires 0 <= i && 0 <= j < dim
    ensures Ridx(i, j, dim) / dim == i && Ridx(i, j, dim) % dim == j
  {
    var k := Ridx(i, j, dim);
    var q, r := k / dim, k % dim;
    assert q * dim + r == i * dim + j;
    if q < i {
      MulLess(q, i, dim);
    } else if i < q {
      MulLess(i, q, dim);
    }
  }

  /** Every index of the image is the index of exactly the cell (k / dim, k % dim). */
  lemma RidxOf(dim: nat, k: int)
    requires 0 <= k < dim * dim
    ensures 0 <= k / dim < dim && 0 <= k % dim < dim && Ridx(k / dim, k % dim, dim) == k
  {
    if k / dim >= dim {
      MulMono(dim, k / dim, dim);
    }
  }

  /** Two different cells have different indices. */
  lemma RidxApart(dim: nat, a: int, b: int)
    requires 0 <= a < dim && 0 <= b < dim
    ensures forall r, c :: 0 <= r < dim && 0 <= c < dim && (r != a || c != b) ==> Ridx(r, c, dim) != Ridx(a, b, dim)
  {
    forall r, c | 0 <= r < dim && 0 <= c < dim && (r != a || c != b)
      ensures Ridx(r, c, dim) != Ridx(a, b, dim)
    {
      RidxParts(dim, r, c);
      RidxParts(dim, a, b);
    }
  }
}
