/// The complex kernel of Performance/kernels.c: every pixel of the source
/// image becomes grey (the mean of its three channels) and lands at the
/// position mirrored through the anti-diagonal, so source cell (i, j) is
/// written to destination cell (dim-1-j, dim-1-i).  naive_complex walks the
/// source row by row; complex walks it in dim/16 x dim/16 blocks; both are
/// proved to produce ComplexImage.
module KernelComplex {
  import opened KernelImage

  /** The grey level of p, `(red + green + blue) / 3`; it always fits in an `unsigned short`. */
  function Grey(p: Pixel): (g: Channel)
    ensures 3 * g <= p.red + p.green + p.blue < 3 * g + 3
  {
    (p.red + p.green + p.blue) / 3
  }

  /** The pixel whose three channels are the grey level of p. */
  function GreyPixel(p: Pixel): Pixel
  {
    var g := Grey(p);
    Pixel(g, g, g)
  }

  /** The destination index the kernels write for source cell (r, c): `RIDX(dim-1-c, dim-1-r, dim)`. */
  function Target(dim: nat, r: int, c: int): (t: int)
    requires 0 <= r < dim && 0 <= c < dim
    ensures 0 <= t < dim * dim
  {
    Ridx(dim - 1 - c, dim - 1 - r, dim)
  }

  /** The source index whose grey pixel belongs at destination index d. */
  function Source(dim: nat, d: int): (k: int)
    requires 0 <= d < dim * dim
    ensures 0 <= k < dim * dim
  {
    RidxOf(dim, d);
    Ridx(dim - 1 - d % dim, dim - 1 - d / dim, dim)
  }

  /** The image both complex kernels produce from s. */
  function ComplexImage(dim: nat, s: seq<Pixel>): (d: seq<Pixel>)
    requires |s| == dim * dim
    ensures |d| == dim * dim
  {
    seq(dim * dim, k requires 0 <= k < dim * dim => GreyPixel(s[Source(dim, k)]))
  }

  /** Target and Source are inverse: the destination cell of source cell (r, c) takes its pixel from (r, c). */
  lemma SourceOfTarget(dim: nat, r: int, c: int)
    requires 0 <= r < dim && 0 <= c < dim
    ensures Source(dim, Target(dim, r, c)) == Ridx(r, c, dim)
  {
    RidxParts(dim, dim - 1 - c, dim - 1 - r);
  }

  /** naive_complex's assignment: destination cell (dim-1-j, dim-1-i) holds the grey of source cell (i, j) in
    * all three channels. */
  lemma ComplexImageAt(dim: nat, s: seq<Pixel>, i: int, j: int)
    requires |s| == dim * dim && 0 <= i < dim && 0 <= j < dim
    ensures Ridx(dim - j - 1, dim - i - 1, dim) < |s|
    ensures var p := ComplexImage(dim, s)[Ridx(dim - j - 1, dim - i - 1, dim)];
      p.red == p.green == p.blue == (s[Ridx(i, j, dim)].red + s[Ridx(i, j, dim)].green + s[Ridx(i, j, dim)].blue) / 3
  {
    SourceOfTarget(dim, i, j);
  }

  /** Different source cells go to different destination cells. */
  lemma TargetApart(dim: nat, a: int, b: int)
    requires 0 <= a < dim && 0 <= b < dim
    ensures forall r, c :: 0 <= r < dim && 0 <= c < dim && (r != a || c != b) ==> Target(dim, r, c) != Target(dim, a, b)
  {
    forall r, c | 0 <= r < dim && 0 <= c < dim && (r != a || c != b)
      ensures Target(dim, r, c) != Target(dim, a, b)
    {
      SourceOfTarget(dim, r, c);
      SourceOfTarget(dim, a, b);
      RidxParts(dim, r, c);
      RidxParts(dim, a, b);
    }
  }

  /** An image in which the destination cell of every source cell holds that cell's grey pixel is ComplexImage:
    * the destination cells cover the whole image. */
  lemma {:induction false} ComplexFromCells(dim: nat, d: seq<Pixel>, s: seq<Pixel>)
    requires |d| == dim * dim && |s| == dim * dim
    requires forall r, c :: 0 <= r < dim && 0 <= c < dim ==> d[Target(dim, r, c)] == GreyPixel(s[Ridx(r, c, dim)])
    ensures d == ComplexImage(dim, s)
  {
    forall k | 0 <= k < dim * dim
      ensures d[k] == ComplexImage(dim, s)[k]
    {
      RidxOf(dim, k);
      var r, c := dim - 1 - k % dim, dim - 1 - k / dim;
      assert Target(dim, r, c) == k;
      SourceOfTarget(dim, r, c);
    }
  }

  /** complex's block side `dim >> 4` fits the image: it is positive and divides dim (or the image is empty).
    * For any other dim the C loops run forever (side 0) or index past the image. */
  predicate Tiles(dim: nat)
  {
    dim == 0 || (dim / 16 > 0 && dim % (dim / 16) == 0)
  }

  /** Every positive multiple of 16, the dimensions the kernels are run on, tiles. */
  lemma SixteenTiles(dim: nat)
    requires dim % 16 == 0
    ensures Tiles(dim)
  {
    if dim > 0 {
      var b := dim / 16;
      assert dim == b * 16;
      assert dim == b * 16 + 0;
      assert dim % b == 0 by {
        MulMod(b, 16);
      }
    }
  }

  lemma MulMod(b: int, n: nat)
    requires b > 0
    ensures (b * n) % b == 0
  {
    var q, r := (b * n) / b, (b * n) % b;
    if q < n {
      MulLess(q, n, b);
    } else if n < q {
      MulLess(n, q, b);
    }
  }

  /** naive_complex: for each source row i and column j, the grey of (i, j) goes to (dim-1-j, dim-1-i). */
  method NaiveComplex(dim: nat, src: array<Pixel>, dest: array<Pixel>)
    requires src.Length == dim * dim && dest.Length == dim * dim && src != dest
    modifies dest
    ensures dest[..] == ComplexImage(dim, src[..])
  {
    var i := 0;
    while i < dim
      invariant 0 <= i <= dim
      invariant forall r, c :: 0 <= r < i && 0 <= c < dim ==> dest[Target(dim, r, c)] == GreyPixel(src[Ridx(r, c, dim)])
    {
      var j := 0;
      while j < dim
        invariant 0 <= j <= dim
        invariant forall r, c :: 0 <= r < dim && 0 <= c < dim && (r < i || (r == i && c < j)) ==>
          dest[Target(dim, r, c)] == GreyPixel(src[Ridx(r, c, dim)])
      {
        TargetApart(dim, i, j);
        var g := Grey(src[Ridx(i, j, dim)]);
        dest[Ridx(dim - j - 1, dim - i - 1, dim)] := Pixel(g, g, g);
        j := j + 1;
      }
      i := i + 1;
    }
    ComplexFromCells(dim, dest[..], src[..]);
  }

  /** complex: the same assignment, loop-blocked in squares of side `dim >> 4`. */
  method Complex(dim: nat, src: array<Pixel>, dest: array<Pixel>)
    requires src.Length == dim * dim && dest.Length == dim * dim && src != dest
    requires Tiles(dim)
    modifies dest
    ensures dest[..] == ComplexImage(dim, src[..])
  {
    var b := dim / 16;
    ghost var blocks := if b == 0 then 0 else dim / b;
    if dim > 0 {
      TileCount(dim);
    }
    var i := 0;
    ghost var bi := 0;
    while i < dim
      invariant 0 <= i <= dim && i == bi * b && bi <= blocks
      invariant forall r, c :: 0 <= r < dim && 0 <= c < i ==> dest[Target(dim, r, c)] == GreyPixel(src[Ridx(r, c, dim)])
    {
      BlockStep(dim, b, bi, blocks);
      MulStep(bi, b);
      Strip(dim, src, dest, i, b, blocks);
      i := i + b;
      bi := bi + 1;
    }
    ComplexFromCells(dim, dest[..], src[..]);
  }

  /** The second loop of complex: the blocks of the strip of source columns i..i+b-1, top to bottom. */
  method Strip(dim: nat, src: array<Pixel>, dest: array<Pixel>, i: nat, b: nat, ghost blocks: nat)
    requires src.Length == dim * dim && dest.Length == dim * dim && src != dest
    requires i + b <= dim && b > 0 && dim == blocks * b
    modifies dest
    ensures forall r, c :: 0 <= r < dim && 0 <= c < dim ==>
      dest[Target(dim, r, c)] == if i <= c < i + b then GreyPixel(src[Ridx(r, c, dim)]) else old(dest[Target(dim, r, c)])
  {
    var j := 0;
    ghost var bj := 0;
    while j < dim
      invariant 0 <= j <= dim && j == bj * b && bj <= blocks
      invariant forall r, c :: 0 <= r < dim && 0 <= c < dim ==>
        dest[Target(dim, r, c)] == if i <= c < i + b && r < j then GreyPixel(src[Ridx(r, c, dim)])
                                   else old(dest[Target(dim, r, c)])
    {
      BlockStep(dim, b, bj, blocks);
      MulStep(bj, b);
      Block(dim, src, dest, i, j, b);
      j := j + b;
      bj := bj + 1;
    }
  }

  /** The two inner loops of complex: the b x b block of source cells with columns i.. and rows j.. goes to its
    * destination cells, and no other destination cell changes. */
  method Block(dim: nat, src: array<Pixel>, dest: array<Pixel>, i: nat, j: nat, b: nat)
    requires src.Length == dim * dim && dest.Length == dim * dim && src != dest
    requires i + b <= dim && j + b <= dim
    modifies dest
    ensures forall r, c :: 0 <= r < dim && 0 <= c < dim ==>
      dest[Target(dim, r, c)] == if i <= c < i + b && j <= r < j + b then GreyPixel(src[Ridx(r, c, dim)])
                                 else old(dest[Target(dim, r, c)])
  {
    var dim1 := dim - 1;
    var k := i;
    while k < i + b
      invariant i <= k <= i + b
      invariant forall r, c :: 0 <= r < dim && 0 <= c < dim ==>
        dest[Target(dim, r, c)] == if i <= c < k && j <= r < j + b then GreyPixel(src[Ridx(r, c, dim)])
                                   else old(dest[Target(dim, r, c)])
    {
      var dimK := dim1 - k;
      var m := j;
      while m < j + b
        invariant j <= m <= j + b
        invariant forall r, c :: 0 <= r < dim && 0 <= c < dim ==>
          dest[Target(dim, r, c)] == if (i <= c < k && j <= r < j + b) || (c == k && j <= r < m)
                                     then GreyPixel(src[Ridx(r, c, dim)]) else old(dest[Target(dim, r, c)])
      {
        var dimM := dim1 - m;
        var destIndex := Ridx(dimK, dimM, dim);
        var srcIndex := Ridx(m, k, dim);
        TargetApart(dim, m, k);
        var average := Grey(src[srcIndex]);
        dest[destIndex] := Pixel(average, average, average);
        m := m + 1;
      }
      k := k + 1;
    }
  }

  /** The block side of a tiled, non-empty image is positive and divides it `dim / b` times. */
  lemma TileCount(dim: nat)
    requires Tiles(dim) && dim > 0
    ensures dim / 16 > 0 && dim == dim / (dim / 16) * (dim / 16)
  {
  }

  /** A block that starts inside the image ends inside it. */
  lemma BlockStep(dim: nat, b: int, x: int, blocks: int)
    requires b > 0 && dim == blocks * b
    requires 0 <= x * b < dim
    ensures x * b + b <= dim && x + 1 <= blocks
  {
    if x >= blocks {
      MulMono(blocks, x, b);
    } else {
      MulLess(x, blocks, b);
    }
  }
}
