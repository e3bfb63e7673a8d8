/// The motion kernel of Performance/kernels.c.  naive_motion writes every
/// cell with weighted_combo, whose loops test each cell of the 3 x 3 window
/// for being inside the image; motion splits the image into the interior,
/// where every window is whole (weighted_combo_3_3), and the last two rows
/// and columns, where it calls a helper for each fixed clipped shape.  Both
/// are proved to produce MotionImage.
module KernelMotion {
  import opened KernelImage
  import opened KernelWindow

  /** weighted_combo: sums the in-bounds cells of the window at (i, j), counting them, and divides. */
  method WeightedCombo(dim: nat, i: nat, j: nat, src: array<Pixel>) returns (p: Pixel)
    requires src.Length == dim * dim && i < dim && j < dim
    ensures p == Combo(dim, src[..], i, j)
  {
    ghost var s, h, w := src[..], Height(dim, i), Height(dim, j);
    var red, green, blue := 0, 0, 0;
    var neighbours := 0;
    ghost var rows := 0;
    var ii := 0;
    while ii < 3
      invariant 0 <= ii <= 3 && rows == Min(ii, h)
      invariant Sums(red, green, blue) == BoxSum(dim, s, i, j, rows, w) && neighbours == rows * w
    {
      red, green, blue, neighbours := WindowRow(dim, i, j, ii, src, red, green, blue, neighbours);
      if ii < h {
        BoxStep(dim, s, i, j, rows, w);
        MulStep(rows, w);
        rows := rows + 1;
      }
      ii := ii + 1;
    }
    assert rows == h;
    assert neighbours == Neighbours(dim, i, j);
    p := Average(Sums(red, green, blue), neighbours);
  }

  /** The inner loop of weighted_combo: row i + ii of the window, cell by cell, the cells past the image skipped. */
  method WindowRow(dim: nat, i: nat, j: nat, ii: nat, src: array<Pixel>, red: int, green: int, blue: int,
                   neighbours: int) returns (red': int, green': int, blue': int, neighbours': int)
    requires src.Length == dim * dim && j < dim
    ensures i + ii < dim ==>
      Sums(red', green', blue') == Add(Sums(red, green, blue), Row(dim, src[..], i + ii, j, Height(dim, j))) &&
      neighbours' == neighbours + Height(dim, j)
    ensures dim <= i + ii ==> Sums(red', green', blue') == Sums(red, green, blue) && neighbours' == neighbours
  {
    ghost var s, w := src[..], Height(dim, j);
    red', green', blue', neighbours' := red, green, blue, neighbours;
    if i + ii < dim {
      RowEmpty(dim, s, i + ii, j);
    }
    var jj := 0;
    while jj < 3
      invariant 0 <= jj <= 3
      invariant i + ii < dim ==>
        Sums(red', green', blue') == Add(Sums(red, green, blue), Row(dim, s, i + ii, j, Min(jj, w))) &&
        neighbours' == neighbours + Min(jj, w)
      invariant dim <= i + ii ==> Sums(red', green', blue') == Sums(red, green, blue) && neighbours' == neighbours
    {
      if i + ii < dim && j + jj < dim {
        RowStep(dim, s, i + ii, j, jj);
        neighbours' := neighbours' + 1;
        red' := red' + src[Ridx(i + ii, j + jj, dim)].red;
        green' := green' + src[Ridx(i + ii, j + jj, dim)].green;
        blue' := blue' + src[Ridx(i + ii, j + jj, dim)].blue;
      }
      jj := jj + 1;
    }
  }

  /** naive_motion: every cell, row by row, gets weighted_combo of its window. */
  method NaiveMotion(dim: nat, src: array<Pixel>, dst: array<Pixel>)
    requires src.Length == dim * dim && dst.Length == dim * dim && src != dst
    modifies dst
    ensures dst[..] == MotionImage(dim, src[..])
  {
    ghost var s := src[..];
    var i := 0;
    while i < dim
      invariant 0 <= i <= dim
      invariant forall r: nat, c: nat :: r < i && c < dim ==> dst[Ridx(r, c, dim)] == Combo(dim, s, r, c)
    {
      var j := 0;
      while j < dim
        invariant 0 <= j <= dim
        invariant forall r: nat, c: nat :: r < dim && c < dim && (r < i || (r == i && c < j)) ==>
          dst[Ridx(r, c, dim)] == Combo(dim, s, r, c)
      {
        RidxApart(dim, i, j);
        var p := WeightedCombo(dim, i, j, src);
        dst[Ridx(i, j, dim)] := p;
        j := j + 1;
      }
      i := i + 1;
    }
    MotionFromCells(dim, dst[..], s);
  }

  /** weighted_combo_3_3: the nine cells of a whole window, added one by one, divided by 9. */
  function WeightedCombo3x3(dim: nat, i: nat, j: nat, src: seq<Pixel>): (p: Pixel)
    requires |src| == dim * dim && i + 3 <= dim && j + 3 <= dim
    ensures p == Combo(dim, src, i, j)
  {
    WholeWindow(dim, src, i, j);
    var ij := Ridx(i, j, dim);
    var ij1 := ij + 1;
    var ij2 := ij1 + 1;
    var i1j := Ridx(i + 1, j, dim);
    var i1j1 := i1j + 1;
    var i1j2 := i1j1 + 1;
    var i2j := Ridx(i + 2, j, dim);
    var i2j1 := i2j + 1;
    var i2j2 := i2j1 + 1;
    var top := Plus(Plus(Plus(Zero, src[ij]), src[ij1]), src[ij2]);
    var middle := Plus(Plus(Plus(top, src[i1j]), src[i1j1]), src[i1j2]);
    var t := Plus(Plus(Plus(middle, src[i2j]), src[i2j1]), src[i2j2]);
    assert t == Three(Three(Three(Zero, src, ij), src, i1j), src, i2j);
    Pixel(Short(t.red / 9), Short(t.green / 9), Short(t.blue / 9))
  }

  /** The sums of three consecutive cells from flat index a, left to right. */
  function Three(t: Sums, s: seq<Pixel>, a: int): Sums
    requires 0 <= a && a + 3 <= |s|
  {
    Plus(Plus(Plus(t, s[a]), s[a + 1]), s[a + 2])
  }

  /** The mean of a whole window is weighted_combo_3_3's nine cells divided by 9. */
  lemma WholeWindow(dim: nat, s: seq<Pixel>, i: nat, j: nat)
    requires |s| == dim * dim && i + 3 <= dim && j + 3 <= dim
    ensures 0 <= Ridx(i, j, dim) && Ridx(i, j, dim) + 3 <= Ridx(i + 1, j, dim)
    ensures Ridx(i + 1, j, dim) + 3 <= Ridx(i + 2, j, dim) && Ridx(i + 2, j, dim) + 3 <= |s|
    ensures Combo(dim, s, i, j)
      == Average(Three(Three(Three(Zero, s, Ridx(i, j, dim)), s, Ridx(i + 1, j, dim)), s, Ridx(i + 2, j, dim)), 9)
  {
    assert Height(dim, i) == 3 && Height(dim, j) == 3;
    WindowRows(dim, s, i, j);
  }

  /** A whole window is its three rows of three cells, each row its cells left to right. */
  lemma WindowRows(dim: nat, s: seq<Pixel>, i: nat, j: nat)
    requires |s| == dim * dim && i + 3 <= dim && j + 3 <= dim
    ensures 0 <= Ridx(i, j, dim) && Ridx(i, j, dim) + 3 <= Ridx(i + 1, j, dim)
    ensures Ridx(i + 1, j, dim) + 3 <= Ridx(i + 2, j, dim) && Ridx(i + 2, j, dim) + 3 <= |s|
    ensures BoxSum(dim, s, i, j, 3, 3)
      == Three(Three(Three(Zero, s, Ridx(i, j, dim)), s, Ridx(i + 1, j, dim)), s, Ridx(i + 2, j, dim))
  {
    RowInside(dim, i, j, 3);
    RowInside(dim, i + 1, j, 3);
    RowInside(dim, i + 2, j, 3);
    var a, b, c := Ridx(i, j, dim), Ridx(i + 1, j, dim), Ridx(i + 2, j, dim);
    ThreeCells(dim, s, i, j);
    ThreeCells(dim, s, i + 1, j);
    ThreeCells(dim, s, i + 2, j);
    BoxStep(dim, s, i, j, 0, 3);
    AddThree(Zero, s, a);
    assert BoxSum(dim, s, i, j, 1, 3) == Three(Zero, s, a);
    BoxStep(dim, s, i, j, 1, 3);
    AddThree(Three(Zero, s, a), s, b);
    assert BoxSum(dim, s, i, j, 2, 3) == Three(Three(Zero, s, a), s, b);
    BoxStep(dim, s, i, j, 2, 3);
    AddThree(Three(Three(Zero, s, a), s, b), s, c);
  }

  lemma AddThree(t: Sums, s: seq<Pixel>, a: int)
    requires 0 <= a && a + 3 <= |s|
    ensures Add(t, Three(Zero, s, a)) == Three(t, s, a)
  {
  }

  /** Three cells of a row, left to right. */
  lemma ThreeCells(dim: nat, s: seq<Pixel>, r: nat, j: nat)
    requires |s| == dim * dim && r < dim && j + 3 <= dim
    ensures Ridx(r, j, dim) + 3 <= |s|
    ensures Row(dim, s, r, j, 3) == Three(Zero, s, Ridx(r, j, dim))
  {
    RowInside(dim, r, j, 3);
    RowEmpty(dim, s, r, j);
    RowStep(dim, s, r, j, 0);
    RowStep(dim, s, r, j, 1);
    RowStep(dim, s, r, j, 2);
  }

  /** The h x w block at (i, j), row by row and left to right, as the fixed-shape helpers' nested loops add it. */
  method BlockLoop(dim: nat, i: nat, j: nat, h: nat, w: nat, src: array<Pixel>) returns (red: int, green: int, blue: int)
    requires src.Length == dim * dim && i + h <= dim && j + w <= dim
    ensures Sums(red, green, blue) == BoxSum(dim, src[..], i, j, h, w)
  {
    red, green, blue := 0, 0, 0;
    var k := 0;
    while k < h
      invariant 0 <= k <= h
      invariant Sums(red, green, blue) == BoxSum(dim, src[..], i, j, k, w)
    {
      var ii := k + i;
      var m := 0;
      while m < w
        invariant 0 <= m <= w
        invariant Sums(red, green, blue) == Add(BoxSum(dim, src[..], i, j, k, w), Row(dim, src[..], ii, j, m))
      {
        var source := src[Ridx(ii, m + j, dim)];
        red := red + source.red;
        green := green + source.green;
        blue := blue + source.blue;
        m := m + 1;
      }
      k := k + 1;
    }
  }

  /** weighted_combo_3_2: three rows of two cells, divided by 6; at the next-to-last column it is weighted_combo. */
  method WeightedCombo3x2(dim: nat, i: nat, j: nat, src: array<Pixel>) returns (p: Pixel)
    requires src.Length == dim * dim && i + 3 <= dim && j + 2 <= dim
    ensures p == Average(BoxSum(dim, src[..], i, j, 3, 2), 6)
    ensures j + 2 == dim ==> p == Combo(dim, src[..], i, j)
  {
    var red, green, blue := BlockLoop(dim, i, j, 3, 2, src);
    p := Pixel(Short(red / 6), Short(green / 6), Short(blue / 6));
  }

  /** weighted_combo_2_3: two rows of three cells, divided by 6; at the next-to-last row it is weighted_combo. */
  method WeightedCombo2x3(dim: nat, i: nat, j: nat, src: array<Pixel>) returns (p: Pixel)
    requires src.Length == dim * dim && i + 2 <= dim && j + 3 <= dim
    ensures p == Average(BoxSum(dim, src[..], i, j, 2, 3), 6)
    ensures i + 2 == dim ==> p == Combo(dim, src[..], i, j)
  {
    var red, green, blue := BlockLoop(dim, i, j, 2, 3, src);
    p := Pixel(Short(red / 6), Short(green / 6), Short(blue / 6));
  }

  /** weighted_combo_2_2: two rows of two cells, divided by 4; at (dim-2, dim-2) it is weighted_combo. */
  method WeightedCombo2x2(dim: nat, i: nat, j: nat, src: array<Pixel>) returns (p: Pixel)
    requires src.Length == dim * dim && i + 2 <= dim && j + 2 <= dim
    ensures p == Average(BoxSum(dim, src[..], i, j, 2, 2), 4)
    ensures i + 2 == dim && j + 2 == dim ==> p == Combo(dim, src[..], i, j)
  {
    var red, green, blue := BlockLoop(dim, i, j, 2, 2, src);
    p := Pixel(Short(red / 4), Short(green / 4), Short(blue / 4));
  }

  /** The cells of row i from column j to the end of the row, as weighted_combo_1_2 and weighted_combo_1_3 add
    * them (`for (j; j < end; j++)`). */
  method RowLoop(dim: nat, i: nat, j: nat, end: nat, src: array<Pixel>) returns (red: int, green: int, blue: int)
    requires src.Length == dim * dim && i < dim && j <= end <= dim
    ensures Sums(red, green, blue) == Row(dim, src[..], i, j, end - j)
  {
    red, green, blue := 0, 0, 0;
    var jj := j;
    while jj < end
      invariant j <= jj <= end
      invariant Sums(red, green, blue) == Row(dim, src[..], i, j, jj - j)
    {
      var srcPixel := src[Ridx(i, jj, dim)];
      red := red + srcPixel.red;
      green := green + srcPixel.green;
      blue := blue + srcPixel.blue;
      jj := jj + 1;
    }
  }

  /** The cells of column j from row i to row end - 1, as weighted_combo_2_1 and weighted_combo_3_1 add them
    * (`for (i; i < end; i++)`). */
  method ColumnLoop(dim: nat, i: nat, j: nat, end: nat, src: array<Pixel>) returns (red: int, green: int, blue: int)
    requires src.Length == dim * dim && i <= end <= dim && j < dim
    ensures Sums(red, green, blue) == BoxSum(dim, src[..], i, j, end - i, 1)
  {
    red, green, blue := 0, 0, 0;
    var ii := i;
    while ii < end
      invariant i <= ii <= end
      invariant Sums(red, green, blue) == BoxSum(dim, src[..], i, j, ii - i, 1)
    {
      var srcPixel := src[Ridx(ii, j, dim)];
      assert RowSum(src[..], Ridx(ii, j, dim), 0) == Zero;
      red := red + srcPixel.red;
      green := green + srcPixel.green;
      blue := blue + srcPixel.blue;
      ii := ii + 1;
    }
  }

  /** weighted_combo_1_2: the cells of row i from column j to the end of the row, divided by 2 however many there
    * are; at (dim-1, dim-2) there are two and it is weighted_combo. */
  method WeightedCombo1x2(dim: nat, i: nat, j: nat, src: array<Pixel>) returns (p: Pixel)
    requires src.Length == dim * dim && i < dim && j <= dim
    ensures p == Average(BoxSum(dim, src[..], i, j, 1, dim - j), 2)
    ensures i + 1 == dim && j + 2 == dim ==> p == Combo(dim, src[..], i, j)
  {
    var red, green, blue := RowLoop(dim, i, j, dim, src);
    p := Pixel(Short(red / 2), Short(green / 2), Short(blue / 2));
  }

  /** weighted_combo_2_1: the cells of column j from row i to the last row, divided by 2 however many there are;
    * at (dim-2, dim-1) there are two and it is weighted_combo. */
  method WeightedCombo2x1(dim: nat, i: nat, j: nat, src: array<Pixel>) returns (p: Pixel)
    requires src.Length == dim * dim && i <= dim && j < dim
    ensures p == Average(BoxSum(dim, src[..], i, j, dim - i, 1), 2)
    ensures i + 2 == dim && j + 1 == dim ==> p == Combo(dim, src[..], i, j)
  {
    var red, green, blue := ColumnLoop(dim, i, j, dim, src);
    p := Pixel(Short(red / 2), Short(green / 2), Short(blue / 2));
  }

  /** weighted_combo_1_3: three cells of row i, divided by 3; in the last row it is weighted_combo. */
  method WeightedCombo1x3(dim: nat, i: nat, j: nat, src: array<Pixel>) returns (p: Pixel)
    requires src.Length == dim * dim && i < dim && j + 3 <= dim
    ensures p == Average(BoxSum(dim, src[..], i, j, 1, 3), 3)
    ensures i + 1 == dim ==> p == Combo(dim, src[..], i, j)
  {
    var red, green, blue := RowLoop(dim, i, j, j + 3, src);
    p := Pixel(Short(red / 3), Short(green / 3), Short(blue / 3));
  }

  /** weighted_combo_3_1: three cells of column j, divided by 3; in the last column it is weighted_combo. */
  method WeightedCombo3x1(dim: nat, i: nat, j: nat, src: array<Pixel>) returns (p: Pixel)
    requires src.Length == dim * dim && i + 3 <= dim && j < dim
    ensures p == Average(BoxSum(dim, src[..], i, j, 3, 1), 3)
    ensures j + 1 == dim ==> p == Combo(dim, src[..], i, j)
  {
    var red, green, blue := ColumnLoop(dim, i, j, i + 3, src);
    p := Pixel(Short(red / 3), Short(green / 3), Short(blue / 3));
  }

  /** The parts of the image motion fills one after another. */
  datatype Part = WholeWindows | SecondLastRow | SecondLastColumn | BottomRow | RightColumn | BottomRightCorner

  /** Cell (r, c) belongs to part. */
  predicate In(dim: nat, part: Part, r: int, c: int)
  {
    match part
    case WholeWindows => r < dim - 2 && c < dim - 2
    case SecondLastRow => r == dim - 2 && c < dim - 2
    case SecondLastColumn => c == dim - 2 && r < dim - 2
    case BottomRow => r == dim - 1 && c < dim - 2
    case RightColumn => c == dim - 1 && r < dim - 2
    case BottomRightCorner => dim - 2 <= r && dim - 2 <= c
  }

  /** The image d with the cells of part taken from m. */
  function Overlay(dim: nat, d: seq<Pixel>, m: seq<Pixel>, part: Part): (e: seq<Pixel>)
    requires |d| == dim * dim && |m| == dim * dim
    ensures |e| == dim * dim
  {
    seq(dim * dim, k requires 0 <= k < dim * dim => if In(dim, part, k / dim, k % dim) then m[k] else d[k])
  }

  /** An image that holds m on the cells of part and d elsewhere is Overlay(dim, d, m, part). */
  lemma OverlayFromCells(dim: nat, e: seq<Pixel>, d: seq<Pixel>, m: seq<Pixel>, part: Part)
    requires |e| == dim * dim && |d| == dim * dim && |m| == dim * dim
    requires forall r: nat, c: nat :: r < dim && c < dim ==>
      e[Ridx(r, c, dim)] == if In(dim, part, r, c) then m[Ridx(r, c, dim)] else d[Ridx(r, c, dim)]
    ensures e == Overlay(dim, d, m, part)
  {
    forall k | 0 <= k < dim * dim
      ensures e[k] == Overlay(dim, d, m, part)[k]
    {
      RidxOf(dim, k);
      var r: nat, c: nat := k / dim, k % dim;
      assert e[Ridx(r, c, dim)] == if In(dim, part, r, c) then m[Ridx(r, c, dim)] else d[Ridx(r, c, dim)];
    }
  }

  /** The six parts, in motion's order, cover the image: overlaying them all leaves nothing of d. */
  lemma PartsCover(dim: nat, d: seq<Pixel>, m: seq<Pixel>)
    requires dim >= 2 && |d| == dim * dim && |m| == dim * dim
    ensures Overlay(dim, Overlay(dim, Overlay(dim, Overlay(dim, Overlay(dim, Overlay(dim, d, m, WholeWindows), m,
      SecondLastRow), m, SecondLastColumn), m, BottomRow), m, RightColumn), m, BottomRightCorner) == m
  {
  }

  /** motion: the interior with weighted_combo_3_3, then the edge strips and the bottom-right 2 x 2 corner with the
    * fixed-shape helpers, and the last cell copied. */
  method Motion(dim: nat, src: array<Pixel>, dst: array<Pixel>)
    requires dim >= 2 && src.Length == dim * dim && dst.Length == dim * dim && src != dst
    modifies dst
    ensures dst[..] == MotionImage(dim, src[..])
  {
    ghost var s, d := src[..], dst[..];
    ghost var m := MotionImage(dim, s);
    Interior(dim, src, dst, s, m);
    NextToLastRow(dim, src, dst, s, m);
    NextToLastColumn(dim, src, dst, s, m);
    LastRow(dim, src, dst, s, m);
    LastColumn(dim, src, dst, s, m);
    Corner(dim, src, dst, s, m);
    PartsCover(dim, d, m);
  }

  /** motion's first loops: every cell whose window is whole, row by row, with weighted_combo_3_3. */
  method Interior(dim: nat, src: array<Pixel>, dst: array<Pixel>, ghost s: seq<Pixel>, ghost m: seq<Pixel>)
    requires dim >= 2 && src.Length == dim * dim && dst.Length == dim * dim && src != dst && src[..] == s
    requires m == MotionImage(dim, s)
    modifies dst
    ensures dst[..] == Overlay(dim, old(dst[..]), m, WholeWindows)
  {
    var dim2 := dim - 2;
    var i := 0;
    while i < dim2
      invariant 0 <= i <= dim2
      invariant forall r: nat, c: nat :: r < dim && c < dim ==>
        dst[Ridx(r, c, dim)] == if r < i && c < dim2 then m[Ridx(r, c, dim)] else old(dst[Ridx(r, c, dim)])
    {
      var j := 0;
      while j < dim2
        invariant 0 <= j <= dim2
        invariant forall r: nat, c: nat :: r < dim && c < dim ==>
          dst[Ridx(r, c, dim)] == if c < dim2 && (r < i || (r == i && c < j)) then m[Ridx(r, c, dim)]
                                  else old(dst[Ridx(r, c, dim)])
      {
        RidxApart(dim, i, j);
        MotionImageAt(dim, s, i, j);
        dst[Ridx(i, j, dim)] := WeightedCombo3x3(dim, i, j, src[..]);
        j := j + 1;
      }
      i := i + 1;
    }
    OverlayFromCells(dim, dst[..], old(dst[..]), m, WholeWindows);
  }

  /** motion's loop over the next-to-last row, with weighted_combo_2_3. */
  method NextToLastRow(dim: nat, src: array<Pixel>, dst: array<Pixel>, ghost s: seq<Pixel>, ghost m: seq<Pixel>)
    requires dim >= 2 && src.Length == dim * dim && dst.Length == dim * dim && src != dst && src[..] == s
    requires m == MotionImage(dim, s)
    modifies dst
    ensures dst[..] == Overlay(dim, old(dst[..]), m, SecondLastRow)
  {
    var dim2 := dim - 2;
    var j := 0;
    while j < dim2
      invariant 0 <= j <= dim2
      invariant forall r: nat, c: nat :: r < dim && c < dim ==>
        dst[Ridx(r, c, dim)] == if r == dim2 && c < j then m[Ridx(r, c, dim)] else old(dst[Ridx(r, c, dim)])
    {
      RidxApart(dim, dim2, j);
      MotionImageAt(dim, s, dim2, j);
      var p := WeightedCombo2x3(dim, dim2, j, src);
      dst[Ridx(dim2, j, dim)] := p;
      j := j + 1;
    }
    OverlayFromCells(dim, dst[..], old(dst[..]), m, SecondLastRow);
  }

  /** motion's loop over the next-to-last column, with weighted_combo_3_2. */
  method NextToLastColumn(dim: nat, src: array<Pixel>, dst: array<Pixel>, ghost s: seq<Pixel>, ghost m: seq<Pixel>)
    requires dim >= 2 && src.Length == dim * dim && dst.Length == dim * dim && src != dst && src[..] == s
    requires m == MotionImage(dim, s)
    modifies dst
    ensures dst[..] == Overlay(dim, old(dst[..]), m, SecondLastColumn)
  {
    var dim2 := dim - 2;
    var i := 0;
    while i < dim2
      invariant 0 <= i <= dim2
      invariant forall r: nat, c: nat :: r < dim && c < dim ==>
        dst[Ridx(r, c, dim)] == if c == dim2 && r < i then m[Ridx(r, c, dim)] else old(dst[Ridx(r, c, dim)])
    {
      RidxApart(dim, i, dim2);
      MotionImageAt(dim, s, i, dim2);
      var p := WeightedCombo3x2(dim, i, dim2, src);
      dst[Ridx(i, dim2, dim)] := p;
      i := i + 1;
    }
    OverlayFromCells(dim, dst[..], old(dst[..]), m, SecondLastColumn);
  }

  /** motion's loop over the last row, with weighted_combo_1_3. */
  method LastRow(dim: nat, src: array<Pixel>, dst: array<Pixel>, ghost s: seq<Pixel>, ghost m: seq<Pixel>)
    requires dim >= 2 && src.Length == dim * dim && dst.Length == dim * dim && src != dst && src[..] == s
    requires m == MotionImage(dim, s)
    modifies dst
    ensures dst[..] == Overlay(dim, old(dst[..]), m, BottomRow)
  {
    var dim1, dim2 := dim - 1, dim - 2;
    var j := 0;
    while j < dim2
      invariant 0 <= j <= dim2
      invariant forall r: nat, c: nat :: r < dim && c < dim ==>
        dst[Ridx(r, c, dim)] == if r == dim1 && c < j then m[Ridx(r, c, dim)] else old(dst[Ridx(r, c, dim)])
    {
      RidxApart(dim, dim1, j);
      MotionImageAt(dim, s, dim1, j);
      var p := WeightedCombo1x3(dim, dim1, j, src);
      dst[Ridx(dim1, j, dim)] := p;
      j := j + 1;
    }
    OverlayFromCells(dim, dst[..], old(dst[..]), m, BottomRow);
  }

  /** motion's loop over the last column, with weighted_combo_3_1. */
  method LastColumn(dim: nat, src: array<Pixel>, dst: array<Pixel>, ghost s: seq<Pixel>, ghost m: seq<Pixel>)
    requires dim >= 2 && src.Length == dim * dim && dst.Length == dim * dim && src != dst && src[..] == s
    requires m == MotionImage(dim, s)
    modifies dst
    ensures dst[..] == Overlay(dim, old(dst[..]), m, RightColumn)
  {
    var dim1, dim2 := dim - 1, dim - 2;
    var i := 0;
    while i < dim2
      invariant 0 <= i <= dim2
      invariant forall r: nat, c: nat :: r < dim && c < dim ==>
        dst[Ridx(r, c, dim)] == if c == dim1 && r < i then m[Ridx(r, c, dim)] else old(dst[Ridx(r, c, dim)])
    {
      RidxApart(dim, i, dim1);
      MotionImageAt(dim, s, i, dim1);
      var p := WeightedCombo3x1(dim, i, dim1, src);
      dst[Ridx(i, dim1, dim)] := p;
      i := i + 1;
    }
    OverlayFromCells(dim, dst[..], old(dst[..]), m, RightColumn);
  }

  /** motion's last four statements: the bottom-right 2 x 2 cells with weighted_combo_2_2, weighted_combo_1_2,
    * weighted_combo_2_1 and a copy of the last pixel. */
  method Corner(dim: nat, src: array<Pixel>, dst: array<Pixel>, ghost s: seq<Pixel>, ghost m: seq<Pixel>)
    requires dim >= 2 && src.Length == dim * dim && dst.Length == dim * dim && src != dst && src[..] == s
    requires m == MotionImage(dim, s)
    modifies dst
    ensures dst[..] == Overlay(dim, old(dst[..]), m, BottomRightCorner)
  {
    var dim1, dim2 := dim - 1, dim - 2;
    RidxApart(dim, dim2, dim2);
    MotionImageAt(dim, s, dim2, dim2);
    RidxApart(dim, dim1, dim2);
    MotionImageAt(dim, s, dim1, dim2);
    RidxApart(dim, dim2, dim1);
    MotionImageAt(dim, s, dim2, dim1);
    RidxApart(dim, dim1, dim1);
    MotionImageAt(dim, s, dim1, dim1);
    CornerIsCopy(dim, s);
    var p := WeightedCombo2x2(dim, dim2, dim2, src);
    dst[Ridx(dim2, dim2, dim)] := p;
    p := WeightedCombo1x2(dim, dim1, dim2, src);
    dst[Ridx(dim1, dim2, dim)] := p;
    p := WeightedCombo2x1(dim, dim2, dim1, src);
    dst[Ridx(dim2, dim1, dim)] := p;
    dst[Ridx(dim1, dim1, dim)] := src[Ridx(dim1, dim1, dim)];
    OverlayFromCells(dim, dst[..], old(dst[..]), m, BottomRightCorner);
  }
}
