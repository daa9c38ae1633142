/** Row-major addressing of a width x height pixel grid (the `y * width + x`
    arithmetic of Exercise-1/main.cpp), and the range of 2x2 cells the
    triangulation scans.

    `Area` and `Index` are defined row by row, by repeated addition, so that
    proofs about the grid stay in linear arithmetic; `AreaIsProduct` and
    `IndexIsProduct` tie them to the products the source computes. */
module Grid {

  /** Number of pixels of a grid of `height` rows of `width` pixels. */
  function Area(width: nat, height: nat): nat
  {
    if height == 0 then 0 else Area(width, height - 1) + width
  }

  lemma {:induction false} AreaIsProduct(width: nat, height: nat)
    ensures Area(width, height) == width * height
  {
    if height > 0 {
      AreaIsProduct(width, height - 1);
    }
  }

  /** Slot of pixel (row, col) in a row-major array of rows of `width` pixels. */
  function Index(width: nat, row: nat, col: nat): nat
  {
    if row == 0 then col else Index(width, row - 1, col) + width
  }

  lemma {:induction false} IndexIsProduct(width: nat, row: nat, col: nat)
    ensures Index(width, row, col) == row * width + col
  {
    if row > 0 {
      IndexIsProduct(width, row - 1, col);
    }
  }

  /** Within a row, slots are consecutive: pixel `col` is `col` slots after
      the row's first pixel. */
  lemma {:induction false} IndexOffset(width: nat, row: nat, col: nat)
    ensures Index(width, row, col) == Index(width, row, 0) + col
  {
    if row > 0 {
      IndexOffset(width, row - 1, col);
    }
  }

  /** Every pixel of the grid has its slot inside the width*height array. */
  lemma {:induction false} IndexInRange(width: nat, height: nat, row: nat, col: nat)
    requires row < height && col < width
    ensures Index(width, row, col) < Area(width, height)
  {
    if row == 0 {
      AreaAtLeastRow(width, height);
    } else {
      IndexInRange(width, height - 1, row - 1, col);
    }
  }

  lemma AreaAtLeastRow(width: nat, height: nat)
    requires 0 < height
    ensures width <= Area(width, height)
  {
  }

  /** The slot determines the pixel: division and remainder by the width give
      back its row and column. */
  lemma IndexDivMod(width: nat, row: nat, col: nat)
    requires col < width
    ensures Index(width, row, col) / width == row
    ensures Index(width, row, col) % width == col
  {
    IndexIsProduct(width, row, col);
    var i := row * width + col;
    var q, r := i / width, i % width;
    assert q * width + r == i;
    assert (row - q) * width == r - col;
    ZeroFactor(row - q, width);
  }

  /** A multiple of `w` strictly between `-w` and `w` is zero. */
  lemma ZeroFactor(d: int, w: nat)
    requires 0 < w && -(w as int) < d * w < w
    ensures d == 0
  {
    if d > 0 {
      MulMonotone(1, d, w);
      assert false;
    } else if d < 0 {
      assert false;
    }
  }

  lemma MulMonotone(a: nat, b: nat, k: nat)
    requires a <= b
    ensures a * k <= b * k
  {
  }

  /** Two different pixels never share a slot. */
  lemma IndexInjective(width: nat, row: nat, col: nat, row': nat, col': nat)
    requires col < width && col' < width
    requires Index(width, row, col) == Index(width, row', col')
    ensures row == row' && col == col'
  {
    IndexDivMod(width, row, col);
    IndexDivMod(width, row', col');
  }

  /** Every slot of the array is the slot of one pixel of the grid: the pixel
      in row `i / width` and column `i % width`. */
  lemma SlotPixel(width: nat, height: nat, i: nat)
    requires i < Area(width, height)
    ensures 0 < width && i % width < width && i / width < height
    ensures Index(width, i / width, i % width) == i
  {
    AreaIsProduct(width, height);
    if width == 0 {
      assert false;
    }
    var row, col := i / width, i % width;
    assert row * width + col == i;
    IndexIsProduct(width, row, col);
    if row >= height {
      MulMonotone(height, row, width);
      assert false;
    }
  }

  /** Number of cell rows (resp. columns) the scan visits for a dimension of
      `n` pixels: the cells start at positions 0 .. n-2. */
  function CellSpan(n: nat): nat
  {
    if n == 0 then 0 else n - 1
  }

  /** The corners of a scanned cell are slots of the array, the second pixel
      of a row follows the first, and the next row starts after it. */
  lemma CellCornersInRange(width: nat, height: nat, row: nat, col: nat)
    requires row < CellSpan(height) && col < CellSpan(width)
    ensures Index(width, row, col + 1) == Index(width, row, col) + 1
    ensures Index(width, row + 1, col + 1) == Index(width, row + 1, col) + 1
    ensures Index(width, row + 1, col) == Index(width, row, col) + width
    ensures Index(width, row, col) < Index(width, row, col + 1) < Index(width, row + 1, col)
    ensures Index(width, row + 1, col) < Index(width, row + 1, col + 1) < Area(width, height)
  {
    IndexOffset(width, row, col);
    IndexOffset(width, row, col + 1);
    IndexOffset(width, row + 1, col);
    IndexOffset(width, row + 1, col + 1);
    IndexInRange(width, height, row + 1, col + 1);
  }
}
