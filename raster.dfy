/**
 * The drawing step of `generateQRCode`: a square canvas filled with the light
 * colour, then one dark square of `moduleSize` pixels per dark module of the
 * QR grid. The grid itself comes from the external encoder and is an input.
 */
module Raster {
  import opened Arith

  /** The two fill colours, `#FFFFFF` and `#000000`. */
  datatype Pixel = Light | Dark

  function Colour(dark: bool): Pixel {
    if dark then Dark else Light
  }

  /** The encoder's module matrix: `n` rows of `n` modules, `true` for dark. */
  predicate IsSquareGrid(grid: seq<seq<bool>>) {
    forall i :: 0 <= i < |grid| ==> |grid[i]| == |grid|
  }

  /**
   * `Math.floor((size - 2 * margin) / n)`. Dafny's `/` by a positive divisor is
   * floor division, as `Math.floor` of the quotient. A grid with no modules
   * draws nothing, so its module size is never used; it is 0 here.
   */
  function ModuleSize(size: int, margin: int, n: nat): (ms: int)
    ensures n >= 1 ==> ms * n <= size - 2 * margin < ms * n + n
  {
    if n == 0 then 0
    else
      var ms := (size - 2 * margin) / n;
      DivBracket(size - 2 * margin, n, ms);
      ms
  }

  /** The whole grid fits between the margins: `n * moduleSize <= size - 2 * margin`. */
  lemma GridFits(size: int, margin: int, n: nat)
    requires n >= 1 && 2 * margin <= size
    ensures 0 <= ModuleSize(size, margin, n)
    ensures n * ModuleSize(size, margin, n) <= size - 2 * margin
  {
    var ms := ModuleSize(size, margin, n);
    var span := size - 2 * margin;
    assert span == ms * n + span % n;
  }

  /**
   * Every module square `[margin + k * ms, margin + (k + 1) * ms)` of a row or
   * column index `k < n` lies within `[margin, size - margin]`.
   */
  lemma SquareWithinMargins(size: int, margin: int, n: nat, k: nat)
    requires n >= 1 && 2 * margin <= size && k < n
    ensures margin <= margin + k * ModuleSize(size, margin, n)
    ensures margin + (k + 1) * ModuleSize(size, margin, n) <= size - margin
  {
    var ms := ModuleSize(size, margin, n);
    GridFits(size, margin, n);
    MulMonotone(0, k, ms);
    MulMonotone(k + 1, n, ms);
  }

  /** `lo <= p < lo + w`: coordinate `p` lies in a span of width `w` from `lo`. */
  predicate InSpan(lo: int, w: int, p: int) {
    lo <= p < lo + w
  }

  /** Module `(r, c)` comes before `(row, col)` in the row-major drawing order. */
  predicate Before(r: int, c: int, row: int, col: int) {
    r < row || (r == row && c < col)
  }

  /**
   * Pixel `(x, y)` lies in the square of a dark module drawn before `(row, col)`.
   * With `ms > 0` the only candidate module is the one whose index along each
   * axis is the pixel's offset from the margin divided by `ms`.
   */
  predicate CoveredBefore(grid: seq<seq<bool>>, margin: int, ms: int, x: int, y: int, row: int, col: int)
    requires IsSquareGrid(grid)
  {
    ms > 0 &&
    var r := (y - margin) / ms;
    var c := (x - margin) / ms;
    0 <= r < |grid| && 0 <= c < |grid| && Before(r, c, row, col) && grid[r][c]
  }

  /** The final colour decision for pixel `(x, y)`: after every module is drawn. */
  predicate Painted(grid: seq<seq<bool>>, size: int, margin: int, x: int, y: int)
    requires IsSquareGrid(grid)
  {
    CoveredBefore(grid, margin, ModuleSize(size, margin, |grid|), x, y, |grid|, 0)
  }

  /** One module square on each axis: the offset test and the bracket test agree. */
  lemma ModuleOfPixel(margin: int, ms: int, k: int, p: int)
    requires ms > 0
    ensures (p - margin) / ms == k <==> InSpan(margin + k * ms, ms, p)
  {
    DivBracket(p - margin, ms, k);
  }

  /**
   * The reference reading of the drawing: a pixel is dark exactly when some dark
   * module's square `[margin + col * ms, +ms) x [margin + row * ms, +ms)` contains it.
   */
  lemma PaintedIffInDarkSquare(grid: seq<seq<bool>>, size: int, margin: int, x: int, y: int)
    requires IsSquareGrid(grid)
    ensures var ms := ModuleSize(size, margin, |grid|);
      Painted(grid, size, margin, x, y) <==>
      exists row, col :: 0 <= row < |grid| && 0 <= col < |grid| && grid[row][col] &&
        InSpan(margin + col * ms, ms, x) && InSpan(margin + row * ms, ms, y)
  {
    var ms := ModuleSize(size, margin, |grid|);
    if ms > 0 {
      var r := (y - margin) / ms;
      var c := (x - margin) / ms;
      ModuleOfPixel(margin, ms, r, y);
      ModuleOfPixel(margin, ms, c, x);
      forall row, col | 0 <= row < |grid| && 0 <= col < |grid| &&
        InSpan(margin + col * ms, ms, x) && InSpan(margin + row * ms, ms, y)
        ensures row == r && col == c
      {
        ModuleOfPixel(margin, ms, row, y);
        ModuleOfPixel(margin, ms, col, x);
      }
    }
  }

  /** Dark pixels never fall in the margin: the border stays in the light colour. */
  lemma PaintedWithinMargins(grid: seq<seq<bool>>, size: int, margin: int, x: int, y: int)
    requires IsSquareGrid(grid) && 2 * margin <= size
    requires Painted(grid, size, margin, x, y)
    ensures margin <= x < size - margin && margin <= y < size - margin
  {
    var n := |grid|;
    var ms := ModuleSize(size, margin, n);
    var r := (y - margin) / ms;
    var c := (x - margin) / ms;
    ModuleOfPixel(margin, ms, r, y);
    ModuleOfPixel(margin, ms, c, x);
    SquareWithinMargins(size, margin, n, r);
    SquareWithinMargins(size, margin, n, c);
  }

  /** `ctx.fillRect(x0, y0, w, h)` on the canvas, clipped to its bounds. */
  method FillRect(canvas: array2<Pixel>, x0: int, y0: int, w: int, h: int, colour: Pixel)
    modifies canvas
    ensures forall y, x :: 0 <= y < canvas.Length0 && 0 <= x < canvas.Length1 ==>
      canvas[y, x] == if InSpan(x0, w, x) && InSpan(y0, h, y) then colour else old(canvas[y, x])
  {
    forall y, x | 0 <= y < canvas.Length0 && 0 <= x < canvas.Length1 && InSpan(x0, w, x) && InSpan(y0, h, y) {
      canvas[y, x] := colour;
    }
  }

  /** Drawing module `(row, col)` moves the drawn-before frontier by one module. */
  lemma CoveredStep(grid: seq<seq<bool>>, margin: int, ms: int, x: int, y: int, row: int, col: int)
    requires IsSquareGrid(grid)
    requires 0 <= row < |grid| && 0 <= col < |grid|
    ensures CoveredBefore(grid, margin, ms, x, y, row, col + 1) <==>
      CoveredBefore(grid, margin, ms, x, y, row, col) ||
      (grid[row][col] && ms > 0 && InSpan(margin + col * ms, ms, x) && InSpan(margin + row * ms, ms, y))
  {
    if ms > 0 {
      ModuleOfPixel(margin, ms, row, y);
      ModuleOfPixel(margin, ms, col, x);
    }
  }

  /**
   * The canvas of one QR code: `size x size` light pixels, then, row by row and
   * column by column, a dark `moduleSize` square for every dark module.
   */
  method DrawModules(grid: seq<seq<bool>>, size: nat, margin: nat) returns (canvas: array2<Pixel>)
    requires IsSquareGrid(grid)
    requires 2 * margin <= size
    ensures canvas.Length0 == size && canvas.Length1 == size
    ensures forall y, x :: 0 <= y < size && 0 <= x < size ==>
      canvas[y, x] == Colour(Painted(grid, size, margin, x, y))
  {
    var n := |grid|;
    var ms := ModuleSize(size, margin, n);
    canvas := new Pixel[size, size]((_, _) => Light);
    for row := 0 to n
      invariant forall y, x :: 0 <= y < size && 0 <= x < size ==>
        canvas[y, x] == Colour(CoveredBefore(grid, margin, ms, x, y, row, 0))
    {
      for col := 0 to n
        invariant forall y, x :: 0 <= y < size && 0 <= x < size ==>
          canvas[y, x] == Colour(CoveredBefore(grid, margin, ms, x, y, row, col))
      {
        if grid[row][col] {
          FillRect(canvas, margin + col * ms, margin + row * ms, ms, ms, Dark);
        }
        forall y, x | 0 <= y < size && 0 <= x < size
          ensures canvas[y, x] == Colour(CoveredBefore(grid, margin, ms, x, y, row, col + 1))
        {
          CoveredStep(grid, margin, ms, x, y, row, col);
        }
      }
    }
  }
}
