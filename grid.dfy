/**
 * Rectangular grids stored row by row, `g[y][x]`, as used for the image
 * under fill and for the processed-pixel grid, plus the bounds predicate
 * that guards every access to them.
 */
module Grid {

  type Grid<T> = seq<seq<T>>

  /** `g` has `height` rows of `width` cells each. */
  ghost predicate IsGrid<T>(g: Grid<T>, width: int, height: int) {
    |g| == height && forall y | 0 <= y < height :: |g[y]| == width
  }

  /** filler::isWithinImage: (x, y) is a pixel of a width-by-height image. */
  predicate IsWithinImage(x: int, y: int, width: int, height: int): (r: bool)
    ensures r ==> width >= 1 && height >= 1
  {
    x >= 0 && x < width && y >= 0 && y < height
  }

  /** The bounds predicate holds exactly when `g[y][x]` is a defined access. */
  lemma WithinImageIsValidIndex<T>(g: Grid<T>, x: int, y: int, width: int, height: int)
    requires IsGrid(g, width, height)
    ensures IsWithinImage(x, y, width, height) <==> 0 <= y < |g| && 0 <= x < |g[y]|
  {
    if 0 <= y < |g| {
      assert |g[y]| == width;
    }
  }

  /** The grid with cell (x, y) set to `v`; a position off the grid changes nothing. */
  function Update<T>(g: Grid<T>, x: int, y: int, v: T): (r: Grid<T>)
    ensures |r| == |g| && forall yy | 0 <= yy < |g| :: |r[yy]| == |g[yy]|
    ensures forall yy, xx | 0 <= yy < |g| && 0 <= xx < |g[yy]| ::
              r[yy][xx] == if yy == y && xx == x then v else g[yy][xx]
  {
    if 0 <= y < |g| && 0 <= x < |g[y]| then g[y := g[y][x := v]] else g
  }

  /** A width-by-height grid holding `v` everywhere. */
  function Filled<T>(width: nat, height: nat, v: T): (r: Grid<T>)
    ensures IsGrid(r, width, height)
    ensures forall y, x | 0 <= y < height && 0 <= x < width :: r[y][x] == v
  {
    seq(height, _ => seq(width, _ => v))
  }

  /** Two grids of the same shape that agree on every cell are equal. */
  lemma GridExt<T>(a: Grid<T>, b: Grid<T>, width: int, height: int)
    requires IsGrid(a, width, height) && IsGrid(b, width, height)
    requires forall y, x | 0 <= y < height && 0 <= x < width :: a[y][x] == b[y][x]
    ensures a == b
  {
    forall y | 0 <= y < height ensures a[y] == b[y] {
      assert |a[y]| == |b[y]| == width;
      assert forall x | 0 <= x < width :: a[y][x] == b[y][x];
    }
  }

  /** A deep copy of the current contents of a two-dimensional array, rows first. */
  function Snapshot<T>(a: array2<T>): (r: Grid<T>)
    reads a
    ensures IsGrid(r, a.Length1, a.Length0)
    ensures forall y, x | 0 <= y < a.Length0 && 0 <= x < a.Length1 :: r[y][x] == a[y, x]
  {
    seq(a.Length0, y requires 0 <= y < a.Length0 reads a =>
      seq(a.Length1, x requires 0 <= x < a.Length1 reads a => a[y, x]))
  }

  /** The number of `false` cells of a row. */
  function CountRow(r: seq<bool>): (n: nat) {
    if r == [] then 0 else CountRow(r[..|r| - 1]) + (if r[|r| - 1] then 0 else 1)
  }

  /** The number of `false` cells of a grid (the unprocessed pixels). */
  function CountFalse(g: Grid<bool>): (n: nat) {
    if g == [] then 0 else CountFalse(g[..|g| - 1]) + CountRow(g[|g| - 1])
  }

  lemma {:induction false} CountRowUpdate(r: seq<bool>, x: int)
    requires 0 <= x < |r| && !r[x]
    ensures CountRow(r[x := true]) == CountRow(r) - 1
  {
    var n := |r|;
    var r' := r[x := true];
    if x == n - 1 {
      assert r'[..n - 1] == r[..n - 1];
    } else {
      assert r'[..n - 1] == r[..n - 1][x := true];
      CountRowUpdate(r[..n - 1], x);
    }
  }

  /** Marking one unprocessed cell removes exactly one `false` cell. */
  lemma {:induction false} CountFalseUpdate(g: Grid<bool>, x: int, y: int)
    requires 0 <= y < |g| && 0 <= x < |g[y]| && !g[y][x]
    ensures CountFalse(Update(g, x, y, true)) == CountFalse(g) - 1
  {
    var n := |g|;
    var g' := Update(g, x, y, true);
    assert g' == g[y := g[y][x := true]];
    if y == n - 1 {
      assert g'[..n - 1] == g[..n - 1];
      CountRowUpdate(g[y], x);
    } else {
      assert g'[..n - 1] == Update(g[..n - 1], x, y, true);
      CountFalseUpdate(g[..n - 1], x, y);
    }
  }

  lemma {:induction false} CountRowFilled(width: nat)
    ensures CountRow(seq(width, _ => false)) == width
  {
    if width > 0 {
      assert seq(width, _ => false)[..width - 1] == seq(width - 1, _ => false);
      CountRowFilled(width - 1);
    }
  }

  /** A grid with nothing processed has width * height unprocessed cells. */
  lemma {:induction false} CountFalseFilled(width: nat, height: nat)
    ensures CountFalse(Filled(width, height, false)) == width * height
  {
    if height > 0 {
      assert Filled(width, height, false)[..height - 1] == Filled(width, height - 1, false);
      CountFalseFilled(width, height - 1);
      CountRowFilled(width);
      assert Filled(width, height, false)[height - 1] == seq(width, _ => false);
    }
  }
}
