/**
 * Two-dimensional grids of scalar samples: the predicted depth map and the
 * grey-scale image. A numpy array is rectangular, so every row of a Grid has
 * the same length. Samples are reals; float32 rounding is not modelled.
 */
module Grids {

  /** Number of columns (0 for a grid without rows). */
  function Width(g: seq<seq<real>>): nat {
    if |g| == 0 then 0 else |g[0]|
  }

  predicate Rectangular(g: seq<seq<real>>) {
    forall r :: 0 <= r < |g| ==> |g[r]| == Width(g)
  }

  type Grid = g: seq<seq<real>> | Rectangular(g) witness []

  /** The cell (r, c) exists. */
  predicate InGrid(g: Grid, r: int, c: int) {
    0 <= r < |g| && 0 <= c < Width(g)
  }

  /** The grid holds at least one cell (numpy's `size > 0`). */
  predicate HasCells(g: Grid) {
    |g| > 0 && Width(g) > 0
  }

  predicate SameShape(a: Grid, b: Grid) {
    |a| == |b| && Width(a) == Width(b)
  }

  /** m bounds every cell from above and some cell equals it. */
  ghost predicate IsMaxOf(m: real, g: Grid) {
    (forall r, c :: InGrid(g, r, c) ==> g[r][c] <= m) &&
    (exists r, c :: InGrid(g, r, c) && g[r][c] == m)
  }

  /** m bounds every cell from below and some cell equals it. */
  ghost predicate IsMinOf(m: real, g: Grid) {
    (forall r, c :: InGrid(g, r, c) ==> m <= g[r][c]) &&
    (exists r, c :: InGrid(g, r, c) && g[r][c] == m)
  }

  function RowMax(s: seq<real>): (m: real)
    requires |s| > 0
    ensures forall c :: 0 <= c < |s| ==> s[c] <= m
    ensures exists c :: 0 <= c < |s| && s[c] == m
  {
    if |s| == 1 then s[0]
    else
      var rest := RowMax(s[1..]);
      if s[0] >= rest then s[0] else rest
  }

  function RowMin(s: seq<real>): (m: real)
    requires |s| > 0
    ensures forall c :: 0 <= c < |s| ==> m <= s[c]
    ensures exists c :: 0 <= c < |s| && s[c] == m
  {
    if |s| == 1 then s[0]
    else
      var rest := RowMin(s[1..]);
      if s[0] <= rest then s[0] else rest
  }

  /** numpy's `grid.max()`, defined only for a grid with cells. */
  function GridMax(g: Grid): (m: real)
    requires HasCells(g)
    ensures IsMaxOf(m, g)
  {
    var first := RowMax(g[0]);
    if |g| == 1 then
      first
    else
      var rest: Grid := g[1..];
      var m' := GridMax(rest);
      assert forall r, c :: InGrid(rest, r, c) ==> rest[r][c] == g[r + 1][c];
      if first >= m' then first else m'
  }

  /** numpy's `grid.min()`, defined only for a grid with cells. */
  function GridMin(g: Grid): (m: real)
    requires HasCells(g)
    ensures IsMinOf(m, g)
  {
    var first := RowMin(g[0]);
    if |g| == 1 then
      first
    else
      var rest: Grid := g[1..];
      var m' := GridMin(rest);
      assert forall r, c :: InGrid(rest, r, c) ==> rest[r][c] == g[r + 1][c];
      if first <= m' then first else m'
  }

  /** The maximum is determined by its two defining properties. */
  lemma MaxUnique(g: Grid, m: real)
    requires HasCells(g)
    requires IsMaxOf(m, g)
    ensures GridMax(g) == m
  {
    var r, c :| InGrid(g, r, c) && g[r][c] == m;
    var r', c' :| InGrid(g, r', c') && g[r'][c'] == GridMax(g);
  }

  /** The minimum is determined by its two defining properties. */
  lemma MinUnique(g: Grid, m: real)
    requires HasCells(g)
    requires IsMinOf(m, g)
    ensures GridMin(g) == m
  {
    var r, c :| InGrid(g, r, c) && g[r][c] == m;
    var r', c' :| InGrid(g, r', c') && g[r'][c'] == GridMin(g);
  }
}
