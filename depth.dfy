/**
 * The post-processing of the predicted depth map in `predict`: every cell is
 * replaced by `max - cell` (app.py line 71), so that higher terrain gets the
 * higher value, and the result is rendered with the colour scale fixed to
 * [0, max of the inverted map] (app.py line 78).
 */
module Depth {
  import opened Wrappers
  import opened Grids

  /**
   * `pred_dtm.max() - pred_dtm`. numpy raises ValueError when it takes the
   * maximum of an array without cells; that is the None case.
   */
  function Invert(g: Grid): (r: Option<Grid>)
    ensures r.Some? <==> HasCells(g)
    ensures r.Some? ==> SameShape(r.value, g)
  {
    if !HasCells(g) then None
    else
      var m := GridMax(g);
      var inv := seq(|g|, i requires 0 <= i < |g| =>
                   seq(Width(g), j requires 0 <= j < Width(g) => m - g[i][j]));
      assert Width(inv) == Width(g);
      Some(inv)
  }

  /** Every inverted cell is non-negative: the renderer's `vmin=0` cuts nothing off. */
  lemma {:induction false} InvertNonNegative(g: Grid, i: nat, j: nat)
    requires InGrid(g, i, j)
    ensures Invert(g).Some? && InGrid(Invert(g).value, i, j)
    ensures Invert(g).value[i][j] >= 0.0
  {
    assert g[i][j] <= GridMax(g);
  }

  /** The cell holding the maximum (numpy's argmax) becomes 0. */
  lemma {:induction false} InvertArgmaxIsZero(g: Grid)
    requires HasCells(g)
    ensures exists i, j :: InGrid(g, i, j) && g[i][j] == GridMax(g) && Invert(g).value[i][j] == 0.0
  {
    var i, j :| InGrid(g, i, j) && g[i][j] == GridMax(g);
    assert Invert(g).value[i][j] == 0.0;
  }

  /** Inversion reverses the order of any two cells. */
  lemma {:induction false} InvertAntitone(g: Grid, i: nat, j: nat, i': nat, j': nat)
    requires InGrid(g, i, j) && InGrid(g, i', j')
    requires g[i][j] <= g[i'][j']
    ensures Invert(g).Some?
    ensures Invert(g).value[i][j] >= Invert(g).value[i'][j']
  {
    var inv := Invert(g).value;
    assert inv[i][j] == GridMax(g) - g[i][j];
    assert inv[i'][j'] == GridMax(g) - g[i'][j'];
  }

  /** The smallest inverted cell is 0. */
  lemma {:induction false} InvertMin(g: Grid)
    requires HasCells(g)
    ensures Invert(g).Some? && HasCells(Invert(g).value)
    ensures GridMin(Invert(g).value) == 0.0
  {
    var inv := Invert(g).value;
    var i, j :| InGrid(g, i, j) && g[i][j] == GridMax(g);
    assert inv[i][j] == 0.0;
    forall i', j' | InGrid(inv, i', j')
      ensures 0.0 <= inv[i'][j']
    {
      InvertNonNegative(g, i', j');
    }
    assert IsMinOf(0.0, inv);
    MinUnique(inv, 0.0);
  }

  /** The largest inverted cell is the spread `max - min` of the prediction. */
  lemma {:induction false} InvertMax(g: Grid)
    requires HasCells(g)
    ensures Invert(g).Some? && HasCells(Invert(g).value)
    ensures GridMax(Invert(g).value) == GridMax(g) - GridMin(g)
  {
    var inv := Invert(g).value;
    var spread := GridMax(g) - GridMin(g);
    var i, j :| InGrid(g, i, j) && g[i][j] == GridMin(g);
    assert inv[i][j] == spread;
    forall i', j' | InGrid(inv, i', j')
      ensures inv[i'][j'] <= spread
    {
      assert GridMin(g) <= g[i'][j'];
    }
    assert IsMaxOf(spread, inv);
    MaxUnique(inv, spread);
  }

  /**
   * Inverting twice shifts the prediction so that its minimum is 0: the
   * relative heights survive, the absolute level does not.
   */
  lemma {:induction false} InvertTwice(g: Grid, i: nat, j: nat)
    requires InGrid(g, i, j)
    ensures Invert(g).Some? && Invert(Invert(g).value).Some?
    ensures Invert(Invert(g).value).value[i][j] == g[i][j] - GridMin(g)
  {
    InvertMax(g);
  }

  /** The colour range `(vmin, vmax)` passed to `imshow` for the inverted map. */
  datatype ColourRange = ColourRange(vmin: real, vmax: real)

  /**
   * `vmin=0, vmax=np.max(pred_dtm)`, for the inverted map `inv`. numpy
   * raises ValueError on a map without cells, the None case.
   */
  function Scale(inv: Grid): (r: Option<ColourRange>)
    ensures r.Some? <==> HasCells(inv)
  {
    if HasCells(inv) then Some(ColourRange(0.0, GridMax(inv))) else None
  }

  /**
   * On an inverted prediction the colour range is exactly the range of the
   * values: every cell lies in [vmin, vmax] and both ends are reached, so the
   * colour map neither clips nor wastes any of its range.
   */
  lemma {:induction false} ScaleTight(g: Grid)
    requires HasCells(g)
    ensures Invert(g).Some? && Scale(Invert(g).value).Some?
    ensures var inv := Invert(g).value;
            var range := Scale(inv).value;
            IsMinOf(range.vmin, inv) && IsMaxOf(range.vmax, inv)
  {
    var inv := Invert(g).value;
    InvertMin(g);
  }

  /**
   * The range collapses to one point (vmin == vmax, which the colour map
   * must not divide by) exactly when the prediction is constant.
   */
  lemma {:induction false} ScaleDegenerate(g: Grid)
    requires HasCells(g)
    ensures Invert(g).Some? && Scale(Invert(g).value).Some?
    ensures var range := Scale(Invert(g).value).value;
            range.vmin == range.vmax <==>
            forall i, j :: InGrid(g, i, j) ==> g[i][j] == g[0][0]
  {
    InvertMax(g);
    if GridMax(g) == GridMin(g) {
      forall i, j | InGrid(g, i, j)
        ensures g[i][j] == g[0][0]
      {
        assert GridMin(g) <= g[i][j] <= GridMax(g);
        assert GridMin(g) <= g[0][0] <= GridMax(g);
      }
    }
    if forall i, j :: InGrid(g, i, j) ==> g[i][j] == g[0][0] {
      var i, j :| InGrid(g, i, j) && g[i][j] == GridMax(g);
      var i', j' :| InGrid(g, i', j') && g[i'][j'] == GridMin(g);
    }
  }
}
