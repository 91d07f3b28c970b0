/**
 * The buffer construction at the start of generate_mesh: two W*H x 3
 * buffers, preallocated with zeros and filled in place by a nested loop over
 * the pixels, one holding a point per pixel and the other its grey colour.
 * The buffers are then handed to the geometry library, which is not part of
 * this model.
 */
module PointCloud {
  import opened Grids
  import opened Flatten

  /** Image width and height, fixed by the demo. */
  const W: nat := 512
  const H: nat := 512
  /** The literal the x-coordinate is mirrored about (it happens to equal W). */
  const MirrorAxis: int := 512
  /** Entries per buffer row: x, y, z for points and r, g, b for colours. */
  const Channels: nat := 3

  function Abs(x: int): nat {
    if x < 0 then -x else x
  }

  /** The x-coordinate given to column j, `abs(j - 512)`. */
  function MirrorX(j: int): (x: nat)
    ensures 0 <= j <= MirrorAxis ==> x == MirrorAxis - j
    ensures 0 <= j < W ==> 1 <= x <= W
  {
    Abs(j - MirrorAxis)
  }

  /** The grid can be read at every pixel the loop visits. */
  predicate Covers(g: Grid) {
    |g| >= H && Width(g) >= W
  }

  /** `np.zeros(shape=(rows, 3))`. */
  method Zeros(rows: nat) returns (a: array2<real>)
    ensures fresh(a)
    ensures a.Length0 == rows && a.Length1 == Channels
    ensures forall k, c :: 0 <= k < rows && 0 <= c < Channels ==> a[k, c] == 0.0
  {
    a := new real[rows, Channels]((k, c) => 0.0);
  }

  /** A buffer of the shape generate_mesh allocates. */
  predicate Shaped(a: array2<real>) {
    a.Length0 == W * H && a.Length1 == Channels
  }

  /** Buffer row `Flat(i, j, H)` of `points` holds the point of pixel (i, j). */
  ghost predicate PointWritten(points: array2<real>, dtm: Grid, i: nat, j: nat)
    reads points
    requires Shaped(points) && Covers(dtm) && i < H && j < W
  {
    var k := Flat(i, j, H);
    points[k, 0] == MirrorX(j) as real && points[k, 1] == i as real && points[k, 2] == dtm[i][j]
  }

  /** Buffer row `Flat(i, j, H)` of `colors` holds the grey value of pixel (i, j) three times. */
  ghost predicate ColorWritten(colors: array2<real>, image: Grid, i: nat, j: nat)
    reads colors
    requires Shaped(colors) && Covers(image) && i < H && j < W
  {
    var k := Flat(i, j, H);
    colors[k, 0] == image[i][j] && colors[k, 1] == image[i][j] && colors[k, 2] == image[i][j]
  }

  /** Rows from `from` on are still as np.zeros left them. */
  ghost predicate ZeroFrom(a: array2<real>, from: nat)
    reads a
    requires Shaped(a)
  {
    forall k, c :: from <= k < W * H && 0 <= c < Channels ==> a[k, c] == 0.0
  }

  /** The indices 0, 1, ..., n - 1 in order. */
  ghost predicate Counts(s: seq<nat>, n: nat) {
    |s| == n && forall m :: 0 <= m < n ==> s[m] == m
  }

  /** Every pixel of rows [0, rows) has its point and colour in place. */
  ghost predicate RowsDone(points: array2<real>, colors: array2<real>, dtm: Grid, image: Grid, rows: nat)
    reads points, colors
    requires Shaped(points) && Shaped(colors) && Covers(dtm) && Covers(image) && rows <= H
  {
    forall i, j :: 0 <= i < rows && 0 <= j < W ==>
      PointWritten(points, dtm, i, j) && ColorWritten(colors, image, i, j)
  }

  /** Buffer rows outside [lo, hi) hold what they held in the old state. */
  twostate predicate UnchangedOutside(a: array2<real>, lo: nat, hi: nat)
    reads a
    requires Shaped(a)
  {
    forall k, c :: 0 <= k < W * H && 0 <= c < Channels && !(lo <= k < hi) ==>
      a[k, c] == old(a[k, c])
  }

  /**
   * One pass of the inner `for j in range(W)` loop for grid row i: it writes
   * buffer rows i * H .. i * H + W - 1, in that order, and nothing else.
   */
  method FillRow(points: array2<real>, colors: array2<real>, dtm: Grid, image: Grid, i: nat)
    returns (ghost written: seq<nat>)
    requires Shaped(points) && Shaped(colors) && points != colors
    requires Covers(dtm) && Covers(image) && i < H
    modifies points, colors
    ensures |written| == W && forall m :: 0 <= m < W ==> written[m] == Flat(i, m, H)
    ensures forall j :: 0 <= j < W ==>
      PointWritten(points, dtm, i, j) && ColorWritten(colors, image, i, j)
    ensures UnchangedOutside(points, Flat(i, 0, H), Flat(i, W, H))
    ensures UnchangedOutside(colors, Flat(i, 0, H), Flat(i, W, H))
  {
    written := [];
    var j := 0;
    while j < W
      invariant 0 <= j <= W
      invariant |written| == j && forall m :: 0 <= m < j ==> written[m] == Flat(i, m, H)
      invariant forall j' :: 0 <= j' < j ==>
        PointWritten(points, dtm, i, j') && ColorWritten(colors, image, i, j')
      invariant UnchangedOutside(points, Flat(i, 0, H), Flat(i, j, H))
      invariant UnchangedOutside(colors, Flat(i, 0, H), Flat(i, j, H))
    {
      var k := i * H + j;
      FlatInBuffer(i, j, H, W);
      label Before:
      points[k, 0] := MirrorX(j) as real;
      points[k, 1] := i as real;
      points[k, 2] := dtm[i][j];
      colors[k, 0] := image[i][j];
      colors[k, 1] := image[i][j];
      colors[k, 2] := image[i][j];
      written := written + [k];
      forall j' | 0 <= j' < j
        ensures PointWritten(points, dtm, i, j') && ColorWritten(colors, image, i, j')
      {
        assert old@Before(PointWritten(points, dtm, i, j') && ColorWritten(colors, image, i, j'));
      }
      j := j + 1;
    }
  }

  /**
   * generate_mesh, lines 28-35. `ok` is false when a grid is smaller than
   * H x W: numpy then raises IndexError inside the loop, and the local
   * buffers are discarded, so the check is made before the loop. `writes`
   * records the buffer row written by each iteration, in order.
   */
  method PreparePoints(dtm: Grid, image: Grid)
    returns (ok: bool, points: array2<real>, colors: array2<real>, ghost writes: seq<nat>)
    ensures fresh(points) && fresh(colors)
    ensures Shaped(points) && Shaped(colors)
    ensures ok <==> Covers(dtm) && Covers(image)
    // the n-th iteration writes buffer row n: every row is written once
    ensures ok ==> Counts(writes, W * H)
    ensures ok ==> RowsDone(points, colors, dtm, image, H)
    // read by buffer row: row k holds pixel (k / H, k % H)
    ensures ok ==> forall k :: 0 <= k < W * H ==>
      points[k, 0] == (MirrorAxis - k % H) as real &&
      points[k, 1] == (k / H) as real &&
      points[k, 2] == dtm[k / H][k % H]
    ensures ok ==> forall k, c :: 0 <= k < W * H && 0 <= c < Channels ==>
      colors[k, c] == image[k / H][k % H]
    ensures ok ==> forall k :: 0 <= k < W * H ==>
      1.0 <= points[k, 0] <= W as real && 0.0 <= points[k, 1] <= (H - 1) as real
  {
    points := Zeros(W * H);
    colors := Zeros(W * H);
    writes := [];
    ok := Covers(dtm) && Covers(image);
    if !ok {
      return;
    }
    var i := 0;
    while i < H
      invariant 0 <= i <= H
      invariant Counts(writes, Flat(i, 0, H))
      invariant RowsDone(points, colors, dtm, image, i)
      invariant ZeroFrom(points, Flat(i, 0, H)) && ZeroFrom(colors, Flat(i, 0, H))
    {
      label Before:
      var written := FillRow(points, colors, dtm, image, i);
      writes := writes + written;
      forall i', j' | 0 <= i' < i && 0 <= j' < W
        ensures PointWritten(points, dtm, i', j') && ColorWritten(colors, image, i', j')
      {
        FlatEarlierRow(i', j', i, 0, H);
        assert old@Before(PointWritten(points, dtm, i', j') && ColorWritten(colors, image, i', j'));
      }
      i := i + 1;
    }
    forall k | 0 <= k < W * H
      ensures points[k, 0] == (MirrorAxis - k % H) as real
      ensures points[k, 1] == (k / H) as real
      ensures points[k, 2] == dtm[k / H][k % H]
      ensures forall c :: 0 <= c < Channels ==> colors[k, c] == image[k / H][k % H]
      ensures 1.0 <= points[k, 0] <= W as real && 0.0 <= points[k, 1] <= (H - 1) as real
    {
      FlatOnto(k, H, W);
      assert PointWritten(points, dtm, k / H, k % H);
      assert ColorWritten(colors, image, k / H, k % H);
    }
  }
}
