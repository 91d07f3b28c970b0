# HiRISE monocular depth demo: the bespoke logic of `app.py`

The demo takes a grey-scale image of the Martian surface, predicts a digital
terrain model (DTM) with a neural network, shows the DTM as a false-colour
heightmap and reconstructs a downloadable 3D mesh from it. Almost all of that
work is done by library calls. This project models the four parts that
`app.py` computes itself:

- **Point-cloud buffers** (`generate_mesh`, module `PointCloud`, file
  `point_cloud.dfy`). Two `W*H x 3` buffers are allocated as zeros and
  filled in place by nested `for i` / `for j` loops. Buffer row `i*H + j`
  gets the point `(|j - 512|, i, dtm[i, j])` and the colour
  `image[i, j]` three times. The buffers are `array2<real>`. The loops are a
  method (`FillRow`, one row at a time) inside a method
  (`PreparePoints`), with loop invariants.
- **The flattening index** (module `Flatten`, file `flatten.dfy`). The
  source computes `i*H + j`, which is the row-major index only because
  `W == H == 512`. These lemmas show that the index is a bijection from the
  pixels onto `[0, W*H)`, and what goes wrong when the grid is not square.
- **Depth inversion and colour range** (`predict`, module `Depth`, file
  `depth.dfy`; grid helpers in `grids.dfy`). Every cell becomes
  `max - cell`. The heatmap is then drawn with `vmin=0` and
  `vmax=np.max(...)`.
- **Checkpoint key renaming** (`load_model`, module `Checkpoint`, file
  `checkpoint.dfy`). The rename is the dict comprehension
  `{k[6:]: v for (k, v) in weights.items()}`. A Python dict keeps keys in
  first-insertion order, and assigning to an existing key keeps that key's
  position. So a dict is a sequence of `(key, value)` entries with distinct
  keys, and parameter tensors are an opaque type `V`.
- **Mesh file name** (module `MeshFile`, file `mesh_file.dfy`): the name is
  `<stem>.obj`.

Depth and intensity values are `real`. float32 rounding plays no part in
where anything is placed.

Two points about `app.py` the model keeps as written:
- `app.py` never checks the grid shape. It reads only cells
  `[0, 512) x [0, 512)`, so a larger grid is accepted silently and a smaller
  one makes numpy raise `IndexError`, which the model reports as
  `ok == false`.
- The buffers are preallocated and filled in place, and the model does the
  same.
- The x-coordinate uses the literal `512` (`MirrorAxis`), not `W`. The two
  are equal in this program.

## Model

| member | source | states |
|---|---|---|
| `Flatten.SplitFlat` | app.py:30-34 | buffer row `i*H + j` with `j < H` splits back into grid row `i` (`k / H`) and column `j` (`k % H`) |
| `Flatten.FlatInjective` | app.py:30-34 | two pixels never share a buffer row (injectivity of `i*H + j` for `j < H`) |
| `Flatten.FlatOnto` | app.py:14-34 | with `W == H`, every buffer row `k < W*H` is the row of exactly the pixel `(k / H, k % H)`, which lies in the grid (surjectivity) |
| `Flatten.FlatInBuffer` | app.py:14-34 | with `W == H`, every pixel's buffer row is inside the `W*H`-row buffer |
| `Flatten.FlatEarlierRow` | app.py:30-31 | the loops visit rows in increasing buffer order: every pixel of an earlier grid row has a smaller buffer row |
| `Flatten.DivModUnique` | app.py:30-34 | `k == q*H + r` with `r < H` determines `q = k / H` and `r = k % H` |
| `Flatten.WideGridCollides` | app.py:14 | if there were more columns than rows, pixels `(0, H)` and `(1, 0)` would land on the same buffer row |
| `Flatten.TallGridLeavesGap` | app.py:14 | if there were fewer columns than rows, buffer row `W` would be written by no pixel and keep its zero |
| `PointCloud.MirrorX` | app.py:32 | `abs(j - 512)` equals `512 - j` for `0 <= j <= 512` and lies in `[1, 512]` for every column of the grid |
| `PointCloud.Zeros` | app.py:28-29 | a fresh buffer of `rows x 3` entries, all 0 |
| `PointCloud.FillRow` | app.py:31-35 | one pass of the inner loop writes buffer rows `i*H .. i*H + W - 1` in order, gives each the point `(abs(j - 512), i, dtm[i][j])` and the colour `image[i][j]` in all three channels, and leaves every other buffer row unchanged |
| `PointCloud.PreparePoints` | app.py:28-35 | both buffers are `W*H x 3`; `ok` holds exactly when both grids cover `H x W`. If so, the n-th write goes to buffer row n, so every row is written exactly once; every pixel's point and colour are in place; row `k` holds x = `512 - k % H`, y = `k / H`, z = `dtm[k / H][k % H]` and colour `image[k / H][k % H]`; and every x lies in `[1, 512]` and every y in `[0, H - 1]` |
| `Grids.GridMax` | app.py:71 | numpy's `max()` of a grid with cells bounds every cell from above and equals one of them |
| `Depth.Invert` | app.py:71 | `max - grid` is defined exactly when the grid has cells (numpy raises otherwise) and keeps the grid's shape |
| `Depth.InvertNonNegative` | app.py:71 | every inverted cell is `>= 0` |
| `Depth.InvertArgmaxIsZero` | app.py:71 | a cell that holds the maximum becomes 0 |
| `Depth.InvertAntitone` | app.py:71 | `a <= b` implies `inv(a) >= inv(b)` |
| `Depth.InvertMin` | app.py:71 | the minimum of the inverted grid is 0 |
| `Depth.InvertMax` | app.py:71 | the maximum of the inverted grid is `max - min` of the prediction |
| `Depth.InvertTwice` | app.py:71 | inverting twice gives `cell - min`: relative heights are kept and the lowest point moves to 0 |
| `Depth.Scale` | app.py:78 | the colour range `(0, max)` exists exactly when the grid has cells |
| `Depth.ScaleTight` | app.py:71-78 | on the inverted prediction, `vmin = 0` is its minimum and `vmax` its maximum, so no cell falls outside the colour range and both ends are reached |
| `Depth.ScaleDegenerate` | app.py:71-78 | the colour range collapses (`vmin == vmax`) exactly when the prediction is constant |
| `Checkpoint.Keys` | app.py:20 | the keys of a dict in insertion order, one per entry |
| `Checkpoint.Get` | app.py:21 | a lookup finds a value exactly when the key is present, and with distinct keys it finds the value stored under that key |
| `Checkpoint.Set` | app.py:20 | `d[k] = v` keeps every existing key in place and every other value, and appends a new key at the end |
| `Checkpoint.Strip` | app.py:20 | `k[6:]` has length `len(k) - 6`, and is `""` for a key shorter than 6 characters |
| `Checkpoint.PrefixThenStripped` | app.py:20 | a key of at least 6 characters is its first 6 characters followed by its stripped name |
| `Checkpoint.StripKeys` | app.py:20 | the renamed dict is never larger than the checkpoint |
| `Checkpoint.LastStrippedTo` | app.py:20 | reference definition: the value of the last entry whose key strips to `s`, present exactly when some key strips to `s` |
| `Checkpoint.SetDistinct` | app.py:20 | assignment never creates a duplicate key |
| `Checkpoint.GetSet` | app.py:20 | after `d[k] = v`, `k` maps to `v` and every other key keeps its value |
| `Checkpoint.SetNew` | app.py:20 | assigning a key the dict lacks appends it at the end |
| `Checkpoint.StripKeysDistinct` | app.py:20 | the renamed dict has distinct keys |
| `Checkpoint.StripKeysGet` | app.py:20 | the renamed dict maps `s` to the value of the last checkpoint entry whose key strips to `s`, unchanged: values carry over and on a collision the later one wins |
| `Checkpoint.StripKeysKeys` | app.py:20 | `s` is a key of the renamed dict exactly when some checkpoint key with its first 6 characters dropped is `s` |
| `Checkpoint.StripKeysNoCollision` | app.py:20 | when no two keys strip to the same name, the renamed dict is the checkpoint with each key stripped (`StripEach`): one entry per checkpoint entry, in the same order, with the same values |
| `Checkpoint.CollisionLastWins` | app.py:20 | for any two keys that strip to the same name and any values, the output is one entry at the first key's position, holding the second key's value |
| `Checkpoint.SharedPrefixLoads` | app.py:19-21 | if every key carries the same 6-character prefix, no two keys collide, and each parameter is found under its name without the prefix |
| `MeshFile.ObjName` | app.py:55 | the mesh name is 4 characters longer than the stem |
| `MeshFile.StemOf` | app.py:55 | the inverse of `ObjName`: defined exactly on names that end in `.obj` |
| `MeshFile.StemOfObjName` | app.py:55 | every mesh name ends in `.obj` and gives its stem back |
| `MeshFile.ObjNameOfStem` | app.py:55 | every name ending in `.obj` is the mesh name of its stem |
| `MeshFile.ObjNameInjective` | app.py:55 | different stems give different mesh files |

## Left out

- Network construction, `torch.load` and `load_state_dict` (app.py:18-22), and the start-up checkpoint path and `load_model` call (app.py:88-89), are calls into the ML library. Only the key renaming on line 20 is modelled.
- Image decoding, tensor conversion and inference (app.py:61-70, 73) are left out: they are an opaque neural network, image I/O and float numerics. The prediction and the scaled image are inputs.
- The Open3D calls (app.py:37-53) are left out: point-cloud wrapping, normal estimation, Poisson reconstruction, rotation and the four cleanup passes run inside a native geometry library whose behaviour cannot be seen here. The model stops at the filled buffers.
- Writing the mesh file (app.py:56) is file I/O and is left out.
- The matplotlib rendering and the canvas-to-array conversion (app.py:77-83) are left out. Only the colour range passed to `imshow` on line 78 is modelled.
- The Gradio interface, the example listing, the server launch (app.py:91-110) and device selection (app.py:13) are UI, filesystem and network plumbing.
- `Path(image_path).stem` (app.py:61) is pathlib's job. The stem is an input string.
- PointCloud.PreparePoints: an `IndexError` raised partway through the loop is modelled by checking the grid shape before the loop. The buffers are local and are discarded when numpy raises, so no caller can see the difference.
- The buffers hold `float32` values, and every value is modelled as a `real`. The coordinates `abs(j - 512)` and `i` are small integers that `float32` holds exactly. Rounding of the depth and intensity values is not modelled, and neither is NaN.
