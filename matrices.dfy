/** Matrices of optional cells, NumPy-style row indexing, and the row writes
    the transforms perform on their preallocated outputs. */
module Matrices {
  import opened IndexMath

  datatype Option<T> = None | Some(value: T)

  /** A (row x column) matrix whose cells may hold no value: None stands for the
      NaN a transform leaves in a cell it never writes. */
  type Grid<T> = seq<seq<Option<T>>>

  /** `interp1d(xs, ys)(x)`: a piecewise-linear interpolant through the knots
      (xs[k], ys[k]) evaluated at the integer position x. Its arithmetic is not
      part of this model; the transforms only decide which knots it receives. */
  type Interpolator<!T> = (seq<nat>, seq<Option<T>>, nat) -> Option<T>

  /** The interpolant passes through its knots. */
  ghost predicate ExactAtKnots<T(!new)>(interp: Interpolator<T>) {
    forall xs: seq<nat>, ys: seq<Option<T>>, k: nat ::
      |xs| == |ys| && StrictlyIncreasing(xs) && k < |xs| ==> interp(xs, ys, xs[k]) == ys[k]
  }

  predicate IsMatrix<T>(g: seq<seq<T>>, rows: nat, cols: nat) {
    |g| == rows && forall i :: 0 <= i < rows ==> |g[i]| == cols
  }

  /** A row of `dim` NaN cells, as `np.empty(...); output[:] = np.nan` leaves it. */
  function Missing<T>(dim: nat): (row: seq<Option<T>>)
    ensures |row| == dim && forall j :: 0 <= j < dim ==> row[j] == None
  {
    seq(dim, _ => None)
  }

  /** `a[i, :]` */
  function Row<T>(a: array2<T>, i: nat): (row: seq<T>)
    requires i < a.Length0
    reads a
    ensures |row| == a.Length1 && forall j :: 0 <= j < a.Length1 ==> row[j] == a[i, j]
  {
    seq(a.Length1, j requires 0 <= j < a.Length1 reads a => a[i, j])
  }

  /** The value of a whole 2-D array. */
  function Contents<T>(a: array2<T>): (g: seq<seq<T>>)
    reads a
    ensures IsMatrix(g, a.Length0, a.Length1)
    ensures forall i :: 0 <= i < a.Length0 ==> g[i] == Row(a, i)
  {
    seq(a.Length0, i requires 0 <= i < a.Length0 reads a => Row(a, i))
  }

  /** Rows base .. base+|g|-1 of the array hold the matrix g. */
  ghost predicate Holds<T>(a: array2<T>, base: nat, g: seq<seq<T>>)
    reads a
  {
    base + |g| <= a.Length0 && IsMatrix(g, |g|, a.Length1) &&
    forall r, j :: 0 <= r < |g| && 0 <= j < a.Length1 ==> a[base + r, j] == g[r][j]
  }

  /** Every cell from row lo on is NaN. */
  ghost predicate Blank<T>(a: array2<Option<T>>, lo: nat)
    reads a
  {
    forall row, j :: lo <= row < a.Length0 && 0 <= j < a.Length1 ==> a[row, j] == None
  }

  /** A 2-D array all of whose rows hold a matrix holds that matrix. */
  lemma ContentsFromCells<T>(a: array2<T>, g: seq<seq<T>>)
    requires Holds(a, 0, g) && |g| == a.Length0
    ensures Contents(a) == g
  {
    forall i | 0 <= i < a.Length0
      ensures Contents(a)[i] == g[i]
    {
      assert forall j :: 0 <= j < a.Length1 ==> a[0 + i, j] == g[i][j];
    }
  }

  /** A block held right below a held prefix extends it. */
  lemma HoldsAppend<T>(a: array2<T>, prefix: seq<seq<T>>, block: seq<seq<T>>)
    requires Holds(a, 0, prefix) && Holds(a, |prefix|, block)
    ensures Holds(a, 0, prefix + block)
  {
    var g := prefix + block;
    forall r, j | 0 <= r < |g| && 0 <= j < a.Length1
      ensures a[0 + r, j] == g[r][j]
    {
      if r >= |prefix| {
        assert a[|prefix| + (r - |prefix|), j] == block[r - |prefix|][j];
      }
    }
  }

  /** `row[idx]`: the values at the given columns, in index order. */
  function Gather<T>(row: seq<T>, idx: seq<nat>): (vals: seq<T>)
    requires IndicesBelow(idx, |row|)
    ensures |vals| == |idx| && forall k :: 0 <= k < |idx| ==> vals[k] == row[idx[k]]
  {
    seq(|idx|, k requires 0 <= k < |idx| => row[idx[k]])
  }

  /** `row[idx] = vals`: NumPy's fancy-index assignment, writing vals[k] at
      idx[k] in index order (a repeated index keeps the value written last). */
  function Scatter<T>(row: seq<T>, idx: seq<nat>, vals: seq<T>): (r: seq<T>)
    requires |idx| == |vals| && IndicesBelow(idx, |row|)
    ensures |r| == |row|
    decreases |idx|
  {
    if idx == [] then row
    else
      var n := |idx| - 1;
      Scatter(row, idx[..n], vals[..n])[idx[n] := vals[n]]
  }

  /** Columns outside the index row keep their old value. */
  lemma {:induction false} ScatterOutside<T>(row: seq<T>, idx: seq<nat>, vals: seq<T>, j: nat)
    requires |idx| == |vals| && IndicesBelow(idx, |row|) && j < |row| && j !in idx
    ensures Scatter(row, idx, vals)[j] == row[j]
  {
    if idx != [] {
      var n := |idx| - 1;
      assert j !in idx[..n];
      ScatterOutside(row, idx[..n], vals[..n], j);
    }
  }

  /** With distinct indices, column idx[k] receives vals[k]. */
  lemma {:induction false} ScatterDistinct<T>(row: seq<T>, idx: seq<nat>, vals: seq<T>)
    requires |idx| == |vals| && IndicesBelow(idx, |row|) && StrictlyIncreasing(idx)
    ensures forall k :: 0 <= k < |idx| ==> Scatter(row, idx, vals)[idx[k]] == vals[k]
  {
    if idx != [] {
      var n := |idx| - 1;
      ScatterDistinct(row, idx[..n], vals[..n]);
    }
  }

  /** Writing a row's own values at some of its columns: a column receives the
      source value exactly when it is indexed, whatever the repetitions. */
  lemma {:induction false} ScatterGathered<T>(row: seq<T>, src: seq<T>, idx: seq<nat>, j: nat)
    requires |src| == |row| && IndicesBelow(idx, |row|) && j < |row|
    ensures Scatter(row, idx, Gather(src, idx))[j] == if j in idx then src[j] else row[j]
  {
    if idx != [] {
      var n := |idx| - 1;
      assert Gather(src, idx)[..n] == Gather(src, idx[..n]);
      ScatterGathered(row, src, idx[..n], j);
      assert j in idx <==> j in idx[..n] || j == idx[n];
    }
  }

  /** A short row stretched over `dim` columns by interpolation: its values
      are the knots at `|sub|` evenly spaced columns from the first to the
      last, and the interpolant is evaluated at every column. */
  function Stretched<T>(sub: seq<Option<T>>, dim: nat, interp: Interpolator<T>): (out: seq<Option<T>>)
    requires 1 <= dim && |sub| <= dim
    ensures |out| == dim
  {
    seq(dim, j requires 0 <= j < dim => interp(SampleIndices(dim, |sub|), sub, j))
  }

  /** A short row spread over `dim` columns without interpolation: the k-th
      value lands at the k-th of `|sub|` evenly spaced columns, and every
      other column is NaN (`SpreadElsewhere`). */
  function Spread<T>(sub: seq<Option<T>>, dim: nat): (out: seq<Option<T>>)
    requires 1 <= dim && |sub| <= dim
    ensures |out| == dim
    ensures forall k {:trigger out[SampleIndices(dim, |sub|)[k]]} :: 0 <= k < |sub| ==> out[SampleIndices(dim, |sub|)[k]] == sub[k]
  {
    SampleIndicesDistinct(dim, |sub|);
    ScatterDistinct(Missing(dim), SampleIndices(dim, |sub|), sub);
    Scatter(Missing(dim), SampleIndices(dim, |sub|), sub)
  }

  /** With an interpolant that passes through its knots, the k-th value of
      the short row appears at the k-th evenly spaced column. */
  lemma {:induction false} StretchedKnots<T(!new)>(sub: seq<Option<T>>, dim: nat, interp: Interpolator<T>, k: nat)
    requires 1 <= dim && |sub| <= dim && ExactAtKnots(interp) && k < |sub|
    ensures Stretched(sub, dim, interp)[SampleIndices(dim, |sub|)[k]] == sub[k]
  {
    var idx := SampleIndices(dim, |sub|);
    SampleIndicesDistinct(dim, |sub|);
    assert interp(idx, sub, idx[k]) == sub[k];
  }

  /** Every column that is not one of the evenly spaced ones is NaN. */
  lemma {:induction false} SpreadElsewhere<T>(sub: seq<Option<T>>, dim: nat, j: nat)
    requires 1 <= dim && |sub| <= dim && j < dim && j !in SampleIndices(dim, |sub|)
    ensures Spread(sub, dim)[j] == None
  {
    ScatterOutside(Missing(dim), SampleIndices(dim, |sub|), sub, j);
  }

  /** A full-width row spread over its own width is unchanged. */
  lemma {:induction false} SpreadFullWidth<T>(sub: seq<Option<T>>)
    requires |sub| >= 1
    ensures Spread(sub, |sub|) == sub
  {
    var dim := |sub|;
    var idx := SampleIndices(dim, dim);
    SampleIndicesFull(dim);
    forall j | 0 <= j < dim
      ensures Spread(sub, dim)[j] == sub[j]
    {
      assert idx[j] == j;
    }
  }

  /** A full-width row stretched over its own width by an interpolant that
      passes through its knots is unchanged. */
  lemma {:induction false} StretchedFullWidth<T(!new)>(sub: seq<Option<T>>, interp: Interpolator<T>)
    requires |sub| >= 1 && ExactAtKnots(interp)
    ensures Stretched(sub, |sub|, interp) == sub
  {
    var dim := |sub|;
    var idx := SampleIndices(dim, dim);
    SampleIndicesFull(dim);
    forall j | 0 <= j < dim
      ensures Stretched(sub, dim, interp)[j] == sub[j]
    {
      assert idx[j] == j;
      StretchedKnots(sub, dim, interp, j);
    }
  }

  /** `g.T` */
  function Transpose<T>(g: seq<seq<T>>, rows: nat, cols: nat): (t: seq<seq<T>>)
    requires IsMatrix(g, rows, cols)
    ensures IsMatrix(t, cols, rows)
    ensures forall i, j :: 0 <= i < rows && 0 <= j < cols ==> t[j][i] == g[i][j]
  {
    seq(cols, j requires 0 <= j < cols => seq(rows, i requires 0 <= i < rows => g[i][j]))
  }

  // ---------------------------------------------------------------------------
  // Stacking blocks of rows
  // ---------------------------------------------------------------------------

  /** Blocks of rows stacked vertically in order: block b occupies the rows
      after those of blocks 0..b-1. This is both the layout
      `output[i*ch:(i+1)*ch, :] = block_i` and NumPy's C-order reshape of an
      (n, ch, dim) cube into (n*ch, dim). */
  function Stack<T>(blocks: seq<seq<seq<T>>>): (g: seq<seq<T>>)
    ensures blocks != [] ==> blocks[0] <= g
    ensures |blocks| == 1 ==> g == blocks[0]
    decreases |blocks|
  {
    if blocks == [] then []
    else Stack(blocks[..|blocks| - 1]) + blocks[|blocks| - 1]
  }

  predicate AllBlocks<T>(blocks: seq<seq<seq<T>>>, ch: nat, dim: nat) {
    forall b :: 0 <= b < |blocks| ==> IsMatrix(blocks[b], ch, dim)
  }

  /** n blocks of ch rows make n*ch rows of the same width. */
  lemma {:induction false} StackShape<T>(blocks: seq<seq<seq<T>>>, ch: nat, dim: nat)
    requires AllBlocks(blocks, ch, dim)
    ensures IsMatrix(Stack(blocks), |blocks| * ch, dim)
  {
    if blocks != [] {
      var n := |blocks| - 1;
      StackShape(blocks[..n], ch, dim);
      assert |blocks| * ch == n * ch + ch;
    }
  }

  /** Row i*ch + r of the stack is row r of block i: block order follows the
      list, and inside a block the rows keep their order. */
  lemma {:induction false} StackAt<T>(blocks: seq<seq<seq<T>>>, ch: nat, dim: nat, i: nat, r: nat)
    requires AllBlocks(blocks, ch, dim) && i < |blocks| && r < ch
    ensures i * ch + r < |Stack(blocks)| && Stack(blocks)[i * ch + r] == blocks[i][r]
  {
    var n := |blocks| - 1;
    StackShape(blocks[..n], ch, dim);
    if i < n {
      StackAt(blocks[..n], ch, dim, i, r);
      MulMonotone(i + 1, n, ch);
    }
  }

  /** Every row of the stack is row `row % ch` of block `row / ch`. */
  lemma {:induction false} StackCovers<T>(blocks: seq<seq<seq<T>>>, ch: nat, dim: nat, row: nat)
    requires AllBlocks(blocks, ch, dim) && row < |blocks| * ch
    ensures ch > 0 && row / ch < |blocks| && row == (row / ch) * ch + row % ch
    ensures row < |Stack(blocks)| && Stack(blocks)[row] == blocks[row / ch][row % ch]
  {
    var b := row / ch;
    assert row == b * ch + row % ch;
    MulCancelStrict(b, |blocks|, ch);
    StackAt(blocks, ch, dim, b, row % ch);
  }

  /** Adding one block: the stack of the first i+1 blocks is that of the first
      i followed by block i, and it still fits in the whole stack. */
  lemma StackStep<T>(blocks: seq<seq<seq<T>>>, ch: nat, dim: nat, i: nat)
    requires AllBlocks(blocks, ch, dim) && i < |blocks|
    ensures Stack(blocks[..i + 1]) == Stack(blocks[..i]) + blocks[i]
    ensures |Stack(blocks[..i + 1])| == |Stack(blocks[..i])| + ch <= |Stack(blocks)|
  {
    assert blocks[..i + 1][..i] == blocks[..i];
    StackShape(blocks[..i + 1], ch, dim);
    StackShape(blocks, ch, dim);
    MulMonotone(i + 1, |blocks|, ch);
  }

  // ---------------------------------------------------------------------------
  // Row writes on a 2-D array
  // ---------------------------------------------------------------------------

  /** `out[i, idx] = vals` */
  method ScatterRow<T>(out: array2<T>, i: nat, idx: seq<nat>, vals: seq<T>)
    requires i < out.Length0 && |idx| == |vals| && IndicesBelow(idx, out.Length1)
    modifies out
    ensures forall j :: 0 <= j < out.Length1 ==> out[i, j] == Scatter(old(Row(out, i)), idx, vals)[j]
    ensures forall i', j :: 0 <= i' < out.Length0 && i' != i && 0 <= j < out.Length1 ==>
      out[i', j] == old(out[i', j])
  {
    ghost var before := Row(out, i);
    for k := 0 to |idx|
      invariant forall j :: 0 <= j < out.Length1 ==> out[i, j] == Scatter(before, idx[..k], vals[..k])[j]
      invariant forall i', j :: 0 <= i' < out.Length0 && i' != i && 0 <= j < out.Length1 ==>
        out[i', j] == old(out[i', j])
    {
      out[i, idx[k]] := vals[k];
      assert idx[..k + 1][..k] == idx[..k] && vals[..k + 1][..k] == vals[..k];
    }
    assert idx[..|idx|] == idx && vals[..|vals|] == vals;
  }

  /** `out[i, lo:lo+len(vals)] = vals` */
  method AssignSlice<T>(out: array2<T>, i: nat, lo: nat, vals: seq<T>)
    requires i < out.Length0 && lo + |vals| <= out.Length1
    modifies out
    ensures forall j :: 0 <= j < out.Length1 ==>
      out[i, j] == if lo <= j < lo + |vals| then vals[j - lo] else old(out[i, j])
    ensures forall i', j :: 0 <= i' < out.Length0 && i' != i && 0 <= j < out.Length1 ==>
      out[i', j] == old(out[i', j])
  {
    for k := 0 to |vals|
      invariant forall j :: 0 <= j < out.Length1 ==>
        out[i, j] == if lo <= j < lo + k then vals[j - lo] else old(out[i, j])
      invariant forall i', j :: 0 <= i' < out.Length0 && i' != i && 0 <= j < out.Length1 ==>
        out[i', j] == old(out[i', j])
    {
      out[i, lo + k] := vals[k];
    }
  }

  // ---------------------------------------------------------------------------
  // A 3-D array of frames
  // ---------------------------------------------------------------------------

  /** `cube[f, c, :]` */
  function CubeRow<T>(cube: array3<T>, f: nat, c: nat): (row: seq<T>)
    requires f < cube.Length0 && c < cube.Length1
    reads cube
    ensures |row| == cube.Length2 && forall j :: 0 <= j < cube.Length2 ==> row[j] == cube[f, c, j]
  {
    seq(cube.Length2, j requires 0 <= j < cube.Length2 reads cube => cube[f, c, j])
  }

  /** `cube[f, :, :]` */
  function Slice<T>(cube: array3<T>, f: nat): (g: seq<seq<T>>)
    requires f < cube.Length0
    reads cube
    ensures IsMatrix(g, cube.Length1, cube.Length2)
    ensures forall c :: 0 <= c < cube.Length1 ==> g[c] == CubeRow(cube, f, c)
  {
    seq(cube.Length1, c requires 0 <= c < cube.Length1 reads cube => CubeRow(cube, f, c))
  }

  /** The value of a whole 3-D array, frame by frame. */
  function Slices<T>(cube: array3<T>): (bs: seq<seq<seq<T>>>)
    reads cube
    ensures |bs| == cube.Length0 && AllBlocks(bs, cube.Length1, cube.Length2)
    ensures forall f :: 0 <= f < cube.Length0 ==> bs[f] == Slice(cube, f)
  {
    seq(cube.Length0, f requires 0 <= f < cube.Length0 reads cube => Slice(cube, f))
  }

  /** Frame f of the cube holds the matrix g. */
  ghost predicate SliceHolds<T>(cube: array3<T>, f: nat, g: seq<seq<T>>)
    reads cube
  {
    f < cube.Length0 && IsMatrix(g, cube.Length1, cube.Length2) &&
    forall c, j :: 0 <= c < cube.Length1 && 0 <= j < cube.Length2 ==> cube[f, c, j] == g[c][j]
  }

  /** A frame all of whose cells agree with a matrix holds that matrix. */
  lemma SliceFromHolds<T>(cube: array3<T>, f: nat, g: seq<seq<T>>)
    requires SliceHolds(cube, f, g)
    ensures Slice(cube, f) == g
  {
    forall c | 0 <= c < cube.Length1
      ensures Slice(cube, f)[c] == g[c]
    {
    }
  }

  /** A cube every frame of which holds its block holds the blocks. */
  lemma SlicesFromHolds<T>(cube: array3<T>, blocks: seq<seq<seq<T>>>)
    requires |blocks| == cube.Length0 && forall f :: 0 <= f < cube.Length0 ==> SliceHolds(cube, f, blocks[f])
    ensures Slices(cube) == blocks
  {
    forall f | 0 <= f < cube.Length0
      ensures Slices(cube)[f] == blocks[f]
    {
      SliceFromHolds(cube, f, blocks[f]);
    }
  }

  /** Every cell of every frame from lo on is NaN. */
  ghost predicate CubeBlank<T>(cube: array3<Option<T>>, lo: nat)
    reads cube
  {
    forall f, c, j :: lo <= f < cube.Length0 && 0 <= c < cube.Length1 && 0 <= j < cube.Length2 ==>
      cube[f, c, j] == None
  }

  /** `cube[f, c, :] = vals` */
  method AssignCubeRow<T>(cube: array3<T>, f: nat, c: nat, vals: seq<T>)
    requires f < cube.Length0 && c < cube.Length1 && |vals| == cube.Length2
    modifies cube
    ensures forall j :: 0 <= j < cube.Length2 ==> cube[f, c, j] == vals[j]
    ensures forall f', c', j :: 0 <= f' < cube.Length0 && 0 <= c' < cube.Length1 && 0 <= j < cube.Length2 && (f' != f || c' != c) ==>
      cube[f', c', j] == old(cube[f', c', j])
  {
    for k := 0 to |vals|
      invariant forall j :: 0 <= j < k ==> cube[f, c, j] == vals[j]
      invariant forall f', c', j :: 0 <= f' < cube.Length0 && 0 <= c' < cube.Length1 && 0 <= j < cube.Length2 && (f' != f || c' != c) ==>
        cube[f', c', j] == old(cube[f', c', j])
    {
      cube[f, c, k] := vals[k];
    }
  }

  /** `cube[f, c, idx] = vals` */
  method ScatterCubeRow<T>(cube: array3<T>, f: nat, c: nat, idx: seq<nat>, vals: seq<T>)
    requires f < cube.Length0 && c < cube.Length1 && |idx| == |vals| && IndicesBelow(idx, cube.Length2)
    modifies cube
    ensures forall j :: 0 <= j < cube.Length2 ==> cube[f, c, j] == Scatter(old(CubeRow(cube, f, c)), idx, vals)[j]
    ensures forall f', c', j :: 0 <= f' < cube.Length0 && 0 <= c' < cube.Length1 && 0 <= j < cube.Length2 && (f' != f || c' != c) ==>
      cube[f', c', j] == old(cube[f', c', j])
  {
    ghost var before := CubeRow(cube, f, c);
    for k := 0 to |idx|
      invariant forall j :: 0 <= j < cube.Length2 ==> cube[f, c, j] == Scatter(before, idx[..k], vals[..k])[j]
      invariant forall f', c', j :: 0 <= f' < cube.Length0 && 0 <= c' < cube.Length1 && 0 <= j < cube.Length2 && (f' != f || c' != c) ==>
        cube[f', c', j] == old(cube[f', c', j])
    {
      cube[f, c, idx[k]] := vals[k];
      assert idx[..k + 1][..k] == idx[..k] && vals[..k + 1][..k] == vals[..k];
    }
    assert idx[..|idx|] == idx && vals[..|vals|] == vals;
  }

  /** `out[base:base+ch, :] = cube[f, :, :]` */
  method CopySlice<T>(out: array2<T>, cube: array3<T>, f: nat, base: nat)
    requires f < cube.Length0 && base + cube.Length1 <= out.Length0 && out.Length1 == cube.Length2
    modifies out
    ensures Holds(out, base, Slice(cube, f))
    ensures forall row, j :: 0 <= row < base && 0 <= j < out.Length1 ==> out[row, j] == old(out[row, j])
    ensures forall row, j :: base + cube.Length1 <= row < out.Length0 && 0 <= j < out.Length1 ==>
      out[row, j] == old(out[row, j])
  {
    for c := 0 to cube.Length1
      invariant forall c', j :: 0 <= c' < c && 0 <= j < out.Length1 ==> out[base + c', j] == cube[f, c', j]
      invariant forall row, j :: 0 <= row < base && 0 <= j < out.Length1 ==> out[row, j] == old(out[row, j])
      invariant forall row, j :: base + cube.Length1 <= row < out.Length0 && 0 <= j < out.Length1 ==>
        out[row, j] == old(out[row, j])
    {
      AssignSlice(out, base + c, 0, CubeRow(cube, f, c));
    }
  }

  /** `cube.reshape(n*ch, dim)`: NumPy's C-order reshape lays the frames of
      an (n, ch, dim) cube one below the other. */
  method Flatten<T>(cube: array3<Option<T>>) returns (out: array2<Option<T>>)
    ensures fresh(out)
    ensures out.Length0 == cube.Length0 * cube.Length1 && out.Length1 == cube.Length2
    ensures Contents(out) == Stack(Slices(cube))
  {
    var n, ch, dim := cube.Length0, cube.Length1, cube.Length2;
    ghost var blocks := Slices(cube);
    StackShape(blocks, ch, dim);
    out := new Option<T>[n * ch, dim]((_, _) => None);
    var f, base := 0, 0;
    while f < n
      invariant 0 <= f <= n && base == |Stack(blocks[..f])|
      invariant Holds(out, 0, Stack(blocks[..f]))
    {
      StackStep(blocks, ch, dim, f);
      ghost var prefix := Stack(blocks[..f]);
      CopySlice(out, cube, f, base);
      assert Holds(out, 0, prefix);
      HoldsAppend(out, prefix, blocks[f]);
      f, base := f + 1, base + ch;
    }
    assert blocks[..f] == blocks;
    ContentsFromCells(out, Stack(blocks));
  }
}
