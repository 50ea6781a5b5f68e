/** The sub-window convolution (`f_convolution`): overlapping frames of a
    fixed width slide over the window; each frame is stretched back to the
    full width and the frames are stacked, frame by frame. */
module Convolution {
  import opened IndexMath
  import opened Matrices

  /** Frame width (`subWinSize`), step between frame starts (`slideSize`)
      and number of frames (`n_subWin`). */
  datatype Layout = Layout(size: nat, slide: nat, frames: nat)

  /** A layout over `dim` columns: the step is positive and at most the
      width, the width at most the window, and there is a frame. */
  predicate Fits(dim: nat, lay: Layout) {
    1 <= lay.slide <= lay.size <= dim && 1 <= lay.frames
  }

  /** The frame count the transform computes: `ceil((dim - size) / slide) + 1`. */
  predicate Counted(dim: nat, lay: Layout) {
    Fits(dim, lay) && lay.frames == CeilDiv(dim - lay.size, lay.slide) + 1
  }

  /** `subWinSize = ceil(dim * a)`, `slideSize = ceil(subWinSize * b)`,
      `n_subWin = ceil((dim - subWinSize) / slideSize) + 1`. */
  function FrameLayout(dim: nat, sizeRatio: Ratio, slideRatio: Ratio): (lay: Layout)
    requires dim >= 1 && InUnitInterval(sizeRatio) && InUnitInterval(slideRatio)
    ensures Counted(dim, lay)
  {
    CeilMulUnit(dim, sizeRatio);
    var size := CeilMul(dim, sizeRatio);
    CeilMulUnit(size, slideRatio);
    var slide := CeilMul(size, slideRatio);
    Layout(size, slide, CeilDiv(dim - size, slide) + 1)
  }

  /** First column of frame f: `f*slide` while more than a frame's width
      remains, and otherwise the last `size` columns (`data[:, -size:]`). */
  function FrameStart(dim: nat, lay: Layout, f: nat): (start: nat)
    requires Fits(dim, lay) && f < lay.frames
    ensures start + lay.size <= dim
  {
    if dim - f * lay.slide > lay.size then f * lay.slide else dim - lay.size
  }

  // ---------------------------------------------------------------------------
  // Geometry of the frames
  // ---------------------------------------------------------------------------

  /** Every frame starts inside the window, so `window_remain` is never 0
      and the loop's `break` is never taken. */
  lemma {:induction false} RemainPositive(dim: nat, lay: Layout, f: nat)
    requires Counted(dim, lay) && f < lay.frames
    ensures f * lay.slide < dim
  {
    var c := lay.frames - 1;
    MulMonotone(f, c, lay.slide);
    if c > 0 {
      assert (c - 1) * lay.slide < dim - lay.size;
    }
  }

  /** Only the last frame is taken from the tail of the window: frame f
      starts at f*slide exactly when another frame follows it, and the last
      frame ends at the last column. */
  lemma {:induction false} TailIffLast(dim: nat, lay: Layout, f: nat)
    requires Counted(dim, lay) && f < lay.frames
    ensures dim - f * lay.slide > lay.size <==> f + 1 < lay.frames
    ensures FrameStart(dim, lay, f) == if f + 1 < lay.frames then f * lay.slide else dim - lay.size
  {
    var c := lay.frames - 1;
    if f + 1 < lay.frames {
      MulMonotone(f, c - 1, lay.slide);
      assert (c - 1) * lay.slide < dim - lay.size;
    } else {
      assert f == c;
    }
  }

  /** Frames start in order. */
  lemma {:induction false} FrameStartsIncrease(dim: nat, lay: Layout, f1: nat, f2: nat)
    requires Counted(dim, lay) && f1 <= f2 < lay.frames
    ensures FrameStart(dim, lay, f1) <= FrameStart(dim, lay, f2)
  {
    TailIffLast(dim, lay, f1);
    TailIffLast(dim, lay, f2);
    MulMonotone(f1, f2, lay.slide);
  }

  /** The frames cover the window: every column lies in some frame. */
  lemma {:induction false} FramesCoverWindow(dim: nat, lay: Layout, j: nat)
    requires Counted(dim, lay) && j < dim
    ensures exists f :: 0 <= f < lay.frames && FrameStart(dim, lay, f) <= j < FrameStart(dim, lay, f) + lay.size
  {
    var q := j / lay.slide;
    DivBounds(j, lay.slide);
    if q + 1 < lay.frames {
      TailIffLast(dim, lay, q);
      assert FrameStart(dim, lay, q) <= j < FrameStart(dim, lay, q) + lay.size;
    } else {
      var c := lay.frames - 1;
      TailIffLast(dim, lay, c);
      MulMonotone(c, q, lay.slide);
      assert FrameStart(dim, lay, c) <= j < FrameStart(dim, lay, c) + lay.size;
    }
  }

  // ---------------------------------------------------------------------------
  // The frames and the output matrix
  // ---------------------------------------------------------------------------

  /** One channel's frame f. Interpolated: the frame's values as knots at
      `size` evenly spaced columns over the whole window, and the interpolant
      evaluated at every column. Otherwise the frame's values placed at those
      columns, NaN elsewhere. */
  function FrameRow<T>(row: seq<Option<T>>, lay: Layout, f: nat, isIntrp: bool, interp: Interpolator<T>)
    : (out: seq<Option<T>>)
    requires |row| >= 1 && Fits(|row|, lay) && f < lay.frames
    ensures |out| == |row|
  {
    var start := FrameStart(|row|, lay, f);
    var sub := row[start..start + lay.size];
    if isIntrp then Stretched(sub, |row|, interp) else Spread(sub, |row|)
  }

  function FrameBlock<T>(g: Grid<T>, ch: nat, dim: nat, lay: Layout, f: nat, isIntrp: bool, interp: Interpolator<T>)
    : (b: Grid<T>)
    requires IsMatrix(g, ch, dim) && dim >= 1 && Fits(dim, lay) && f < lay.frames
    ensures IsMatrix(b, ch, dim)
  {
    seq(ch, c requires 0 <= c < ch => FrameRow(g[c], lay, f, isIntrp, interp))
  }

  function FrameBlocks<T>(g: Grid<T>, ch: nat, dim: nat, lay: Layout, isIntrp: bool, interp: Interpolator<T>)
    : (bs: seq<Grid<T>>)
    requires IsMatrix(g, ch, dim) && dim >= 1 && Fits(dim, lay)
    ensures |bs| == lay.frames && AllBlocks(bs, ch, dim)
  {
    seq(lay.frames, f requires 0 <= f < lay.frames => FrameBlock(g, ch, dim, lay, f, isIntrp, interp))
  }

  /** The matrix `f_convolution` returns: the frames of every channel,
      stacked frame by frame. */
  function Convolved<T>(g: Grid<T>, ch: nat, dim: nat, sizeRatio: Ratio, slideRatio: Ratio, isIntrp: bool,
                        interp: Interpolator<T>): (out: Grid<T>)
    requires IsMatrix(g, ch, dim) && dim >= 1 && InUnitInterval(sizeRatio) && InUnitInterval(slideRatio)
    ensures IsMatrix(out, FrameLayout(dim, sizeRatio, slideRatio).frames * ch, dim)
  {
    var blocks := FrameBlocks(g, ch, dim, FrameLayout(dim, sizeRatio, slideRatio), isIntrp, interp);
    StackShape(blocks, ch, dim);
    Stack(blocks)
  }

  // ---------------------------------------------------------------------------
  // Properties
  // ---------------------------------------------------------------------------

  /** Frame-major order: row f*ch + c is channel c's frame f. */
  lemma {:induction false} ConvolvedRow<T>(g: Grid<T>, ch: nat, dim: nat, sizeRatio: Ratio, slideRatio: Ratio,
                                          isIntrp: bool, interp: Interpolator<T>, f: nat, c: nat)
    requires IsMatrix(g, ch, dim) && dim >= 1 && InUnitInterval(sizeRatio) && InUnitInterval(slideRatio)
    requires f < FrameLayout(dim, sizeRatio, slideRatio).frames && c < ch
    ensures f * ch + c < |Convolved(g, ch, dim, sizeRatio, slideRatio, isIntrp, interp)|
    ensures Convolved(g, ch, dim, sizeRatio, slideRatio, isIntrp, interp)[f * ch + c] ==
      FrameRow(g[c], FrameLayout(dim, sizeRatio, slideRatio), f, isIntrp, interp)
  {
    var lay := FrameLayout(dim, sizeRatio, slideRatio);
    var blocks := FrameBlocks(g, ch, dim, lay, isIntrp, interp);
    assert Convolved(g, ch, dim, sizeRatio, slideRatio, isIntrp, interp) == Stack(blocks);
    StackAt(blocks, ch, dim, f, c);
    assert blocks[f] == FrameBlock(g, ch, dim, lay, f, isIntrp, interp);
  }

  /** Without interpolation, the k-th value of frame f lands at the k-th
      evenly spaced column. */
  lemma {:induction false} FramePlacement<T>(row: seq<Option<T>>, lay: Layout, f: nat, interp: Interpolator<T>, k: nat)
    requires |row| >= 1 && Fits(|row|, lay) && f < lay.frames && k < lay.size
    ensures FrameRow(row, lay, f, false, interp)[SampleIndices(|row|, lay.size)[k]] == row[FrameStart(|row|, lay, f) + k]
  {
    var start := FrameStart(|row|, lay, f);
    var sub := row[start..start + lay.size];
    assert sub[k] == row[start + k];
  }

  /** Without interpolation, every column of frame f that is not one of the
      evenly spaced ones is NaN. */
  lemma {:induction false} FrameGaps<T>(row: seq<Option<T>>, lay: Layout, f: nat, interp: Interpolator<T>, j: nat)
    requires |row| >= 1 && Fits(|row|, lay) && f < lay.frames && j < |row|
    requires j !in SampleIndices(|row|, lay.size)
    ensures FrameRow(row, lay, f, false, interp)[j] == None
  {
    var start := FrameStart(|row|, lay, f);
    var sub := row[start..start + lay.size];
    assert FrameRow(row, lay, f, false, interp) == Spread(sub, |row|);
    SpreadElsewhere(sub, |row|, j);
  }

  /** Interpolated, with an interpolant that passes through its knots, the
      k-th value of frame f appears at the k-th evenly spaced column. */
  lemma {:induction false} FrameKnots<T(!new)>(row: seq<Option<T>>, lay: Layout, f: nat, interp: Interpolator<T>, k: nat)
    requires |row| >= 1 && Fits(|row|, lay) && f < lay.frames && ExactAtKnots(interp) && k < lay.size
    ensures FrameRow(row, lay, f, true, interp)[SampleIndices(|row|, lay.size)[k]] == row[FrameStart(|row|, lay, f) + k]
  {
    var start := FrameStart(|row|, lay, f);
    var sub := row[start..start + lay.size];
    assert FrameRow(row, lay, f, true, interp) == Stretched(sub, |row|, interp);
    StretchedKnots(sub, |row|, interp, k);
  }

  /** A sub-window as wide as the window makes a single frame, the window
      itself. */
  lemma {:induction false} FullSubWindowLayout(dim: nat, sizeRatio: Ratio, slideRatio: Ratio)
    requires dim >= 1 && InUnitInterval(sizeRatio) && InUnitInterval(slideRatio)
    requires sizeRatio.num == sizeRatio.den
    ensures var lay := FrameLayout(dim, sizeRatio, slideRatio);
      lay.size == dim && lay.frames == 1 && FrameStart(dim, lay, 0) == 0
  {
    var lay := FrameLayout(dim, sizeRatio, slideRatio);
    MulCancel(dim, lay.size, sizeRatio.den);
  }

  /** A frame as wide as the window, starting at its first column, is the
      channel itself. */
  lemma {:induction false} FullFrameRow<T(!new)>(row: seq<Option<T>>, lay: Layout, isIntrp: bool, interp: Interpolator<T>)
    requires |row| >= 1 && Fits(|row|, lay) && lay.size == |row| && FrameStart(|row|, lay, 0) == 0
    requires isIntrp ==> ExactAtKnots(interp)
    ensures FrameRow(row, lay, 0, isIntrp, interp) == row
  {
    var sub := row[0..0 + |row|];
    assert sub == row;
    if isIntrp {
      assert FrameRow(row, lay, 0, isIntrp, interp) == Stretched(sub, |row|, interp);
      StretchedFullWidth(row, interp);
    } else {
      assert FrameRow(row, lay, 0, isIntrp, interp) == Spread(sub, |row|);
      SpreadFullWidth(row);
    }
  }

  /** A sub-window as wide as the window reproduces the input (interpolated,
      for an interpolant that passes through its knots). */
  lemma {:induction false} FullSubWindowIsIdentity<T(!new)>(g: Grid<T>, ch: nat, dim: nat, sizeRatio: Ratio,
                                                           slideRatio: Ratio, isIntrp: bool, interp: Interpolator<T>)
    requires IsMatrix(g, ch, dim) && dim >= 1 && InUnitInterval(sizeRatio) && InUnitInterval(slideRatio)
    requires sizeRatio.num == sizeRatio.den
    requires isIntrp ==> ExactAtKnots(interp)
    ensures Convolved(g, ch, dim, sizeRatio, slideRatio, isIntrp, interp) == g
  {
    var lay := FrameLayout(dim, sizeRatio, slideRatio);
    FullSubWindowLayout(dim, sizeRatio, slideRatio);
    var blocks := FrameBlocks(g, ch, dim, lay, isIntrp, interp);
    forall c | 0 <= c < ch
      ensures blocks[0][c] == g[c]
    {
      FullFrameRow(g[c], lay, isIntrp, interp);
    }
    assert blocks == [blocks[0]] && blocks[..0] == [];
    assert Stack(blocks) == blocks[0];
  }

  // ---------------------------------------------------------------------------
  // The placement as written
  // ---------------------------------------------------------------------------

  /** `output[f, :, idx_pts] = subframe` as NumPy evaluates it. The integer f
      and the index row idx_pts are advanced indices separated by a slice, so
      the indexed target has shape (len(idx_pts), ch) while subframe has shape
      (ch, len(idx_pts)): the assignment raises (None) unless ch equals the
      frame width, and when it does, channel c receives column c of the frame
      instead of its own row. */
  function AsWrittenSparseFrame<T>(sub: Grid<T>, ch: nat, idx: seq<nat>, dim: nat): (r: Option<Grid<T>>)
    requires IsMatrix(sub, ch, |idx|) && IndicesBelow(idx, dim)
    ensures r.Some? <==> ch == |idx|
    ensures r.Some? ==> IsMatrix(r.value, ch, dim)
  {
    if ch != |idx| then None
    else Some(seq(ch, c requires 0 <= c < ch => Scatter(Missing(dim), idx, seq(|idx|, k requires 0 <= k < |idx| => sub[k][c]))))
  }

  /** With the default sub-window ratio 1/2 and 100 columns the frame is 50
      columns wide, so the placement as written raises for a 3-channel input,
      whereas each channel's frame is well defined. */
  lemma AsWrittenRejectsThreeChannels(sub: Grid<int>)
    requires IsMatrix(sub, 3, 50)
    ensures FrameLayout(100, Ratio(1, 2), Ratio(1, 2)).size == 50
    ensures AsWrittenSparseFrame(sub, 3, SampleIndices(100, 50), 100) == None
  {
    assert CeilMul(100, Ratio(1, 2)) == 50;
  }

  /** With as many channels as frame columns (2 and 2) the placement as
      written transposes: channel 0 receives [1, 3] where its frame is [1, 2]. */
  lemma AsWrittenTransposes()
    ensures var sub: Grid<int> := [[Some(1), Some(2)], [Some(3), Some(4)]];
      && AsWrittenSparseFrame(sub, 2, [0, 1], 2) == Some([[Some(1), Some(3)], [Some(2), Some(4)]])
      && Spread(sub[0], 2) == sub[0]
  {
    var sub: Grid<int> := [[Some(1), Some(2)], [Some(3), Some(4)]];
    var idx: seq<nat> := [0, 1];
    assert idx[..1] == [0] && idx[..1][..0] == [];
    forall c | 0 <= c < 2
      ensures Scatter(Missing(2), idx, seq(2, k requires 0 <= k < 2 => sub[k][c])) == [sub[0][c], sub[1][c]]
    {
      var col := seq(2, k requires 0 <= k < 2 => sub[k][c]);
      assert col[..1] == [sub[0][c]] && col[..1][..0] == [];
      assert Scatter(Missing(2), [0], [sub[0][c]]) == [sub[0][c], None];
    }
    var r := AsWrittenSparseFrame(sub, 2, idx, 2);
    assert r.value[0] == [Some(1), Some(3)] && r.value[1] == [Some(2), Some(4)];
    assert r.value == [[Some(1), Some(3)], [Some(2), Some(4)]];
    SpreadFullWidth(sub[0]);
  }

  // ---------------------------------------------------------------------------
  // The transform
  // ---------------------------------------------------------------------------

  /** Frame f holds the rows of `block` before channel c and NaN from c on. */
  ghost predicate FilledBelow<T>(cube: array3<Option<T>>, f: nat, block: Grid<T>, c: nat)
    reads cube
  {
    f < cube.Length0 && IsMatrix(block, cube.Length1, cube.Length2) &&
    forall c', j :: 0 <= c' < cube.Length1 && 0 <= j < cube.Length2 ==>
      cube[f, c', j] == if c' < c then block[c'][j] else None
  }

  /** Row c of frame f's block is channel c's sub-window, interpolated or
      placed at the sampled columns. */
  lemma FrameBlockRow<T>(g: Grid<T>, ch: nat, dim: nat, lay: Layout, f: nat, isIntrp: bool,
                         interp: Interpolator<T>, c: nat, sub: seq<Option<T>>)
    requires IsMatrix(g, ch, dim) && dim >= 1 && Fits(dim, lay) && f < lay.frames && c < ch
    requires sub == g[c][FrameStart(dim, lay, f)..FrameStart(dim, lay, f) + lay.size]
    ensures FrameBlock(g, ch, dim, lay, f, isIntrp, interp)[c] ==
      if isIntrp then Stretched(sub, dim, interp) else Spread(sub, dim)
  {
    assert FrameBlock(g, ch, dim, lay, f, isIntrp, interp)[c] == FrameRow(g[c], lay, f, isIntrp, interp);
  }

  /** `output[f, c, :] = ...` from channel c's frame values `sub`: the
      interpolant through them at every column, or the values at the sampled
      columns of a row that holds NaN. */
  method WriteFrameRow<T>(cube: array3<Option<T>>, f: nat, c: nat, sub: seq<Option<T>>, idx: seq<nat>,
                          isIntrp: bool, interp: Interpolator<T>, ghost vals: seq<Option<T>>)
    requires f < cube.Length0 && c < cube.Length1 && 1 <= cube.Length2 && |sub| <= cube.Length2
    requires idx == SampleIndices(cube.Length2, |sub|)
    requires vals == if isIntrp then Stretched(sub, cube.Length2, interp) else Spread(sub, cube.Length2)
    requires forall j :: 0 <= j < cube.Length2 ==> cube[f, c, j] == None
    modifies cube
    ensures forall j :: 0 <= j < cube.Length2 ==> cube[f, c, j] == vals[j]
    ensures forall f', c', j :: 0 <= f' < cube.Length0 && 0 <= c' < cube.Length1 && 0 <= j < cube.Length2 && (f' != f || c' != c) ==>
      cube[f', c', j] == old(cube[f', c', j])
  {
    if isIntrp {
      AssignCubeRow(cube, f, c, Stretched(sub, cube.Length2, interp));
    } else {
      assert CubeRow(cube, f, c) == Missing(cube.Length2);
      ScatterCubeRow(cube, f, c, idx, sub);
    }
  }

  /** Channel c of frame f starting at column `start`: row c of the frame's
      block, written over the NaN row. */
  method FillChannel<T>(cube: array3<Option<T>>, data: array2<Option<T>>, lay: Layout, f: nat, c: nat,
                        start: nat, idx: seq<nat>, isIntrp: bool, interp: Interpolator<T>, ghost block: Grid<T>)
    requires cube.Length1 == data.Length0 && cube.Length2 == data.Length1 >= 1 && c < data.Length0
    requires Fits(data.Length1, lay) && f < lay.frames
    requires start == FrameStart(data.Length1, lay, f) && idx == SampleIndices(data.Length1, lay.size)
    requires block == FrameBlock(Contents(data), data.Length0, data.Length1, lay, f, isIntrp, interp)
    requires FilledBelow(cube, f, block, c)
    modifies cube
    ensures FilledBelow(cube, f, block, c + 1)
    ensures forall f', c', j :: 0 <= f' < cube.Length0 && f' != f && 0 <= c' < cube.Length1 && 0 <= j < cube.Length2 ==>
      cube[f', c', j] == old(cube[f', c', j])
  {
    var sub := Row(data, c)[start..start + lay.size];
    assert sub == Contents(data)[c][start..start + lay.size];
    FrameBlockRow(Contents(data), data.Length0, cube.Length2, lay, f, isIntrp, interp, c, sub);
    WriteFrameRow(cube, f, c, sub, idx, isIntrp, interp, block[c]);
  }

  /** `output[f, :, :]` for frame f starting at column `start`: every
      channel's frame, interpolated or placed at the sampled columns. */
  method FillFrame<T>(cube: array3<Option<T>>, data: array2<Option<T>>, lay: Layout, f: nat, start: nat,
                      idx: seq<nat>, isIntrp: bool, interp: Interpolator<T>, ghost blocks: seq<Grid<T>>)
    requires cube.Length1 == data.Length0 && cube.Length2 == data.Length1 >= 1
    requires Fits(data.Length1, lay) && f < lay.frames == cube.Length0
    requires start == FrameStart(data.Length1, lay, f) && idx == SampleIndices(data.Length1, lay.size)
    requires blocks == FrameBlocks(Contents(data), data.Length0, data.Length1, lay, isIntrp, interp)
    requires CubeBlank(cube, f)
    modifies cube
    ensures SliceHolds(cube, f, blocks[f])
    ensures CubeBlank(cube, f + 1)
    ensures forall f', c, j :: 0 <= f' < f && 0 <= c < cube.Length1 && 0 <= j < cube.Length2 ==>
      cube[f', c, j] == old(cube[f', c, j])
  {
    ghost var block := FrameBlock(Contents(data), data.Length0, data.Length1, lay, f, isIntrp, interp);
    assert blocks[f] == block;
    for c := 0 to data.Length0
      invariant FilledBelow(cube, f, block, c)
      invariant forall f', c', j :: 0 <= f' < cube.Length0 && f' != f && 0 <= c' < cube.Length1 && 0 <= j < cube.Length2 ==>
        cube[f', c', j] == old(cube[f', c', j])
    {
      FillChannel(cube, data, lay, f, c, start, idx, isIntrp, interp, block);
    }
  }

  /** The frame loop of `f_convolution`: fills every frame of a NaN cube
      from its sub-window. */
  method FillFrames<T>(cube: array3<Option<T>>, data: array2<Option<T>>, lay: Layout, idx: seq<nat>,
                       isIntrp: bool, interp: Interpolator<T>)
    requires cube.Length1 == data.Length0 && cube.Length2 == data.Length1 >= 1
    requires Counted(data.Length1, lay) && lay.frames == cube.Length0
    requires idx == SampleIndices(data.Length1, lay.size) && CubeBlank(cube, 0)
    modifies cube
    ensures Slices(cube) == FrameBlocks(Contents(data), data.Length0, data.Length1, lay, isIntrp, interp)
  {
    var ch, dim := data.Length0, data.Length1;
    ghost var g := Contents(data);
    ghost var blocks := FrameBlocks(g, ch, dim, lay, isIntrp, interp);
    for f := 0 to lay.frames
      invariant forall f' :: 0 <= f' < f ==> SliceHolds(cube, f', blocks[f'])
      invariant CubeBlank(cube, f)
    {
      RemainPositive(dim, lay, f);
      var remain := dim - f * lay.slide;
      if remain == 0 {
        break;
      }
      var start := if remain > lay.size then f * lay.slide else dim - lay.size;
      label Before:
      FillFrame(cube, data, lay, f, start, idx, isIntrp, interp, blocks);
      forall f' | 0 <= f' < f + 1
        ensures SliceHolds(cube, f', blocks[f'])
      {
        if f' < f {
          assert old@Before(SliceHolds(cube, f', blocks[f']));
        }
      }
    }
    SlicesFromHolds(cube, blocks);
  }

  /** `f_convolution(data, convSubWinsize, convSubWinSlide, isIntrp)`:
      preallocates a NaN cube of n_subWin frames, fills frame f from its
      sub-window, and flattens the cube frame by frame. */
  method Convolve<T>(data: array2<Option<T>>, sizeRatio: Ratio, slideRatio: Ratio, isIntrp: bool,
                     interp: Interpolator<T>) returns (out: array2<Option<T>>)
    requires data.Length1 >= 1 && InUnitInterval(sizeRatio) && InUnitInterval(slideRatio)
    requires isIntrp ==> CeilMul(data.Length1, sizeRatio) >= 2
    ensures fresh(out)
    ensures out.Length0 == FrameLayout(data.Length1, sizeRatio, slideRatio).frames * data.Length0
    ensures out.Length1 == data.Length1
    ensures Contents(out) == Convolved(Contents(data), data.Length0, data.Length1, sizeRatio, slideRatio, isIntrp, interp)
  {
    var ch, dim := data.Length0, data.Length1;
    var lay := FrameLayout(dim, sizeRatio, slideRatio);
    var idx := SampleIndices(dim, lay.size);
    var cube := new Option<T>[lay.frames, ch, dim]((_, _, _) => None);
    FillFrames(cube, data, lay, idx, isIntrp, interp);
    out := Flatten(cube);
  }
}
