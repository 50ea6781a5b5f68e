/** The scale expander (`f_multiscale`): for every scale factor, a block of
    `ch` rows holding the window re-sampled at that scale. */
module MultiScale {
  import opened IndexMath
  import opened Matrices

  /** The columns sampled at scale ms: `int(dim*ms)` evenly spaced, rounded
      positions over [0, dim-1]. */
  function ScaleIndices(dim: nat, ms: Ratio): (idx: seq<nat>)
    requires dim >= 1 && InUnitInterval(ms)
    ensures |idx| == FloorMul(dim, ms) && IndicesBelow(idx, dim)
  {
    SampleIndices(dim, FloorMul(dim, ms))
  }

  /** One channel at scale ms. Interpolated: the interpolant through the
      sampled columns, evaluated at every column; otherwise the sampled values
      left at their own columns, NaN elsewhere. */
  function ScaleRow<T>(row: seq<Option<T>>, ms: Ratio, isIntrp: bool, interp: Interpolator<T>): (out: seq<Option<T>>)
    requires |row| >= 1 && InUnitInterval(ms)
    ensures |out| == |row|
  {
    var dim := |row|;
    var idx := ScaleIndices(dim, ms);
    if isIntrp then seq(dim, j requires 0 <= j < dim => interp(idx, Gather(row, idx), j))
    else Scatter(Missing(dim), idx, Gather(row, idx))
  }

  /** Every channel of g at scale ms: one block of the output. */
  function ScaleBlock<T>(g: Grid<T>, ch: nat, dim: nat, ms: Ratio, isIntrp: bool, interp: Interpolator<T>): (b: Grid<T>)
    requires IsMatrix(g, ch, dim) && dim >= 1 && InUnitInterval(ms)
    ensures IsMatrix(b, ch, dim)
  {
    seq(ch, r requires 0 <= r < ch => ScaleRow(g[r], ms, isIntrp, interp))
  }

  function ScaleBlocks<T>(g: Grid<T>, ch: nat, dim: nat, scales: seq<Ratio>, isIntrp: bool, interp: Interpolator<T>)
    : (bs: seq<Grid<T>>)
    requires IsMatrix(g, ch, dim) && dim >= 1 && AllInUnitInterval(scales)
    ensures |bs| == |scales| && AllBlocks(bs, ch, dim)
  {
    seq(|scales|, i requires 0 <= i < |scales| => ScaleBlock(g, ch, dim, scales[i], isIntrp, interp))
  }

  /** The matrix `f_multiscale` returns: the blocks of all scales, stacked in
      list order. */
  function MultiScaled<T>(g: Grid<T>, ch: nat, dim: nat, scales: seq<Ratio>, isIntrp: bool, interp: Interpolator<T>): (out: Grid<T>)
    requires IsMatrix(g, ch, dim) && dim >= 1 && AllInUnitInterval(scales)
    ensures IsMatrix(out, |scales| * ch, dim)
  {
    var blocks := ScaleBlocks(g, ch, dim, scales, isIntrp, interp);
    StackShape(blocks, ch, dim);
    Stack(blocks)
  }

  // ---------------------------------------------------------------------------
  // Properties
  // ---------------------------------------------------------------------------

  /** The sampled columns: `int(dim*ms)` of them, inside the window, strictly
      increasing, from the first to the last column once there are two, and
      every column when ms is 1. */
  lemma {:induction false} ScaleIndicesShape(dim: nat, ms: Ratio)
    requires dim >= 1 && InUnitInterval(ms)
    ensures var idx := ScaleIndices(dim, ms);
      && |idx| <= dim
      && StrictlyIncreasing(idx)
      && (|idx| >= 2 ==> idx[0] == 0 && idx[|idx| - 1] == dim - 1)
      && (ms.num == ms.den ==> idx == seq(dim, k => k))
  {
    var n := FloorMul(dim, ms);
    FloorMulUnit(dim, ms);
    SampleIndicesDistinct(dim, n);
    SampleIndicesShape(dim, n);
    if ms.num == ms.den {
      SampleIndicesFull(dim);
    }
  }

  /** Block order follows the list: row i*ch + r is channel r at scale scales[i]. */
  lemma {:induction false} MultiScaleBlock<T>(g: Grid<T>, ch: nat, dim: nat, scales: seq<Ratio>, isIntrp: bool,
                                             interp: Interpolator<T>, i: nat, r: nat)
    requires IsMatrix(g, ch, dim) && dim >= 1 && AllInUnitInterval(scales)
    requires i < |scales| && r < ch
    ensures i * ch + r < |scales| * ch
    ensures MultiScaled(g, ch, dim, scales, isIntrp, interp)[i * ch + r] == ScaleRow(g[r], scales[i], isIntrp, interp)
  {
    var blocks := ScaleBlocks(g, ch, dim, scales, isIntrp, interp);
    StackShape(blocks, ch, dim);
    assert MultiScaled(g, ch, dim, scales, isIntrp, interp) == Stack(blocks);
    StackAt(blocks, ch, dim, i, r);
    assert blocks[i] == ScaleBlock(g, ch, dim, scales[i], isIntrp, interp);
  }

  /** Block order follows the list, and without interpolation cell
      (i*ch + r, j) is the input's (r, j) when column j is sampled at scale
      scales[i], and NaN otherwise. */
  lemma {:induction false} MultiScaleCell<T>(g: Grid<T>, ch: nat, dim: nat, scales: seq<Ratio>, interp: Interpolator<T>,
                                            i: nat, r: nat, j: nat)
    requires IsMatrix(g, ch, dim) && dim >= 1 && AllInUnitInterval(scales)
    requires i < |scales| && r < ch && j < dim
    ensures i * ch + r < |scales| * ch
    ensures MultiScaled(g, ch, dim, scales, false, interp)[i * ch + r][j] ==
      if j in ScaleIndices(dim, scales[i]) then g[r][j] else None
  {
    MultiScaleBlock(g, ch, dim, scales, false, interp, i, r);
    ScatterGathered(Missing(dim), g[r], ScaleIndices(dim, scales[i]), j);
  }

  /** Interpolated, row i*ch + r is channel r's interpolant through the
      knots (idx, g[r][idx]) of scale scales[i], evaluated at every column. */
  lemma {:induction false} MultiScaleKnots<T>(g: Grid<T>, ch: nat, dim: nat, scales: seq<Ratio>, interp: Interpolator<T>,
                                             i: nat, r: nat, j: nat)
    requires IsMatrix(g, ch, dim) && dim >= 1 && AllInUnitInterval(scales)
    requires i < |scales| && r < ch && j < dim
    ensures i * ch + r < |scales| * ch
    ensures var idx := ScaleIndices(dim, scales[i]);
      MultiScaled(g, ch, dim, scales, true, interp)[i * ch + r][j] ==
        interp(idx, seq(|idx|, k requires 0 <= k < |idx| => g[r][idx[k]]), j)
  {
    MultiScaleBlock(g, ch, dim, scales, true, interp, i, r);
    var idx := ScaleIndices(dim, scales[i]);
    assert Gather(g[r], idx) == seq(|idx|, k requires 0 <= k < |idx| => g[r][idx[k]]);
  }

  /** Scale 1 reproduces the channel: the sparse block is the input, and so is
      the interpolated block for an interpolant that passes through its knots. */
  lemma {:induction false} UnitScaleIsIdentity<T(!new)>(row: seq<Option<T>>, ms: Ratio, isIntrp: bool, interp: Interpolator<T>)
    requires |row| >= 1 && InUnitInterval(ms) && ms.num == ms.den
    requires isIntrp ==> ExactAtKnots(interp)
    ensures ScaleRow(row, ms, isIntrp, interp) == row
  {
    var dim := |row|;
    var idx := ScaleIndices(dim, ms);
    ScaleIndicesShape(dim, ms);
    forall j | 0 <= j < dim
      ensures ScaleRow(row, ms, isIntrp, interp)[j] == row[j]
    {
      assert idx[j] == j;
      if isIntrp {
        assert interp(idx, Gather(row, idx), idx[j]) == Gather(row, idx)[j];
      } else {
        ScatterGathered(Missing(dim), row, idx, j);
      }
    }
  }

  /** The interpolated block densifies the sparse one: wherever the sparse
      block has a sampled cell, an interpolant through its knots agrees. */
  lemma {:induction false} InterpolationDensifies<T(!new)>(row: seq<Option<T>>, ms: Ratio, interp: Interpolator<T>, j: nat)
    requires |row| >= 1 && InUnitInterval(ms) && ExactAtKnots(interp) && j < |row|
    requires j in ScaleIndices(|row|, ms)
    ensures ScaleRow(row, ms, true, interp)[j] == ScaleRow(row, ms, false, interp)[j] == row[j]
  {
    var dim := |row|;
    var idx := ScaleIndices(dim, ms);
    ScaleIndicesShape(dim, ms);
    ScatterGathered(Missing(dim), row, idx, j);
    var k :| 0 <= k < |idx| && idx[k] == j;
    assert interp(idx, Gather(row, idx), idx[k]) == Gather(row, idx)[k];
  }

  // ---------------------------------------------------------------------------
  // The transform
  // ---------------------------------------------------------------------------

  /** `output[base:base+ch, :]` for one scale: every channel of `data` at
      scale ms, written into rows that still hold NaN. */
  method FillScaleBlock<T>(out: array2<Option<T>>, data: array2<Option<T>>, base: nat, ms: Ratio,
                           isIntrp: bool, interp: Interpolator<T>)
    requires out != data && out.Length1 == data.Length1 >= 1 && InUnitInterval(ms)
    requires base + data.Length0 <= out.Length0 && Blank(out, base)
    modifies out
    ensures Holds(out, base, ScaleBlock(Contents(data), data.Length0, data.Length1, ms, isIntrp, interp))
    ensures Blank(out, base + data.Length0)
    ensures forall row, j :: 0 <= row < base && 0 <= j < out.Length1 ==> out[row, j] == old(out[row, j])
  {
    var ch, dim := data.Length0, data.Length1;
    var idx := ScaleIndices(dim, ms);
    for r := 0 to ch
      invariant forall row, j :: base <= row < base + r && 0 <= j < dim ==>
        out[row, j] == ScaleRow(Row(data, row - base), ms, isIntrp, interp)[j]
      invariant forall row, j :: base + r <= row < out.Length0 && 0 <= j < dim ==> out[row, j] == None
      invariant forall row, j :: 0 <= row < base && 0 <= j < dim ==> out[row, j] == old(out[row, j])
    {
      var samples := Gather(Row(data, r), idx);
      if isIntrp {
        AssignSlice(out, base + r, 0, seq(dim, j requires 0 <= j < dim => interp(idx, samples, j)));
      } else {
        assert Row(out, base + r) == Missing(dim);
        ScatterRow(out, base + r, idx, samples);
      }
    }
    ghost var block := ScaleBlock(Contents(data), ch, dim, ms, isIntrp, interp);
    forall r, j | 0 <= r < ch && 0 <= j < dim
      ensures out[base + r, j] == block[r][j]
    {
      assert block[r] == ScaleRow(Row(data, r), ms, isIntrp, interp);
    }
  }

  /** `f_multiscale(data, scales, isIntrp)`: preallocates a NaN matrix of
      len(scales)*ch rows and fills block i with every channel at scales[i]. */
  method Expand<T>(data: array2<Option<T>>, scales: seq<Ratio>, isIntrp: bool, interp: Interpolator<T>)
    returns (out: array2<Option<T>>)
    requires data.Length1 >= 1 && AllInUnitInterval(scales)
    requires isIntrp ==> AllKeepTwo(data.Length1, scales)
    ensures fresh(out)
    ensures out.Length0 == |scales| * data.Length0 && out.Length1 == data.Length1
    ensures Contents(out) == MultiScaled(Contents(data), data.Length0, data.Length1, scales, isIntrp, interp)
  {
    var ch, dim := data.Length0, data.Length1;
    out := new Option<T>[|scales| * ch, dim]((_, _) => None);
    ghost var g := Contents(data);
    ghost var blocks := ScaleBlocks(g, ch, dim, scales, isIntrp, interp);
    StackShape(blocks, ch, dim);
    var i, base := 0, 0;
    while i < |scales|
      invariant 0 <= i <= |scales| && base == |Stack(blocks[..i])|
      invariant Holds(out, 0, Stack(blocks[..i])) && Blank(out, base)
    {
      StackStep(blocks, ch, dim, i);
      ghost var prefix := Stack(blocks[..i]);
      FillScaleBlock(out, data, base, scales[i], isIntrp, interp);
      assert Holds(out, 0, prefix);
      assert blocks[i] == ScaleBlock(g, ch, dim, scales[i], isIntrp, interp);
      HoldsAppend(out, prefix, blocks[i]);
      i, base := i + 1, base + ch;
    }
    assert blocks[..i] == blocks;
    ContentsFromCells(out, Stack(blocks));
  }
}
