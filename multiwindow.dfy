/** The window truncator (`f_multiwindow`): for every window factor, a block
    of `ch` rows keeping only the most recent part of the window. */
module MultiWindow {
  import opened IndexMath
  import opened Matrices

  /** First column of the slice `[-len:]` over `dim` columns. Python reads
      `-0` as `0`, so a zero length selects the whole row. */
  function TailStart(dim: nat, len: nat): (t: nat)
    requires len <= dim
    ensures len > 0 ==> t + len == dim
    ensures len == 0 ==> t == 0
  {
    if len == 0 then 0 else dim - len
  }

  /** `int(dim*mw)`: how many trailing columns window factor mw keeps. */
  function WindowLength(dim: nat, mw: Ratio): (len: nat)
    requires dim >= 1 && InUnitInterval(mw)
    ensures len <= dim && (len == dim <==> mw.num == mw.den)
  {
    FloorMulUnit(dim, mw);
    FloorMul(dim, mw)
  }

  /** One channel under window factor mw. Interpolated: the last `len`
      values stretched over the whole window, as knots at `len` evenly spaced
      columns. Otherwise the trailing columns are kept in place and the others
      are NaN. */
  function WindowRow<T>(row: seq<Option<T>>, mw: Ratio, isIntrp: bool, interp: Interpolator<T>): (out: seq<Option<T>>)
    requires |row| >= 1 && InUnitInterval(mw)
    ensures |out| == |row|
  {
    var dim := |row|;
    var len := WindowLength(dim, mw);
    var t := TailStart(dim, len);
    if isIntrp then Stretched(row[dim - len..], dim, interp)
    else seq(dim, j requires 0 <= j < dim => if t <= j then row[j] else None)
  }

  function WindowBlock<T>(g: Grid<T>, ch: nat, dim: nat, mw: Ratio, isIntrp: bool, interp: Interpolator<T>): (b: Grid<T>)
    requires IsMatrix(g, ch, dim) && dim >= 1 && InUnitInterval(mw)
    ensures IsMatrix(b, ch, dim)
  {
    seq(ch, r requires 0 <= r < ch => WindowRow(g[r], mw, isIntrp, interp))
  }

  function WindowBlocks<T>(g: Grid<T>, ch: nat, dim: nat, windows: seq<Ratio>, isIntrp: bool, interp: Interpolator<T>)
    : (bs: seq<Grid<T>>)
    requires IsMatrix(g, ch, dim) && dim >= 1 && AllInUnitInterval(windows)
    ensures |bs| == |windows| && AllBlocks(bs, ch, dim)
  {
    seq(|windows|, i requires 0 <= i < |windows| => WindowBlock(g, ch, dim, windows[i], isIntrp, interp))
  }

  /** The matrix `f_multiwindow` returns: the blocks of all window factors,
      stacked in list order. */
  function MultiWindowed<T>(g: Grid<T>, ch: nat, dim: nat, windows: seq<Ratio>, isIntrp: bool, interp: Interpolator<T>)
    : (out: Grid<T>)
    requires IsMatrix(g, ch, dim) && dim >= 1 && AllInUnitInterval(windows)
    ensures IsMatrix(out, |windows| * ch, dim)
  {
    var blocks := WindowBlocks(g, ch, dim, windows, isIntrp, interp);
    StackShape(blocks, ch, dim);
    Stack(blocks)
  }

  // ---------------------------------------------------------------------------
  // Properties
  // ---------------------------------------------------------------------------

  /** Block order follows the list: row i*ch + r is channel r under window
      factor windows[i]. */
  lemma {:induction false} MultiWindowBlock<T>(g: Grid<T>, ch: nat, dim: nat, windows: seq<Ratio>, isIntrp: bool,
                                              interp: Interpolator<T>, i: nat, r: nat)
    requires IsMatrix(g, ch, dim) && dim >= 1 && AllInUnitInterval(windows)
    requires i < |windows| && r < ch
    ensures i * ch + r < |windows| * ch
    ensures MultiWindowed(g, ch, dim, windows, isIntrp, interp)[i * ch + r] == WindowRow(g[r], windows[i], isIntrp, interp)
  {
    var blocks := WindowBlocks(g, ch, dim, windows, isIntrp, interp);
    StackShape(blocks, ch, dim);
    assert MultiWindowed(g, ch, dim, windows, isIntrp, interp) == Stack(blocks);
    StackAt(blocks, ch, dim, i, r);
    assert blocks[i] == WindowBlock(g, ch, dim, windows[i], isIntrp, interp);
  }

  /** Without interpolation a non-empty window keeps exactly its last
      `int(dim*mw)` columns: those equal the input, and every earlier column
      is NaN. */
  lemma {:induction false} WindowKeepsTail<T>(row: seq<Option<T>>, mw: Ratio, interp: Interpolator<T>, j: nat)
    requires |row| >= 1 && InUnitInterval(mw) && j < |row|
    requires WindowLength(|row|, mw) >= 1
    ensures WindowRow(row, mw, false, interp)[j] ==
      if |row| - WindowLength(|row|, mw) <= j then row[j] else None
  {
  }

  /** A window too short to keep one column (`int(dim*mw) == 0`) keeps the
      whole row, because the slice `[-0:]` is the whole row. */
  lemma {:induction false} EmptyWindowKeepsRow<T>(row: seq<Option<T>>, mw: Ratio, interp: Interpolator<T>)
    requires |row| >= 1 && InUnitInterval(mw) && WindowLength(|row|, mw) == 0
    ensures WindowRow(row, mw, false, interp) == row
  {
    assert forall j :: 0 <= j < |row| ==> WindowRow(row, mw, false, interp)[j] == row[j];
  }

  /** Interpolated, the knots are `int(dim*mw)` strictly increasing columns,
      as many as the trailing columns that supply their values, and from two
      on they run from the first column to the last: the recent part is
      stretched over the whole window. */
  lemma {:induction false} WindowStretchKnots(dim: nat, mw: Ratio)
    requires dim >= 1 && InUnitInterval(mw)
    ensures var len := WindowLength(dim, mw);
      var idx := SampleIndices(dim, len);
      && |idx| == len
      && (len >= 1 ==> |idx| == dim - TailStart(dim, len))
      && StrictlyIncreasing(idx)
      && (len >= 2 ==> idx[0] == 0 && idx[len - 1] == dim - 1)
  {
    var len := WindowLength(dim, mw);
    SampleIndicesDistinct(dim, len);
    SampleIndicesShape(dim, len);
  }

  /** With an interpolant that passes through its knots, the k-th trailing
      value lands at the k-th evenly spaced column. */
  lemma {:induction false} WindowStretch<T(!new)>(row: seq<Option<T>>, mw: Ratio, interp: Interpolator<T>, k: nat)
    requires |row| >= 1 && InUnitInterval(mw) && ExactAtKnots(interp)
    requires k < WindowLength(|row|, mw)
    ensures var dim, len := |row|, WindowLength(|row|, mw);
      WindowRow(row, mw, true, interp)[SampleIndices(dim, len)[k]] == row[dim - len + k]
  {
    var dim, len := |row|, WindowLength(|row|, mw);
    StretchedKnots(row[dim - len..], dim, interp, k);
  }

  /** Window factor 1 reproduces the channel: the truncated block is the
      input, and so is the interpolated block for an interpolant that passes
      through its knots. */
  lemma {:induction false} UnitWindowIsIdentity<T(!new)>(row: seq<Option<T>>, mw: Ratio, isIntrp: bool, interp: Interpolator<T>)
    requires |row| >= 1 && InUnitInterval(mw) && mw.num == mw.den
    requires isIntrp ==> ExactAtKnots(interp)
    ensures WindowRow(row, mw, isIntrp, interp) == row
  {
    assert row[0..] == row;
    if isIntrp {
      StretchedFullWidth(row, interp);
    } else {
      assert forall j :: 0 <= j < |row| ==> WindowRow(row, mw, false, interp)[j] == row[j];
    }
  }

  // ---------------------------------------------------------------------------
  // The transform
  // ---------------------------------------------------------------------------

  /** `output[base:base+ch, :]` for one window factor: every channel of
      `data` under factor mw, written into rows that still hold NaN. */
  method FillWindowBlock<T>(out: array2<Option<T>>, data: array2<Option<T>>, base: nat, mw: Ratio,
                            isIntrp: bool, interp: Interpolator<T>)
    requires out != data && out.Length1 == data.Length1 >= 1 && InUnitInterval(mw)
    requires base + data.Length0 <= out.Length0 && Blank(out, base)
    modifies out
    ensures Holds(out, base, WindowBlock(Contents(data), data.Length0, data.Length1, mw, isIntrp, interp))
    ensures Blank(out, base + data.Length0)
    ensures forall row, j :: 0 <= row < base && 0 <= j < out.Length1 ==> out[row, j] == old(out[row, j])
  {
    var ch, dim := data.Length0, data.Length1;
    var len := WindowLength(dim, mw);
    var t := TailStart(dim, len);
    for r := 0 to ch
      invariant forall row, j :: base <= row < base + r && 0 <= j < dim ==>
        out[row, j] == WindowRow(Row(data, row - base), mw, isIntrp, interp)[j]
      invariant forall row, j :: base + r <= row < out.Length0 && 0 <= j < dim ==> out[row, j] == None
      invariant forall row, j :: 0 <= row < base && 0 <= j < dim ==> out[row, j] == old(out[row, j])
    {
      if isIntrp {
        AssignSlice(out, base + r, 0, Stretched(Row(data, r)[dim - len..], dim, interp));
      } else {
        AssignSlice(out, base + r, t, Row(data, r)[t..]);
      }
    }
    ghost var block := WindowBlock(Contents(data), ch, dim, mw, isIntrp, interp);
    forall r, j | 0 <= r < ch && 0 <= j < dim
      ensures out[base + r, j] == block[r][j]
    {
      assert block[r] == WindowRow(Row(data, r), mw, isIntrp, interp);
    }
  }

  /** `f_multiwindow(data, multiWindow, isIntrp)`: preallocates a NaN matrix
      of len(multiWindow)*ch rows and fills block i with every channel under
      window factor windows[i]. */
  method Truncate<T>(data: array2<Option<T>>, windows: seq<Ratio>, isIntrp: bool, interp: Interpolator<T>)
    returns (out: array2<Option<T>>)
    requires data.Length1 >= 1 && AllInUnitInterval(windows)
    requires isIntrp ==> AllKeepTwo(data.Length1, windows)
    ensures fresh(out)
    ensures out.Length0 == |windows| * data.Length0 && out.Length1 == data.Length1
    ensures Contents(out) == MultiWindowed(Contents(data), data.Length0, data.Length1, windows, isIntrp, interp)
  {
    var ch, dim := data.Length0, data.Length1;
    out := new Option<T>[|windows| * ch, dim]((_, _) => None);
    ghost var g := Contents(data);
    ghost var blocks := WindowBlocks(g, ch, dim, windows, isIntrp, interp);
    StackShape(blocks, ch, dim);
    var i, base := 0, 0;
    while i < |windows|
      invariant 0 <= i <= |windows| && base == |Stack(blocks[..i])|
      invariant Holds(out, 0, Stack(blocks[..i])) && Blank(out, base)
    {
      StackStep(blocks, ch, dim, i);
      ghost var prefix := Stack(blocks[..i]);
      FillWindowBlock(out, data, base, windows[i], isIntrp, interp);
      assert Holds(out, 0, prefix);
      assert blocks[i] == WindowBlock(g, ch, dim, windows[i], isIntrp, interp);
      HoldsAppend(out, prefix, blocks[i]);
      i, base := i + 1, base + ch;
    }
    assert blocks[..i] == blocks;
    ContentsFromCells(out, Stack(blocks));
  }
}
