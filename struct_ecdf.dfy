/** The driver `structECDF`: the enabled transforms applied in the fixed
    order multi-scale, multi-window, convolution, and the ECDF summariser
    applied to the transposed result. */
module StructEcdf {
  import opened IndexMath
  import opened Matrices
  import opened MultiScale
  import opened MultiWindow
  import opened Convolution

  /** The keyword arguments of `structECDF`. */
  datatype Config = Config(
    isIntrp: bool,
    isMs: bool, scales: seq<Ratio>,
    isMw: bool, windows: seq<Ratio>,
    isCv: bool, subWinSize: Ratio, subWinSlide: Ratio,
    nCoeff: nat)

  /** The default arguments: interpolation and all three stages on, scales
      and windows 1/4, 1/2 and 1, sub-windows of half the window sliding by
      half a sub-window, ten ECDF coefficients. */
  function Defaults(): (cfg: Config)
    ensures cfg.isIntrp && cfg.isMs && cfg.isMw && cfg.isCv && cfg.nCoeff == 10
    ensures AllInUnitInterval(cfg.scales) && AllInUnitInterval(cfg.windows)
    ensures InUnitInterval(cfg.subWinSize) && InUnitInterval(cfg.subWinSlide)
    ensures |cfg.scales| == |cfg.windows| == 3 && cfg.scales[2] == cfg.windows[2] == Ratio(1, 1)
  {
    var thirds := [Ratio(1, 4), Ratio(1, 2), Ratio(1, 1)];
    Config(true, true, thirds, true, thirds, true, Ratio(1, 2), Ratio(1, 2), 10)
  }

  /** `ecdfRep(data.T, n_ecdf_coeff)`: the ECDF representation of the
      time-by-row matrix, with the number of coefficients. */
  type Summarizer<!T, F> = (Grid<T>, nat) -> F

  /** The factors the transforms are written for: every enabled scale,
      window, sub-window size and slide factor in (0, 1], over a window of at
      least one sample. */
  predicate Admissible(dim: nat, cfg: Config) {
    && dim >= 1
    && (cfg.isMs ==> AllInUnitInterval(cfg.scales))
    && (cfg.isMw ==> AllInUnitInterval(cfg.windows))
    && (cfg.isCv ==> InUnitInterval(cfg.subWinSize) && InUnitInterval(cfg.subWinSlide))
  }

  /** interp1d needs two knots: in interpolated mode every enabled stage
      must keep at least two of the `dim` columns. */
  predicate Interpolable(dim: nat, cfg: Config)
    requires Admissible(dim, cfg)
  {
    cfg.isIntrp ==>
      && (cfg.isMs ==> AllKeepTwo(dim, cfg.scales))
      && (cfg.isMw ==> AllKeepTwo(dim, cfg.windows))
      && (cfg.isCv ==> CeilMul(dim, cfg.subWinSize) >= 2)
  }

  /** The number of rows after every enabled stage: the rows multiplied by
      the number of scales, of windows and of frames in turn. With every
      stage off it is the number of channels, and no stage with a non-empty
      list of factors loses rows. */
  function Rows(ch: nat, dim: nat, cfg: Config): (n: nat)
    requires Admissible(dim, cfg)
    ensures !cfg.isMs && !cfg.isMw && !cfg.isCv ==> n == ch
    ensures (cfg.isMs ==> |cfg.scales| >= 1) && (cfg.isMw ==> |cfg.windows| >= 1) ==> ch <= n
  {
    var chS := if cfg.isMs then |cfg.scales| * ch else ch;
    var chW := if cfg.isMw then |cfg.windows| * chS else chS;
    assert cfg.isMs && |cfg.scales| >= 1 ==> ch <= chS by {
      if cfg.isMs && |cfg.scales| >= 1 { MulMonotone(1, |cfg.scales|, ch); }
    }
    assert cfg.isMw && |cfg.windows| >= 1 ==> chS <= chW by {
      if cfg.isMw && |cfg.windows| >= 1 { MulMonotone(1, |cfg.windows|, chS); }
    }
    if cfg.isCv then
      var frames := FrameLayout(dim, cfg.subWinSize, cfg.subWinSlide).frames;
      MulMonotone(1, frames, chW);
      frames * chW
    else chW
  }

  /** The matrix after the multi-scale stage, and its number of rows. */
  function AfterScales<T>(g: Grid<T>, ch: nat, dim: nat, cfg: Config, interp: Interpolator<T>): (out: Grid<T>)
    requires IsMatrix(g, ch, dim) && Admissible(dim, cfg)
    ensures IsMatrix(out, if cfg.isMs then |cfg.scales| * ch else ch, dim)
  {
    if cfg.isMs then MultiScaled(g, ch, dim, cfg.scales, cfg.isIntrp, interp) else g
  }

  /** The matrix after the multi-window stage. */
  function AfterWindows<T>(g: Grid<T>, ch: nat, dim: nat, cfg: Config, interp: Interpolator<T>): (out: Grid<T>)
    requires IsMatrix(g, ch, dim) && Admissible(dim, cfg)
    ensures IsMatrix(out, if cfg.isMw then |cfg.windows| * ch else ch, dim)
  {
    if cfg.isMw then MultiWindowed(g, ch, dim, cfg.windows, cfg.isIntrp, interp) else g
  }

  /** The matrix after the convolution stage. */
  function AfterFrames<T>(g: Grid<T>, ch: nat, dim: nat, cfg: Config, interp: Interpolator<T>): (out: Grid<T>)
    requires IsMatrix(g, ch, dim) && Admissible(dim, cfg)
    ensures IsMatrix(out, if cfg.isCv then FrameLayout(dim, cfg.subWinSize, cfg.subWinSlide).frames * ch else ch, dim)
  {
    if cfg.isCv then Convolved(g, ch, dim, cfg.subWinSize, cfg.subWinSlide, cfg.isIntrp, interp) else g
  }

  /** The matrix `structECDF` hands to the summariser, before the transpose:
      the three stages in order, each one skipped when it is disabled. Every
      stage keeps the window width, so the result has `Rows` rows of `dim`
      columns. */
  function Pipeline<T>(g: Grid<T>, ch: nat, dim: nat, cfg: Config, interp: Interpolator<T>): (out: Grid<T>)
    requires IsMatrix(g, ch, dim) && Admissible(dim, cfg)
    ensures IsMatrix(out, Rows(ch, dim, cfg), dim)
  {
    var chS := if cfg.isMs then |cfg.scales| * ch else ch;
    var chW := if cfg.isMw then |cfg.windows| * chS else chS;
    AfterFrames(AfterWindows(AfterScales(g, ch, dim, cfg, interp), chS, dim, cfg, interp), chW, dim, cfg, interp)
  }

  // ---------------------------------------------------------------------------
  // Properties
  // ---------------------------------------------------------------------------

  /** A disabled stage leaves the matrix as it is: with every stage off the
      summariser sees the input itself. */
  lemma {:induction false} NoStageIsIdentity<T>(g: Grid<T>, ch: nat, dim: nat, cfg: Config, interp: Interpolator<T>)
    requires IsMatrix(g, ch, dim) && Admissible(dim, cfg)
    requires !cfg.isMs && !cfg.isMw && !cfg.isCv
    ensures Pipeline(g, ch, dim, cfg, interp) == g
  {
    assert AfterScales(g, ch, dim, cfg, interp) == g;
    assert AfterWindows(g, ch, dim, cfg, interp) == g;
  }

  /** Row provenance with every stage on: with S scales and W windows, row
      `f*(W*S*ch) + w*(S*ch) + s*ch + r` of the final matrix is frame f of
      window factor windows[w] of scale scales[s] of channel r. */
  lemma {:induction false} PipelineRow<T>(g: Grid<T>, ch: nat, dim: nat, cfg: Config, interp: Interpolator<T>,
                                         f: nat, w: nat, s: nat, r: nat)
    requires IsMatrix(g, ch, dim) && Admissible(dim, cfg) && cfg.isMs && cfg.isMw && cfg.isCv
    requires f < FrameLayout(dim, cfg.subWinSize, cfg.subWinSlide).frames
    requires w < |cfg.windows| && s < |cfg.scales| && r < ch
    ensures var chS := |cfg.scales| * ch;
      var chW := |cfg.windows| * chS;
      var row := f * chW + (w * chS + (s * ch + r));
      && 0 <= row < |Pipeline(g, ch, dim, cfg, interp)|
      && Pipeline(g, ch, dim, cfg, interp)[row] ==
         FrameRow(WindowRow(ScaleRow(g[r], cfg.scales[s], cfg.isIntrp, interp), cfg.windows[w], cfg.isIntrp, interp),
                  FrameLayout(dim, cfg.subWinSize, cfg.subWinSlide), f, cfg.isIntrp, interp)
  {
    var chS := |cfg.scales| * ch;
    var chW := |cfg.windows| * chS;
    var scaled := MultiScaled(g, ch, dim, cfg.scales, cfg.isIntrp, interp);
    var windowed := MultiWindowed(scaled, chS, dim, cfg.windows, cfg.isIntrp, interp);
    assert AfterScales(g, ch, dim, cfg, interp) == scaled;
    assert AfterWindows(scaled, chS, dim, cfg, interp) == windowed;
    assert Pipeline(g, ch, dim, cfg, interp) == AfterFrames(windowed, chW, dim, cfg, interp);
    var lay := FrameLayout(dim, cfg.subWinSize, cfg.subWinSlide);
    BlockIndex(s, |cfg.scales|, r, ch);
    var k1 := s * ch + r;
    BlockIndex(w, |cfg.windows|, k1, chS);
    var k2 := w * chS + k1;
    BlockIndex(f, lay.frames, k2, chW);
    MultiScaleBlock(g, ch, dim, cfg.scales, cfg.isIntrp, interp, s, r);
    var scaledRow := ScaleRow(g[r], cfg.scales[s], cfg.isIntrp, interp);
    assert scaled[k1] == scaledRow;
    MultiWindowBlock(scaled, chS, dim, cfg.windows, cfg.isIntrp, interp, w, k1);
    var windowedRow := WindowRow(scaledRow, cfg.windows[w], cfg.isIntrp, interp);
    assert windowed[k2] == windowedRow;
    ConvolvedRow(windowed, chW, dim, cfg.subWinSize, cfg.subWinSlide, cfg.isIntrp, interp, f, k2);
    assert Pipeline(g, ch, dim, cfg, interp)[f * chW + k2] == FrameRow(windowedRow, lay, f, cfg.isIntrp, interp);
  }

  /** The single scale 1, the single window 1 and a sub-window as wide as the
      window reproduce the input through all three stages (interpolated, for
      an interpolant that passes through its knots). */
  lemma {:induction false} UnitConfigIsIdentity<T(!new)>(g: Grid<T>, ch: nat, dim: nat, cfg: Config, interp: Interpolator<T>)
    requires IsMatrix(g, ch, dim) && Admissible(dim, cfg)
    requires cfg.isMs ==> |cfg.scales| == 1 && cfg.scales[0].num == cfg.scales[0].den
    requires cfg.isMw ==> |cfg.windows| == 1 && cfg.windows[0].num == cfg.windows[0].den
    requires cfg.isCv ==> cfg.subWinSize.num == cfg.subWinSize.den
    requires cfg.isIntrp ==> ExactAtKnots(interp)
    ensures Pipeline(g, ch, dim, cfg, interp) == g
  {
    if cfg.isMs {
      var blocks := ScaleBlocks(g, ch, dim, cfg.scales, cfg.isIntrp, interp);
      forall r | 0 <= r < ch
        ensures blocks[0][r] == g[r]
      {
        UnitScaleIsIdentity(g[r], cfg.scales[0], cfg.isIntrp, interp);
      }
      assert blocks == [blocks[0]] && blocks[..0] == [];
      assert 1 * ch == ch;
    }
    assert AfterScales(g, ch, dim, cfg, interp) == g;
    if cfg.isMw {
      var blocks := WindowBlocks(g, ch, dim, cfg.windows, cfg.isIntrp, interp);
      forall r | 0 <= r < ch
        ensures blocks[0][r] == g[r]
      {
        UnitWindowIsIdentity(g[r], cfg.windows[0], cfg.isIntrp, interp);
      }
      assert blocks == [blocks[0]] && blocks[..0] == [];
    }
    assert AfterWindows(g, ch, dim, cfg, interp) == g;
    if cfg.isCv {
      FullSubWindowIsIdentity(g, ch, dim, cfg.subWinSize, cfg.subWinSlide, cfg.isIntrp, interp);
    }
  }

  /** In interpolated mode every enabled stage hands `interp1d` at least two
      knot columns, strictly increasing and inside the window. */
  lemma {:induction false} InterpolableKnots(dim: nat, cfg: Config)
    requires Admissible(dim, cfg) && Interpolable(dim, cfg) && cfg.isIntrp
    ensures cfg.isMs ==> forall s <- cfg.scales ::
      |ScaleIndices(dim, s)| >= 2 && StrictlyIncreasing(ScaleIndices(dim, s))
    ensures cfg.isMw ==> forall w <- cfg.windows ::
      |SampleIndices(dim, WindowLength(dim, w))| >= 2 && StrictlyIncreasing(SampleIndices(dim, WindowLength(dim, w)))
    ensures cfg.isCv ==> var size := FrameLayout(dim, cfg.subWinSize, cfg.subWinSlide).size;
      |SampleIndices(dim, size)| >= 2 && StrictlyIncreasing(SampleIndices(dim, size))
  {
    if cfg.isMs {
      forall s <- cfg.scales
        ensures |ScaleIndices(dim, s)| >= 2 && StrictlyIncreasing(ScaleIndices(dim, s))
      {
        ScaleIndicesShape(dim, s);
      }
    }
    if cfg.isMw {
      forall w <- cfg.windows
        ensures |SampleIndices(dim, WindowLength(dim, w))| >= 2
        ensures StrictlyIncreasing(SampleIndices(dim, WindowLength(dim, w)))
      {
        WindowStretchKnots(dim, w);
      }
    }
    if cfg.isCv {
      var lay := FrameLayout(dim, cfg.subWinSize, cfg.subWinSlide);
      SampleIndicesDistinct(dim, lay.size);
    }
  }

  /** The defaults suit exactly the windows of at least eight samples: the
      interpolated scale and window factor 1/4 must keep two columns. */
  lemma {:induction false} DefaultsAdmissible(dim: nat)
    ensures dim >= 1 ==> Admissible(dim, Defaults())
    ensures Admissible(dim, Defaults()) && Interpolable(dim, Defaults()) <==> dim >= 8
  {
    var cfg := Defaults();
    var quarter := FloorMul(dim, Ratio(1, 4));
    assert quarter >= 2 <==> dim >= 8;
    if dim >= 8 {
      assert FloorMul(dim, Ratio(1, 2)) >= 2;
      assert FloorMul(dim, Ratio(1, 1)) >= 2;
      assert forall r <- cfg.scales :: FloorMul(dim, r) >= 2;
      assert CeilMul(dim, Ratio(1, 2)) >= 2;
    } else if dim >= 1 {
      assert cfg.scales[0] == Ratio(1, 4);
      assert !AllKeepTwo(dim, cfg.scales);
    }
  }

  /** With the defaults, a window of at least eight samples is cut into
      three frames, so the summariser sees 3 scales x 3 windows x 3 frames =
      27 rows per channel. */
  lemma {:induction false} DefaultRows(ch: nat, dim: nat)
    requires dim >= 8
    ensures Admissible(dim, Defaults()) && Interpolable(dim, Defaults()) && Rows(ch, dim, Defaults()) == 27 * ch
  {
    DefaultsAdmissible(dim);
    var half := Ratio(1, 2);
    var lay := FrameLayout(dim, half, half);
    var size, slide := lay.size, lay.slide;
    assert dim <= 2 * size && 2 * (size - 1) < dim;
    assert size <= 2 * slide && 2 * (slide - 1) < size;
    var rest := dim - size;
    assert slide < rest <= 2 * slide;
    CeilDivTwo(rest, slide);
    assert lay.frames == 3;
  }

  /** ceil(a/b) is 2 when a lies in (b, 2b]. */
  lemma CeilDivTwo(a: nat, b: nat)
    requires b > 0 && b < a <= 2 * b
    ensures CeilDiv(a, b) == 2
  {
    var c := CeilDiv(a, b);
    if c <= 1 {
      MulMonotone(c, 1, b);
    }
    if c >= 3 {
      MulMonotone(2, c - 1, b);
    }
  }

  // ---------------------------------------------------------------------------
  // The driver
  // ---------------------------------------------------------------------------

  /** `structECDF(data, ...)`: rebinds `data` to the output of every enabled
      stage in turn and summarises the transposed result, time by row. */
  method StructuralEcdf<T, F>(data: array2<Option<T>>, cfg: Config, interp: Interpolator<T>, ecdf: Summarizer<T, F>)
    returns (feature: F)
    requires Admissible(data.Length1, cfg) && Interpolable(data.Length1, cfg)
    ensures feature == ecdf(Transpose(Pipeline(Contents(data), data.Length0, data.Length1, cfg, interp),
                                Rows(data.Length0, data.Length1, cfg), data.Length1), cfg.nCoeff)
  {
    var ch, dim := data.Length0, data.Length1;
    ghost var g := Contents(data);
    var cur := data;
    if cfg.isMs {
      cur := Expand(cur, cfg.scales, cfg.isIntrp, interp);
    }
    assert Contents(cur) == AfterScales(g, ch, dim, cfg, interp);
    ghost var chS := cur.Length0;
    ghost var scaled := Contents(cur);
    if cfg.isMw {
      cur := Truncate(cur, cfg.windows, cfg.isIntrp, interp);
    }
    assert Contents(cur) == AfterWindows(scaled, chS, dim, cfg, interp);
    ghost var chW := cur.Length0;
    ghost var windowed := Contents(cur);
    if cfg.isCv {
      cur := Convolve(cur, cfg.subWinSize, cfg.subWinSlide, cfg.isIntrp, interp);
    }
    assert Contents(cur) == AfterFrames(windowed, chW, dim, cfg, interp);
    assert Contents(cur) == Pipeline(g, ch, dim, cfg, interp);
    feature := ecdf(Transpose(Contents(cur), cur.Length0, cur.Length1), cfg.nCoeff);
  }
}
