/**
 * `Ncf::Opt` and `Ver2::Preferable`: the choice of strategy for one
 * convolution and the sizes of the scratch buffers that strategy packs into.
 */
module Strategy {
  import opened Common
  import opened Geometry
  import Ver0
  import Ver1
  import Ver2

  /** `Opt::Alg`. */
  datatype Alg = NoAlg | UseVer0 | UseVer1 | UseVer2

  /**
   * The fields of `Opt` after its constructor. `strideB`, `paddedW` and
   * `paddedH` are only assigned on the paths of the strategies that use them;
   * elsewhere they are `None`.
   */
  datatype Opt = Opt(alg: Alg, sizeA: nat, sizeB: nat, sizeT: nat, cellA: nat, cellB: nat,
                     M: nat, N: nat, K: nat,
                     strideB: Option<nat>, paddedW: Option<nat>, paddedH: Option<nat>)

  /**
   * `Ver2::Preferable`: a square kernel of side 2 to 5, unit steps, and enough
   * work. Its single product test on the steps means each of them is 1.
   */
  predicate Preferable(g: Geometry): (r: bool)
    ensures r <==>
      && g.kernelX == g.kernelY && 2 <= g.kernelX <= 5
      && g.strideX == 1 && g.strideY == 1 && g.dilationX == 1 && g.dilationY == 1
      && g.N() * g.kernelX * g.kernelY >= 576
  {
    UnitStepMeans(g);
    assert g.strideX * g.strideY * g.dilationX * g.dilationY
        == g.dilationX * g.dilationY * g.strideX * g.strideY;
    assert g.dstWidth * g.dstHeight == g.N();
    && g.kernelX == g.kernelY && g.kernelX >= 2 && g.kernelX <= 5
    && g.strideX * g.strideY * g.dilationX * g.dilationY == 1
    && g.dstWidth * g.dstHeight * g.kernelX * g.kernelY >= 8 * 8 * 3 * 3
  }

  /**
   * The `Opt` constructor. The selection rule: Ver2 exactly when `Preferable`
   * holds; otherwise Ver0 exactly when `dstWidth*dstHeight / kernelX <= 2000`,
   * else Ver1. `alg` is never left at `None`. Then the sizes of the chosen
   * strategy.
   */
  function MakeOpt(g: Geometry): (o: Opt)
    requires g.kernelX >= 1
    ensures o.alg != NoAlg
    ensures o.alg == UseVer2 <==> Preferable(g)
    ensures o.alg == UseVer0 <==> !Preferable(g) && g.N() / g.kernelX <= 2000
    ensures o.alg == UseVer1 <==> !Preferable(g) && g.N() / g.kernelX > 2000
    ensures o.M == g.M() && o.N == g.N() && o.K == g.K()
  {
    assert g.dstWidth * g.dstHeight == g.N();
    var alg := if g.dstWidth * g.dstHeight / g.kernelX <= 2000 then UseVer0 else UseVer1;
    var alg := if Preferable(g) then UseVer2 else alg;
    if alg == UseVer0 then Ver0Opt(g)
    else if alg == UseVer1 then Ver1Opt(g)
    else Ver2Opt(g)
  }

  function Ver0Opt(g: Geometry): Opt {
    var n, k := g.N(), g.K();
    Opt(UseVer0, 0, n * k, 0, 1, 1, g.M(), n, k, None, None, None)
  }

  function Ver1Opt(g: Geometry): Opt {
    var n, k := g.N(), g.K();
    var strideB := AlignHi(n, 16);
    var sizeB := strideB * k;
    Opt(UseVer1, g.M() * k, sizeB, if Ver1.ShortcutApplies(g) then 0 else sizeB, 4, 16, g.M(), n, k,
        Some(strideB), None, None)
  }

  function Ver2Opt(g: Geometry): Opt {
    var n, k := g.N(), g.K();
    if g.padX > 0 || g.padY > 0 then
      var paddedW, paddedH := AlignHi(g.srcWidth + 2 * g.padX, F), g.srcHeight + 2 * g.padY;
      Opt(UseVer2, 0, Volume(paddedW, paddedH, g.srcDepth), 0, 1, 1, g.M(), n, k,
          None, Some(paddedW), Some(paddedH))
    else
      Opt(UseVer2, 0, 0, 0, 1, 1, g.M(), n, k, None, Some(g.srcWidth), Some(g.srcHeight))
  }

  /** `paddedW*paddedH*srcDepth`. */
  function Volume(w: nat, h: nat, d: nat): nat {
    w * h * d
  }

  /** The layout `Ver2::PrepareB` receives from the facade. */
  function Ver2Layout(g: Geometry, o: Opt): Ver2.Layout
    requires o.paddedW.Some? && o.paddedH.Some?
  {
    Ver2.Layout(g.srcWidth, g.srcHeight, g.srcDepth, g.padX, g.padY, o.paddedW.value, o.paddedH.value)
  }

  /**
   * The sizes cover what the chosen packers write: N*K for Ver0; M*K for the
   * weights and AlignHi(N, 16)*K for the blocked patches of Ver1, with a
   * temporary of at least K*N whenever phase 1 runs; for Ver2 a padded image
   * whose rows hold both borders and whose size is the packer's span, or no
   * buffer at all and the source itself when there is no padding.
   */
  lemma OptCoversPackers(g: Geometry)
    requires g.Valid()
    ensures var o := MakeOpt(g);
      o.alg == UseVer0 ==> o.sizeA == 0 && o.sizeT == 0 && o.sizeB == g.N() * g.K()
    ensures var o := MakeOpt(g);
      o.alg == UseVer1 ==>
        && o.cellA == 4 && o.cellB == 16 && o.strideB == Some(AlignHi(g.N(), 16))
        && o.sizeA == g.M() * g.K() && o.sizeB == AlignHi(g.N(), o.cellB) * g.K()
        && (!Ver1.ShortcutApplies(g) ==> o.sizeT >= g.K() * g.N())
    ensures var o := MakeOpt(g);
      o.alg == UseVer2 ==>
        && g.UnitStep() && o.sizeA == 0 && o.sizeT == 0
        && o.paddedW.Some? && o.paddedH.Some? && Ver2Layout(g, o).Fits()
        && (g.padX > 0 || g.padY > 0 ==> o.sizeB == Ver2Layout(g, o).DstSize())
        && (g.padX == 0 && g.padY == 0 ==> o.sizeB == 0 && Ver2Layout(g, o).dstWidth == g.srcWidth)
  {
    var o := MakeOpt(g);
    if o.alg == UseVer0 {
      assert o == Ver0Opt(g);
    } else if o.alg == UseVer1 {
      assert o == Ver1Opt(g);
      Ver1Covers(g);
    } else {
      assert o == Ver2Opt(g);
      UnitStepMeans(g);
      Ver2Covers(g);
    }
  }

  lemma Ver1Covers(g: Geometry)
    ensures var o := Ver1Opt(g); o.sizeT == 0 || o.sizeT >= g.K() * g.N()
  {
    MulMono(g.N(), AlignHi(g.N(), 16), g.K());
    assert g.K() * g.N() == g.N() * g.K();
  }

  lemma Ver2Covers(g: Geometry)
    ensures var o := Ver2Opt(g); Ver2Layout(g, o).Fits()
    ensures var o := Ver2Opt(g); g.padX > 0 || g.padY > 0 ==> o.sizeB == Ver2Layout(g, o).DstSize()
  {
    var o := Ver2Opt(g);
    var l := Ver2Layout(g, o);
    if g.padX > 0 || g.padY > 0 {
      VolumeCommutes(l.dstWidth, l.dstHeight, l.srcDepth);
    }
  }

  /**
   * As written the constructor sets `sizeT = sizeB` exactly when
   * `kernelX*kernelY > 1`; the model's rule differs only for 1×1 kernels that
   * stride or pad, where the corrected shortcut does not apply and phase 1
   * needs the temporary.
   */
  lemma OptSizeTMatchesSource(g: Geometry)
    requires g.Valid() && MakeOpt(g).alg == UseVer1
    requires g.kernelX * g.kernelY > 1 || Ver1.ShortcutApplies(g)
    ensures MakeOpt(g).sizeT == (if g.kernelX * g.kernelY > 1 then MakeOpt(g).sizeB else 0)
  {
  }

  lemma VolumeCommutes(w: nat, h: nat, d: nat)
    ensures Volume(w, h, d) == d * (h * w)
  {
  }

  /** The strided 1×1 layer of the shortcut finding is packed by Ver1, with a temporary. */
  lemma Strided1x1ChoosesVer1()
    ensures MakeOpt(Ver1.Strided1x1).alg == UseVer1
    ensures MakeOpt(Ver1.Strided1x1).sizeT == MakeOpt(Ver1.Strided1x1).sizeB == 2512
  {
    assert Ver1.Strided1x1.N() == 2500;
  }

  /** The padded 1×1 layer of the Ver0 shortcut finding is packed by Ver0. */
  lemma Padded1x1ChoosesVer0()
    ensures MakeOpt(Ver0.Padded1x1).alg == UseVer0
    ensures MakeOpt(Ver0.Padded1x1).sizeB == 144
  {
    assert Ver0.Padded1x1.N() == 144;
  }

  /** The narrow 3×1 layer of the body-size finding is packed by Ver1. */
  lemma Narrow3x1ChoosesVer1()
    ensures MakeOpt(Ver1.Narrow3x1).alg == UseVer1
  {
    assert Ver1.Narrow3x1.N() == 7000;
  }
}
