/**
 * Layer geometry of one convolution call and the patch (im2col) mapping that
 * every packer of the engine is specified against.
 *
 * A pixel `p < N` is the output position `(p / dstWidth, p % dstWidth)`; a tap
 * `k < K` is `(channel, kernelRow, kernelCol)` with
 * `k == (channel*kernelY + kernelRow)*kernelX + kernelCol`.
 */
module Geometry {
  import opened Common

  datatype Geometry = Geometry(
    srcWidth: nat, srcHeight: nat, srcDepth: nat,
    kernelX: nat, kernelY: nat,
    padX: nat, padY: nat,
    strideX: nat, strideY: nat,
    dilationX: nat, dilationY: nat,
    dstWidth: nat, dstHeight: nat, dstDepth: nat)
  {
    /** Output pixels per channel. */
    function N(): nat { dstHeight * dstWidth }

    /** Taps per pixel. */
    function K(): nat { kernelX * kernelY * srcDepth }

    /** Output channels. */
    function M(): nat { dstDepth }

    /** Floats of the source volume. */
    function SrcSize(): nat { srcDepth * srcHeight * srcWidth }

    /**
     * What the entry point asserts of its caller: the output extent is the one
     * the padded, dilated, strided kernel produces (no division by zero and no
     * unsigned wrap in that formula).
     */
    predicate Valid() {
      && kernelX >= 1 && kernelY >= 1
      && strideX >= 1 && strideY >= 1
      && dilationX >= 1 && dilationY >= 1
      && srcWidth + 2 * padX >= dilationX * (kernelX - 1) + 1
      && srcHeight + 2 * padY >= dilationY * (kernelY - 1) + 1
      && dstWidth == (srcWidth + 2 * padX - (dilationX * (kernelX - 1) + 1)) / strideX + 1
      && dstHeight == (srcHeight + 2 * padY - (dilationY * (kernelY - 1) + 1)) / strideY + 1
    }

    /** Stride and dilation are 1 in both directions (the packers' fast condition). */
    predicate UnitStep() {
      dilationX * dilationY * strideX * strideY == 1
    }
  }

  lemma UnitStepMeans(g: Geometry)
    ensures g.UnitStep() <==>
      g.dilationX == 1 && g.dilationY == 1 && g.strideX == 1 && g.strideY == 1
  {
    var a, b, c, d := g.dilationX, g.dilationY, g.strideX, g.strideY;
    if a * b * c * d == 1 {
      assert a != 0 && b != 0 && c != 0 && d != 0;
      assert a >= 1 && b >= 1 && c >= 1 && d >= 1;
      assert a * b >= a && a * b >= b;
      assert a * b * c >= a * b && a * b * c >= c;
      assert a * b * c * d >= a * b * c && a * b * c * d >= d;
    }
  }

  /** With unit steps the output is the padded source less the kernel extent. */
  lemma UnitStepExtent(g: Geometry)
    requires g.Valid() && g.UnitStep()
    ensures g.dstWidth == g.srcWidth + 2 * g.padX - g.kernelX + 1
    ensures g.dstHeight == g.srcHeight + 2 * g.padY - g.kernelY + 1
  {
    UnitStepMeans(g);
  }

  lemma DivBelow(x: nat, m: nat, n: nat)
    requires m > 0 && x < n * m
    ensures x / m < n
  {
    DivBounds(x, m);
  }

  lemma VolumeIndex(c: nat, r: nat, col: nat, d: nat, h: nat, w: nat)
    requires c < d && r < h && col < w
    ensures (c * h + r) * w + col < d * h * w
  {
    FlatBound(c, r, d, h);
    FlatBound(c * h + r, col, d * h, w);
  }

  /** The source row tap `kernelRow` of output row `dstRow` reads, before the range check. */
  function SrcRow(g: Geometry, dstRow: nat, kernelRow: nat): int {
    dstRow * g.strideY - g.padY + kernelRow * g.dilationY
  }

  /** The source column tap `kernelCol` of output column `dstCol` reads, before the range check. */
  function SrcCol(g: Geometry, dstCol: nat, kernelCol: nat): int {
    dstCol * g.strideX - g.padX + kernelCol * g.dilationX
  }

  /**
   * The value of tap `(channel, kernelRow, kernelCol)` at output pixel
   * `(dstRow, dstCol)`: the source sample it covers, or zero in the padding.
   */
  function Sample<T>(g: Geometry, src: seq<T>, zero: T,
                     dstRow: nat, dstCol: nat, channel: nat, kernelRow: nat, kernelCol: nat): (v: T)
    requires |src| >= g.SrcSize() && channel < g.srcDepth
  {
    var sr, sc := SrcRow(g, dstRow, kernelRow), SrcCol(g, dstCol, kernelCol);
    if 0 <= sr < g.srcHeight && 0 <= sc < g.srcWidth then
      VolumeIndex(channel, sr, sc, g.srcDepth, g.srcHeight, g.srcWidth);
      src[(channel * g.srcHeight + sr) * g.srcWidth + sc]
    else
      zero
  }

  /** Entry (pixel `p`, tap `k`) of the logical patch matrix. */
  function PatchEntry<T>(g: Geometry, src: seq<T>, zero: T, p: nat, k: nat): (v: T)
    requires |src| >= g.SrcSize() && p < g.N() && k < g.K()
  {
    var kk := g.kernelY * g.kernelX;
    assert g.K() == g.srcDepth * kk;
    DivBelow(k, kk, g.srcDepth);
    Sample(g, src, zero, p / g.dstWidth, p % g.dstWidth, k / kk, k % kk / g.kernelX, k % g.kernelX)
  }

  /**
   * The patch matrix entry at the coordinates the packers' loops walk: pixel
   * `dstRow*dstWidth + dstCol`, tap `(channel*kernelY + kernelRow)*kernelX + kernelCol`.
   */
  lemma {:induction false} PatchEntryAt<T>(g: Geometry, src: seq<T>, zero: T,
                                           dstRow: nat, dstCol: nat, channel: nat, kernelRow: nat, kernelCol: nat)
    requires |src| >= g.SrcSize()
    requires dstRow < g.dstHeight && dstCol < g.dstWidth
    requires channel < g.srcDepth && kernelRow < g.kernelY && kernelCol < g.kernelX
    ensures dstRow * g.dstWidth + dstCol < g.N()
    ensures (channel * g.kernelY + kernelRow) * g.kernelX + kernelCol < g.K()
    ensures PatchEntry(g, src, zero, dstRow * g.dstWidth + dstCol, (channel * g.kernelY + kernelRow) * g.kernelX + kernelCol)
         == Sample(g, src, zero, dstRow, dstCol, channel, kernelRow, kernelCol)
  {
    FlatBound(dstRow, dstCol, g.dstHeight, g.dstWidth);
    DivMod(dstRow, dstCol, g.dstWidth);
    DivMod3(channel, kernelRow, kernelCol, g.kernelY, g.kernelX);
    var k := (channel * g.kernelY + kernelRow) * g.kernelX + kernelCol;
    FlatBound(channel, kernelRow * g.kernelX + kernelCol, g.srcDepth, g.kernelY * g.kernelX);
    assert g.K() == g.srcDepth * (g.kernelY * g.kernelX);
    DivMod(channel * g.kernelY + kernelRow, kernelCol, g.kernelX);
  }
  /** A 1×1 kernel without padding, with unit strides: the output is the source grid. */
  predicate ShortcutShape(g: Geometry) {
    && g.kernelX == 1 && g.kernelY == 1 && g.padX == 0 && g.padY == 0
    && g.strideX == 1 && g.strideY == 1
    && g.dstWidth == g.srcWidth && g.dstHeight == g.srcHeight
  }

  /** For that shape the patch matrix is the source read as a K×N matrix. */
  lemma ShortcutEntry<T>(g: Geometry, src: seq<T>, zero: T, i: nat, k: nat)
    requires ShortcutShape(g) && |src| >= g.SrcSize()
    requires i < g.N() && k < g.K()
    ensures k * g.N() + i < g.SrcSize()
    ensures PatchEntry(g, src, zero, i, k) == src[k * g.N() + i]
  {
    var w, h, d := g.srcWidth, g.srcHeight, g.srcDepth;
    assert g.K() == d && g.N() == h * w;
    ShortcutIndex(i, k, w, h, d);
    assert PatchEntry(g, src, zero, i, k) == Sample(g, src, zero, i / w, i % w, k, 0, 0);
  }

  lemma ShortcutIndex(i: nat, k: nat, w: nat, h: nat, d: nat)
    requires i < h * w && k < d
    ensures w > 0 && i / w < h
    ensures k * (h * w) + i < d * h * w
    ensures (k * h + i / w) * w + i % w == k * (h * w) + i
  {
    DivBelow(i, w, h);
    FlatBound(k, i, d, h * w);
    assert i == i / w * w + i % w;
    assert (k * h + i / w) * w == k * (h * w) + i / w * w;
  }
}
