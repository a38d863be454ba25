/**
 * `Ncf::Ver0::PrepareB`: the pixel-major N×K patch matrix (im2col) that the
 * unpacked GEMM strategy multiplies the weights against.
 */
module Ver0 {
  import opened Common
  import opened Geometry

  /** Entry `q` of the row-major N×K patch matrix: tap `q % K` of pixel `q / K`. */
  function Im2colEntry<T>(g: Geometry, src: seq<T>, zero: T, q: nat): T
    requires |src| >= g.SrcSize() && q < g.N() * g.K()
  {
    DivBelow(q, g.K(), g.N());
    PatchEntry(g, src, zero, q / g.K(), q % g.K())
  }

  /** Position of the write cursor when the loops stand at the given indices. */
  function Cursor(g: Geometry, dstRow: nat, dstCol: nat, channel: nat, kernelRow: nat, kernelCol: nat): nat {
    (dstRow * g.dstWidth + dstCol) * g.K() + (channel * g.kernelY + kernelRow) * g.kernelX + kernelCol
  }

  lemma CursorCarry(g: Geometry, dstRow: nat, dstCol: nat, channel: nat, kernelRow: nat)
    ensures Cursor(g, dstRow, dstCol, channel, kernelRow, g.kernelX) == Cursor(g, dstRow, dstCol, channel, kernelRow + 1, 0)
    ensures Cursor(g, dstRow, dstCol, channel, g.kernelY, 0) == Cursor(g, dstRow, dstCol, channel + 1, 0, 0)
    ensures Cursor(g, dstRow, dstCol, g.srcDepth, 0, 0) == Cursor(g, dstRow, dstCol + 1, 0, 0, 0)
    ensures Cursor(g, dstRow, g.dstWidth, 0, 0, 0) == Cursor(g, dstRow + 1, 0, 0, 0, 0)
    ensures Cursor(g, g.dstHeight, 0, 0, 0, 0) == g.N() * g.K()
  {
    var p := dstRow * g.dstWidth + dstCol;
    assert (channel * g.kernelY + kernelRow) * g.kernelX + g.kernelX == (channel * g.kernelY + kernelRow + 1) * g.kernelX;
    assert (channel * g.kernelY + g.kernelY) * g.kernelX == ((channel + 1) * g.kernelY + 0) * g.kernelX;
    assert (g.srcDepth * g.kernelY) * g.kernelX == g.K();
    assert p * g.K() + g.K() == (p + 1) * g.K();
    assert (dstRow * g.dstWidth + g.dstWidth) * g.K() == ((dstRow + 1) * g.dstWidth) * g.K();
  }

  /** The entry the cursor reaches at the given loop indices is the tap those indices name. */
  lemma CursorEntry<T>(g: Geometry, src: seq<T>, zero: T,
                       dstRow: nat, dstCol: nat, channel: nat, kernelRow: nat, kernelCol: nat)
    requires |src| >= g.SrcSize()
    requires dstRow < g.dstHeight && dstCol < g.dstWidth
    requires channel < g.srcDepth && kernelRow < g.kernelY && kernelCol < g.kernelX
    ensures Cursor(g, dstRow, dstCol, channel, kernelRow, kernelCol) < g.N() * g.K()
    ensures Im2colEntry(g, src, zero, Cursor(g, dstRow, dstCol, channel, kernelRow, kernelCol))
         == Sample(g, src, zero, dstRow, dstCol, channel, kernelRow, kernelCol)
  {
    PatchEntryAt(g, src, zero, dstRow, dstCol, channel, kernelRow, kernelCol);
    var p := dstRow * g.dstWidth + dstCol;
    var k := (channel * g.kernelY + kernelRow) * g.kernelX + kernelCol;
    FlatBound(p, k, g.N(), g.K());
    DivMod(p, k, g.K());
  }

  /**
   * The 1×1 shortcut taken with unit steps: pixel `i`, tap `k` is read as
   * `src[k*N + i]`. Sound only without padding (see the findings).
   */
  predicate TransposeApplies(g: Geometry) {
    g.UnitStep() && g.kernelX * g.kernelY == 1 && g.padX == 0 && g.padY == 0
  }

  /** The shortcut's condition as the source writes it: padding is not looked at. */
  predicate TransposeAppliesAsWritten(g: Geometry) {
    g.UnitStep() && g.kernelX * g.kernelY == 1
  }

  /**
   * With a 1×1 kernel and padding, the shortcut's last read `src[(K-1)*N + N-1]`
   * lies past the source volume: the padded extent N exceeds srcHeight*srcWidth.
   */
  lemma AsWrittenTransposeOverruns(g: Geometry)
    requires g.Valid() && TransposeAppliesAsWritten(g)
    requires g.padX > 0 || g.padY > 0
    requires g.srcDepth > 0 && g.srcWidth > 0 && g.srcHeight > 0
    ensures g.N() * g.K() > 0 && g.K() * g.N() - 1 >= g.SrcSize()
  {
    UnitStepExtent(g);
    assert g.kernelX == 1 && g.kernelY == 1;
    PaddedVolumeLarger(g.srcDepth, g.srcHeight, g.srcWidth, g.padY, g.padX);
  }

  lemma PaddedVolumeLarger(d: nat, h: nat, w: nat, padY: nat, padX: nat)
    requires d > 0 && h > 0 && w > 0 && (padX > 0 || padY > 0)
    ensures d * ((h + 2 * padY) * (w + 2 * padX)) > d * h * w
  {
    var hh, ww := h + 2 * padY, w + 2 * padX;
    if padX > 0 {
      MulLess(w, ww, hh);
      MulMono(h, hh, w);
    } else {
      MulLess(h, hh, w);
    }
    assert h * w < hh * ww;
    MulLess(h * w, hh * ww, d);
    assert d * h * w == (h * w) * d;
  }

  /** A 1×1 kernel padded by one over a 10×10 image: 12×12 outputs. */
  const Padded1x1: Geometry := Geometry(10, 10, 1, 1, 1, 1, 1, 1, 1, 1, 1, 12, 12, 1)

  /**
   * On that layer the as-written shortcut is taken, and its last read,
   * `src[143]`, is past the 100 floats of the source.
   */
  lemma Padded1x1Overruns()
    ensures Padded1x1.Valid() && TransposeAppliesAsWritten(Padded1x1) && !TransposeApplies(Padded1x1)
    ensures Padded1x1.K() * Padded1x1.N() - 1 == 143 && Padded1x1.SrcSize() == 100
  {
    AsWrittenTransposeOverruns(Padded1x1);
  }

  /** What the corrected shortcut condition means for a valid geometry. */
  lemma TransposeShape(g: Geometry)
    requires g.Valid() && TransposeApplies(g)
    ensures ShortcutShape(g)
  {
    UnitStepExtent(g);
    UnitStepMeans(g);
  }

  /** Under the corrected condition the shortcut reads exactly the patch matrix. */
  lemma TransposeEntry<T>(g: Geometry, src: seq<T>, zero: T, i: nat, k: nat)
    requires ShortcutShape(g) && |src| >= g.SrcSize()
    requires i < g.N() && k < g.K()
    ensures k * g.N() + i < g.SrcSize()
    ensures i * g.K() + k < g.N() * g.K()
    ensures Im2colEntry(g, src, zero, i * g.K() + k) == src[k * g.N() + i]
  {
    FlatBound(i, k, g.N(), g.K());
    DivMod(i, k, g.K());
    ShortcutEntry(g, src, zero, i, k);
  }

  /**
   * `Ver0::PrepareB`: writes exactly the N·K entries of the patch matrix and
   * nothing else. Dispatch: the stride/dilation path, the unit-step path
   * (the same mapping with steps of one), or the 1×1 shortcut.
   */
  method PrepareB<T>(src: array<T>, g: Geometry, zero: T, dst: array<T>)
    requires g.Valid() && src != dst
    requires src.Length >= g.SrcSize() && dst.Length >= g.N() * g.K()
    modifies dst
    ensures forall q :: 0 <= q < g.N() * g.K() ==> dst[q] == Im2colEntry(g, src[..], zero, q)
    ensures forall q :: 0 <= q < dst.Length && q >= g.N() * g.K() ==> dst[q] == old(dst[q])
  {
    if !g.UnitStep() {
      Gather(src, g, zero, dst);
    } else if g.kernelX * g.kernelY != 1 || g.padX != 0 || g.padY != 0 {
      Gather(src, g, zero, dst);
    } else {
      TransposeShape(g);
      Transpose(src, g, zero, dst);
    }
  }

  /** The general loops: for every pixel and tap, the covered sample or zero. */
  method Gather<T>(src: array<T>, g: Geometry, zero: T, dst: array<T>)
    requires src != dst
    requires src.Length >= g.SrcSize() && dst.Length >= g.N() * g.K()
    modifies dst
    ensures forall q :: 0 <= q < g.N() * g.K() ==> dst[q] == Im2colEntry(g, src[..], zero, q)
    ensures forall q :: 0 <= q < dst.Length && q >= g.N() * g.K() ==> dst[q] == old(dst[q])
  {
    ghost var sv := src[..];
    var d := 0;
    var dstRow := 0;
    while dstRow < g.dstHeight
      invariant dstRow <= g.dstHeight
      invariant d == Cursor(g, dstRow, 0, 0, 0, 0) && d <= g.N() * g.K()
      invariant forall q :: 0 <= q < d ==> dst[q] == Im2colEntry(g, sv, zero, q)
      invariant forall q :: d <= q < dst.Length ==> dst[q] == old(dst[q])
    {
      var dstCol := 0;
      while dstCol < g.dstWidth
        invariant dstCol <= g.dstWidth
        invariant d == Cursor(g, dstRow, dstCol, 0, 0, 0) && d <= g.N() * g.K()
        invariant forall q :: 0 <= q < d ==> dst[q] == Im2colEntry(g, sv, zero, q)
        invariant forall q :: d <= q < dst.Length ==> dst[q] == old(dst[q])
      {
        d := GatherPixel(src, sv, g, zero, dst, dstRow, dstCol, d);
        CursorCarry(g, dstRow, dstCol, g.srcDepth, 0);
        dstCol := dstCol + 1;
      }
      CursorCarry(g, dstRow, dstCol, 0, 0);
      dstRow := dstRow + 1;
    }
    CursorCarry(g, dstRow, 0, 0, 0);
  }

  /** The K taps of output pixel `(dstRow, dstCol)`, channel by channel and kernel row by kernel row. */
  method GatherPixel<T>(src: array<T>, ghost sv: seq<T>, g: Geometry, zero: T, dst: array<T>, dstRow: nat, dstCol: nat, d0: nat)
      returns (d: nat)
    requires src != dst && sv == src[..]
    requires src.Length >= g.SrcSize() && dst.Length >= g.N() * g.K()
    requires dstRow < g.dstHeight && dstCol < g.dstWidth
    requires d0 == Cursor(g, dstRow, dstCol, 0, 0, 0) && d0 <= g.N() * g.K()
    requires forall q :: 0 <= q < d0 ==> dst[q] == Im2colEntry(g, sv, zero, q)
    modifies dst
    ensures d == Cursor(g, dstRow, dstCol, g.srcDepth, 0, 0) && d <= g.N() * g.K()
    ensures forall q :: 0 <= q < d ==> dst[q] == Im2colEntry(g, sv, zero, q)
    ensures forall q :: d <= q < dst.Length ==> dst[q] == old(dst[q])
  {
    d := d0;
    var srcRow0: int := dstRow * g.strideY - g.padY;
    var srcCol0: int := dstCol * g.strideX - g.padX;
    var channel := 0;
    while channel < g.srcDepth
      invariant channel <= g.srcDepth
      invariant d == Cursor(g, dstRow, dstCol, channel, 0, 0) && d <= g.N() * g.K()
      invariant forall q :: 0 <= q < d ==> dst[q] == Im2colEntry(g, sv, zero, q)
      invariant forall q :: d <= q < dst.Length ==> dst[q] == old(dst[q])
    {
      var kernelRow := 0;
      while kernelRow < g.kernelY
        invariant kernelRow <= g.kernelY
        invariant d == Cursor(g, dstRow, dstCol, channel, kernelRow, 0) && d <= g.N() * g.K()
        invariant forall q :: 0 <= q < d ==> dst[q] == Im2colEntry(g, sv, zero, q)
        invariant forall q :: d <= q < dst.Length ==> dst[q] == old(dst[q])
      {
        d := GatherRun(src, sv, g, zero, dst, dstRow, dstCol, channel, kernelRow, srcRow0 + kernelRow * g.dilationY, srcCol0, d);
        CursorCarry(g, dstRow, dstCol, channel, kernelRow);
        kernelRow := kernelRow + 1;
      }
      CursorCarry(g, dstRow, dstCol, channel, kernelRow);
      channel := channel + 1;
    }
    CursorCarry(g, dstRow, dstCol, channel, 0);
  }

  /** One kernel row of taps: the source row `srcRow` if it is inside the image, zeros otherwise. */
  method GatherRun<T>(src: array<T>, ghost sv: seq<T>, g: Geometry, zero: T, dst: array<T>,
                      dstRow: nat, dstCol: nat, channel: nat, kernelRow: nat, srcRow: int, srcCol0: int, d0: nat)
      returns (d: nat)
    requires src != dst && sv == src[..]
    requires src.Length >= g.SrcSize() && dst.Length >= g.N() * g.K()
    requires dstRow < g.dstHeight && dstCol < g.dstWidth && channel < g.srcDepth && kernelRow < g.kernelY
    requires srcRow == SrcRow(g, dstRow, kernelRow) && srcCol0 == dstCol * g.strideX - g.padX
    requires d0 == Cursor(g, dstRow, dstCol, channel, kernelRow, 0) && d0 <= g.N() * g.K()
    requires forall q :: 0 <= q < d0 ==> dst[q] == Im2colEntry(g, sv, zero, q)
    modifies dst
    ensures d == Cursor(g, dstRow, dstCol, channel, kernelRow, g.kernelX) && d <= g.N() * g.K()
    ensures forall q :: 0 <= q < d ==> dst[q] == Im2colEntry(g, sv, zero, q)
    ensures forall q :: d <= q < dst.Length ==> dst[q] == old(dst[q])
  {
    if 0 <= srcRow < g.srcHeight {
      d := GatherRow(src, sv, g, zero, dst, dstRow, dstCol, channel, kernelRow, srcRow, srcCol0, d0);
    } else {
      d := GatherZeros(sv, g, zero, dst, dstRow, dstCol, channel, kernelRow, d0);
    }
  }

  /** Start of row `r` of channel `c` in a `h`×`w` planar volume. */
  function RowBase(c: nat, r: nat, h: nat, w: nat): nat {
    (c * h + r) * w
  }

  /** Tap `kernelCol` of a kernel row whose source row is inside the image. */
  lemma RowTap<T>(g: Geometry, src: seq<T>, zero: T, dstRow: nat, dstCol: nat, channel: nat,
                  kernelRow: nat, srcRow: nat, kernelCol: nat)
    requires |src| >= g.SrcSize()
    requires dstRow < g.dstHeight && dstCol < g.dstWidth && channel < g.srcDepth && kernelRow < g.kernelY
    requires kernelCol < g.kernelX && srcRow == SrcRow(g, dstRow, kernelRow) && srcRow < g.srcHeight
    ensures Cursor(g, dstRow, dstCol, channel, kernelRow, kernelCol) < g.N() * g.K()
    ensures 0 <= SrcCol(g, dstCol, kernelCol) < g.srcWidth ==>
      RowBase(channel, srcRow, g.srcHeight, g.srcWidth) + SrcCol(g, dstCol, kernelCol) < |src| &&
      Im2colEntry(g, src, zero, Cursor(g, dstRow, dstCol, channel, kernelRow, kernelCol))
        == src[RowBase(channel, srcRow, g.srcHeight, g.srcWidth) + SrcCol(g, dstCol, kernelCol)]
    ensures !(0 <= SrcCol(g, dstCol, kernelCol) < g.srcWidth) ==>
      Im2colEntry(g, src, zero, Cursor(g, dstRow, dstCol, channel, kernelRow, kernelCol)) == zero
  {
    CursorEntry(g, src, zero, dstRow, dstCol, channel, kernelRow, kernelCol);
    var sc := SrcCol(g, dstCol, kernelCol);
    if 0 <= sc < g.srcWidth {
      VolumeIndex(channel, srcRow, sc, g.srcDepth, g.srcHeight, g.srcWidth);
    }
  }

  /** The taps of a kernel row inside the image: the covered samples, zeros in the side padding. */
  method GatherRow<T>(src: array<T>, ghost sv: seq<T>, g: Geometry, zero: T, dst: array<T>,
                      dstRow: nat, dstCol: nat, channel: nat, kernelRow: nat, srcRow: nat, srcCol0: int, d0: nat)
      returns (d: nat)
    requires src != dst && sv == src[..]
    requires src.Length >= g.SrcSize() && dst.Length >= g.N() * g.K()
    requires dstRow < g.dstHeight && dstCol < g.dstWidth && channel < g.srcDepth && kernelRow < g.kernelY
    requires srcRow == SrcRow(g, dstRow, kernelRow) && srcRow < g.srcHeight
    requires srcCol0 == dstCol * g.strideX - g.padX
    requires d0 == Cursor(g, dstRow, dstCol, channel, kernelRow, 0) && d0 <= g.N() * g.K()
    requires forall q :: 0 <= q < d0 ==> dst[q] == Im2colEntry(g, sv, zero, q)
    modifies dst
    ensures d == Cursor(g, dstRow, dstCol, channel, kernelRow, g.kernelX) && d <= g.N() * g.K()
    ensures forall q :: 0 <= q < d ==> dst[q] == Im2colEntry(g, sv, zero, q)
    ensures forall q :: d <= q < dst.Length ==> dst[q] == old(dst[q])
  {
    d := d0;
    var psrc := RowBase(channel, srcRow, g.srcHeight, g.srcWidth);
    var kernelCol := 0;
    while kernelCol < g.kernelX
      invariant kernelCol <= g.kernelX
      invariant d == Cursor(g, dstRow, dstCol, channel, kernelRow, kernelCol) && d <= g.N() * g.K()
      invariant forall q :: 0 <= q < d ==> dst[q] == Im2colEntry(g, sv, zero, q)
      invariant forall q :: d <= q < dst.Length ==> dst[q] == old(dst[q])
    {
      var srcCol := srcCol0 + kernelCol * g.dilationX;
      RowTap(g, sv, zero, dstRow, dstCol, channel, kernelRow, srcRow, kernelCol);
      if 0 <= srcCol < g.srcWidth {
        dst[d] := src[psrc + srcCol];
      } else {
        dst[d] := zero;
      }
      d := d + 1;
      kernelCol := kernelCol + 1;
    }
  }

  /** The taps of a kernel row above or below the image: all zeros. */
  method GatherZeros<T>(ghost sv: seq<T>, g: Geometry, zero: T, dst: array<T>,
                        dstRow: nat, dstCol: nat, channel: nat, kernelRow: nat, d0: nat)
      returns (d: nat)
    requires |sv| >= g.SrcSize() && dst.Length >= g.N() * g.K()
    requires dstRow < g.dstHeight && dstCol < g.dstWidth && channel < g.srcDepth && kernelRow < g.kernelY
    requires !(0 <= SrcRow(g, dstRow, kernelRow) < g.srcHeight)
    requires d0 == Cursor(g, dstRow, dstCol, channel, kernelRow, 0) && d0 <= g.N() * g.K()
    requires forall q :: 0 <= q < d0 ==> dst[q] == Im2colEntry(g, sv, zero, q)
    modifies dst
    ensures d == Cursor(g, dstRow, dstCol, channel, kernelRow, g.kernelX) && d <= g.N() * g.K()
    ensures forall q :: 0 <= q < d ==> dst[q] == Im2colEntry(g, sv, zero, q)
    ensures forall q :: d <= q < dst.Length ==> dst[q] == old(dst[q])
  {
    d := d0;
    var kernelCol := 0;
    while kernelCol < g.kernelX
      invariant kernelCol <= g.kernelX
      invariant d == Cursor(g, dstRow, dstCol, channel, kernelRow, kernelCol) && d <= g.N() * g.K()
      invariant forall q :: 0 <= q < d ==> dst[q] == Im2colEntry(g, sv, zero, q)
      invariant forall q :: d <= q < dst.Length ==> dst[q] == old(dst[q])
    {
      CursorEntry(g, sv, zero, dstRow, dstCol, channel, kernelRow, kernelCol);
      dst[d] := zero;
      d := d + 1;
      kernelCol := kernelCol + 1;
    }
  }

  /** The 1×1 shortcut: `dst[i*K + k] = src[k*N + i]`. */
  method Transpose<T>(src: array<T>, g: Geometry, zero: T, dst: array<T>)
    requires ShortcutShape(g) && src != dst
    requires src.Length >= g.SrcSize() && dst.Length >= g.N() * g.K()
    modifies dst
    ensures forall q :: 0 <= q < g.N() * g.K() ==> dst[q] == Im2colEntry(g, src[..], zero, q)
    ensures forall q :: 0 <= q < dst.Length && q >= g.N() * g.K() ==> dst[q] == old(dst[q])
  {
    ghost var s := src[..];
    var n, k := g.N(), g.K();
    var d := 0;
    var i := 0;
    while i < n
      invariant i <= n && d == i * k && d <= n * k
      invariant forall q :: 0 <= q < d ==> dst[q] == Im2colEntry(g, s, zero, q)
      invariant forall q :: d <= q < dst.Length ==> dst[q] == old(dst[q])
    {
      var j := 0;
      while j < k
        invariant j <= k && d == i * k + j && d <= n * k
        invariant forall q :: 0 <= q < d ==> dst[q] == Im2colEntry(g, s, zero, q)
        invariant forall q :: d <= q < dst.Length ==> dst[q] == old(dst[q])
      {
        TransposeEntry(g, s, zero, i, j);
        dst[d] := src[j * n + i];
        d := d + 1;
        j := j + 1;
      }
      assert d == (i + 1) * k;
      MulMono(i + 1, n, k);
      i := i + 1;
    }
  }
}
