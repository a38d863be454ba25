/**
 * `Ncf::Ver2`: the direct-convolution strategy. Its only packer copies the
 * source into a zero-bordered image, channel by channel, so that the kernels
 * can read every tap without a range check.
 */
module Ver2 {
  import opened Common
  import opened Geometry

  /** The arguments of `Ver2::PrepareB` besides the two buffers. */
  datatype Layout = Layout(srcWidth: nat, srcHeight: nat, srcDepth: nat, padX: nat, padY: nat,
                           dstWidth: nat, dstHeight: nat)
  {
    /** Floats of one bordered channel. */
    function Plane(): nat { dstHeight * dstWidth }

    /** Floats the packer spans in `dst`. */
    function DstSize(): nat { srcDepth * (dstHeight * dstWidth) }

    /** Floats of the source volume. */
    function SrcSize(): nat { srcDepth * srcHeight * srcWidth }

    /**
     * What the packer needs of its caller: each bordered row holds a source
     * row and both side borders, and the rows are the source rows plus the
     * top and bottom borders.
     */
    predicate Fits() {
      dstHeight == srcHeight + 2 * padY && dstWidth >= srcWidth + 2 * padX
    }

    /** Row `y` of a plane is a copied row (not a top or bottom border row). */
    predicate Interior(y: nat) {
      padY <= y < padY + srcHeight
    }
  }

  /**
   * Pixel `(y, x)` of channel `c` of the bordered image: the source sample
   * `(y - padY, x - padX)` when it exists, zero in the border.
   */
  function Bordered<T>(src: seq<T>, l: Layout, zero: T, c: nat, y: nat, x: nat): T
    requires |src| >= l.SrcSize() && c < l.srcDepth
  {
    if l.Interior(y) && l.padX <= x < l.padX + l.srcWidth then
      VolumeIndex(c, y - l.padY, x - l.padX, l.srcDepth, l.srcHeight, l.srcWidth);
      src[(c * l.srcHeight + (y - l.padY)) * l.srcWidth + (x - l.padX)]
    else
      zero
  }

  /**
   * Entry `q` of `dst` after the packer, given its value `prev` before: the
   * bordered image, except that columns at or beyond `2*padX + srcWidth` of the
   * copied rows keep what they held.
   */
  function Entry<T>(src: seq<T>, l: Layout, zero: T, prev: T, q: nat): T
    requires |src| >= l.SrcSize() && q < l.DstSize()
  {
    var plane := l.Plane();
    PlanePositive(l, q);
    DivBelow(q, plane, l.srcDepth);
    var r := q % plane;
    var y, x := r / l.dstWidth, r % l.dstWidth;
    if l.Interior(y) && l.srcWidth + 2 * l.padX <= x then prev
    else Bordered(src, l, zero, q / plane, y, x)
  }

  lemma PlanePositive(l: Layout, q: nat)
    requires q < l.DstSize()
    ensures l.dstWidth > 0 && l.Plane() > 0
  {
  }

  /** The entry at offset `t` of channel `c`'s plane, by row `t / dstWidth` and column `t % dstWidth`. */
  lemma EntryAt<T>(src: seq<T>, l: Layout, zero: T, prev: T, c: nat, t: nat, q: nat)
    requires |src| >= l.SrcSize() && c < l.srcDepth && t < l.Plane() && q == c * l.Plane() + t
    ensures q < l.DstSize() && l.dstWidth > 0
    ensures Entry(src, l, zero, prev, q)
         == (if l.Interior(t / l.dstWidth) && l.srcWidth + 2 * l.padX <= t % l.dstWidth then prev
             else Bordered(src, l, zero, c, t / l.dstWidth, t % l.dstWidth))
  {
    FlatBound(c, t, l.srcDepth, l.Plane());
    assert l.DstSize() == l.srcDepth * l.Plane();
    PlanePositive(l, q);
    DivMod(c, t, l.Plane());
  }

  /** The entry at row `y`, column `x` of channel `c`'s plane. */
  lemma EntryRowCol<T>(src: seq<T>, l: Layout, zero: T, prev: T, c: nat, y: nat, x: nat, q: nat)
    requires |src| >= l.SrcSize() && c < l.srcDepth && y < l.dstHeight && x < l.dstWidth
    requires q == c * l.Plane() + (y * l.dstWidth + x)
    ensures q < l.DstSize()
    ensures Entry(src, l, zero, prev, q)
         == (if l.Interior(y) && l.srcWidth + 2 * l.padX <= x then prev else Bordered(src, l, zero, c, y, x))
  {
    FlatBound(y, x, l.dstHeight, l.dstWidth);
    DivMod(y, x, l.dstWidth);
    EntryAt(src, l, zero, prev, c, y * l.dstWidth + x, q);
  }

  lemma DivAtLeast(t: nat, m: nat, n: nat)
    requires m > 0 && n * m <= t
    ensures n <= t / m
  {
    DivBounds(t, m);
    if t / m < n {
      MulMono(t / m + 1, n, m);
    }
  }

  /**
   * With unit strides and dilations the bordered image holds every tap: pixel
   * `(dstRow + kernelRow, dstCol + kernelCol)` of channel `c` is the sample
   * tap `(c, kernelRow, kernelCol)` of output pixel `(dstRow, dstCol)` covers,
   * that is the patch matrix entry `Geometry.PatchEntryAt` names.
   */
  lemma BorderedSample<T>(g: Geometry, src: seq<T>, zero: T,
                         dstRow: nat, dstCol: nat, channel: nat, kernelRow: nat, kernelCol: nat)
    requires g.Valid() && g.UnitStep() && |src| >= g.SrcSize()
    requires dstRow < g.dstHeight && dstCol < g.dstWidth
    requires channel < g.srcDepth && kernelRow < g.kernelY && kernelCol < g.kernelX
    ensures Bordered(src, Layout(g.srcWidth, g.srcHeight, g.srcDepth, g.padX, g.padY, 0, 0), zero,
                     channel, dstRow + kernelRow, dstCol + kernelCol)
         == Sample(g, src, zero, dstRow, dstCol, channel, kernelRow, kernelCol)
  {
    UnitStepMeans(g);
  }

  /** Offset of pixel `(y, x)` of channel `c` in the bordered image. */
  function Pos(l: Layout, c: nat, y: nat, x: nat): nat {
    c * l.Plane() + (y * l.dstWidth + x)
  }

  /**
   * What the direct kernels rely on: the bordered image, read at pixel
   * `(dstRow + kernelRow, dstCol + kernelCol)` of a channel, holds the sample
   * that tap covers, for every output pixel and tap of a unit-step geometry.
   */
  lemma TapInBordered<T>(g: Geometry, l: Layout, src: seq<T>, zero: T, prev: T,
                         dstRow: nat, dstCol: nat, channel: nat, kernelRow: nat, kernelCol: nat)
    requires g.Valid() && g.UnitStep() && |src| >= g.SrcSize() && l.Fits()
    requires l.srcWidth == g.srcWidth && l.srcHeight == g.srcHeight && l.srcDepth == g.srcDepth
    requires l.padX == g.padX && l.padY == g.padY
    requires dstRow < g.dstHeight && dstCol < g.dstWidth
    requires channel < g.srcDepth && kernelRow < g.kernelY && kernelCol < g.kernelX
    ensures Pos(l, channel, dstRow + kernelRow, dstCol + kernelCol) < l.DstSize()
    ensures Entry(src, l, zero, prev, Pos(l, channel, dstRow + kernelRow, dstCol + kernelCol))
         == Sample(g, src, zero, dstRow, dstCol, channel, kernelRow, kernelCol)
  {
    UnitStepExtent(g);
    var y, x := dstRow + kernelRow, dstCol + kernelCol;
    EntryRowCol(src, l, zero, prev, channel, y, x, Pos(l, channel, y, x));
    BorderedSample(g, src, zero, dstRow, dstCol, channel, kernelRow, kernelCol);
  }

  /**
   * Without padding the bordered image is the source itself, which is why the
   * strategy skips the packer then and hands the source to the kernels.
   */
  lemma UnpaddedIsSource<T>(src: seq<T>, l: Layout, zero: T, prev: T, q: nat)
    requires l.padX == 0 && l.padY == 0 && l.dstWidth == l.srcWidth && l.dstHeight == l.srcHeight
    requires |src| >= l.SrcSize() && q < l.DstSize()
    ensures q < |src| && Entry(src, l, zero, prev, q) == src[q]
  {
    var h, w := l.srcHeight, l.srcWidth;
    PlanePositive(l, q);
    var c, r := q / l.Plane(), q % l.Plane();
    Euclid(q, l.Plane());
    DivBelow(q, l.Plane(), l.srcDepth);
    DivBelow(r, w, h);
    Euclid(r, w);
    var y, x := r / w, r % w;
    DivMod3(c, y, x, h, w);
    MulAssoc(l.srcDepth, h, w);
  }

  /**
   * `Ver2::PrepareB`: for every channel, `padY` zero rows, then each source
   * row between `padX` zeros on either side, then `padY` zero rows.
   */
  method PrepareB<T>(src: array<T>, l: Layout, zero: T, dst: array<T>)
    requires src != dst && l.Fits()
    requires src.Length >= l.SrcSize() && dst.Length >= l.DstSize()
    modifies dst
    ensures forall q :: 0 <= q < l.DstSize() ==> dst[q] == Entry(src[..], l, zero, old(dst[q]), q)
    ensures forall q :: l.DstSize() <= q < dst.Length ==> dst[q] == old(dst[q])
  {
    var channel, d := 0, 0;
    while channel < l.srcDepth
      invariant channel <= l.srcDepth && d == channel * l.Plane()
      invariant forall q :: 0 <= q < d ==> dst[q] == Entry(src[..], l, zero, old(dst[q]), q)
      invariant forall q :: d <= q < dst.Length ==> dst[q] == old(dst[q])
    {
      d := PadChannel(src, src[..], l, zero, dst, channel, d);
      channel := channel + 1;
    }
  }

  /** One channel: the top border, the copied rows, the bottom border. */
  method PadChannel<T>(src: array<T>, ghost sv: seq<T>, l: Layout, zero: T, dst: array<T>, channel: nat, d0: nat) returns (d: nat)
    requires src != dst && l.Fits() && sv == src[..]
    requires src.Length >= l.SrcSize() && dst.Length >= l.DstSize()
    requires channel < l.srcDepth && d0 == channel * l.Plane()
    modifies dst
    ensures d == d0 + l.Plane() == (channel + 1) * l.Plane() && d <= l.DstSize()
    ensures forall q :: 0 <= q < d0 ==> dst[q] == old(dst[q])
    ensures forall q :: d0 <= q < d ==> dst[q] == Entry(sv, l, zero, old(dst[q]), q)
    ensures forall q :: d <= q < dst.Length ==> dst[q] == old(dst[q])
  {
    var w := l.dstWidth;
    var top := l.padY * w;
    ghost var body := (l.padY + l.srcHeight) * w;
    ChannelSplit(l, channel);
    d := PadBorder(src, sv, l, zero, dst, channel, d0, 0, d0, top);
    d := PadRows(src, sv, l, zero, dst, channel, d0, d, d0 + body);
    d := PadBorder(src, sv, l, zero, dst, channel, d0, l.padY + l.srcHeight, d, top);
  }

  /** A plane is the top border, the copied rows and the bottom border, and it fits in `dst`. */
  lemma ChannelSplit(l: Layout, channel: nat)
    requires l.Fits() && channel < l.srcDepth
    ensures 0 * l.dstWidth == 0
    ensures (l.padY + l.srcHeight) * l.dstWidth == l.padY * l.dstWidth + l.srcHeight * l.dstWidth
    ensures l.padY * l.dstWidth <= (l.padY + l.srcHeight) * l.dstWidth
    ensures l.Plane() == (l.padY + l.srcHeight) * l.dstWidth + l.padY * l.dstWidth
    ensures (channel + 1) * l.Plane() == channel * l.Plane() + l.Plane() <= l.DstSize()
  {
    MulMono(channel + 1, l.srcDepth, l.Plane());
    MulMono(l.padY, l.padY + l.srcHeight, l.dstWidth);
  }

  /** `padY` zero rows from row `y0` on: the top border (`y0 == 0`) or the bottom one. */
  method PadBorder<T>(src: array<T>, ghost sv: seq<T>, l: Layout, zero: T, dst: array<T>, channel: nat, d0: nat, y0: nat, d: nat, top: nat)
    returns (d': nat)
    requires src != dst && l.Fits() && sv == src[..]
    requires src.Length >= l.SrcSize() && dst.Length >= l.DstSize()
    requires channel < l.srcDepth && d0 == channel * l.Plane()
    requires (y0 == 0 || y0 == l.padY + l.srcHeight) && d0 <= d == d0 + y0 * l.dstWidth
    requires top == l.padY * l.dstWidth && d + top <= d0 + l.Plane() <= l.DstSize()
    modifies dst
    ensures d' == d + top
    ensures forall q :: 0 <= q < d ==> dst[q] == old(dst[q])
    ensures forall q :: d <= q < d' ==> dst[q] == Entry(sv, l, zero, old(dst[q]), q)
    ensures forall q :: d' <= q < dst.Length ==> dst[q] == old(dst[q])
  {
    var w := l.dstWidth;
    Fill(dst, d, top, zero);
    forall q | d <= q < d + top
      ensures dst[q] == Entry(sv, l, zero, old(dst[q]), q)
    {
      var t := q - d0;
      EntryAt(sv, l, zero, old(dst[q]), channel, t, q);
      if y0 == 0 {
        DivBelow(t, w, l.padY);
      } else {
        DivAtLeast(t, w, y0);
      }
    }
    d' := d + top;
  }

  /** The copied rows `padY .. padY + srcHeight` of one channel. */
  method PadRows<T>(src: array<T>, ghost sv: seq<T>, l: Layout, zero: T, dst: array<T>, channel: nat, d0: nat, d1: nat, ghost end: nat)
    returns (d: nat)
    requires src != dst && l.Fits() && sv == src[..]
    requires src.Length >= l.SrcSize() && dst.Length >= l.DstSize()
    requires channel < l.srcDepth && d0 == channel * l.Plane()
    requires d1 == d0 + l.padY * l.dstWidth && end == d0 + (l.padY + l.srcHeight) * l.dstWidth
    requires d1 <= end <= l.DstSize()
    modifies dst
    ensures d == end
    ensures forall q :: 0 <= q < d1 ==> dst[q] == old(dst[q])
    ensures forall q :: d1 <= q < d ==> dst[q] == Entry(sv, l, zero, old(dst[q]), q)
    ensures forall q :: d <= q < dst.Length ==> dst[q] == old(dst[q])
  {
    var w := l.dstWidth;
    d := d1;
    var row := l.padY;
    var s := RowOffset(channel, 0, l.srcHeight, l.srcWidth);
    while row < l.padY + l.srcHeight
      invariant l.padY <= row <= l.padY + l.srcHeight
      invariant d == d0 + row * w && s == RowOffset(channel, row - l.padY, l.srcHeight, l.srcWidth)
      invariant d1 <= d <= end
      invariant forall q :: 0 <= q < d1 ==> dst[q] == old(dst[q])
      invariant forall q :: d1 <= q < d ==> dst[q] == Entry(sv, l, zero, old(dst[q]), q)
      invariant forall q :: d <= q < dst.Length ==> dst[q] == old(dst[q])
    {
      RowEnd(l, channel, row);
      SourceRowEnd(channel, row - l.padY, l.srcDepth, l.srcHeight, l.srcWidth);
      PadRow(src, sv, l, zero, dst, channel, row, s, d0, d);
      RowStep(d0, row, w, l.padY + l.srcHeight);
      MulSucc(channel * l.srcHeight + (row - l.padY), l.srcWidth);
      d, s := d + w, s + l.srcWidth;
      row := row + 1;
    }
  }

  /** Offset of row `r` of channel `c` in a `depth × h × w` volume. */
  function RowOffset(c: nat, r: nat, h: nat, w: nat): nat {
    (c * h + r) * w
  }

  lemma RowStep(d0: nat, row: nat, w: nat, n: nat)
    requires row < n
    ensures d0 + row * w + w == d0 + (row + 1) * w <= d0 + n * w
  {
    MulMono(row + 1, n, w);
  }

  /** One copied row: `padX` zeros, the source row, `padX` zeros; the rest of the row is left alone. */
  method PadRow<T>(src: array<T>, ghost sv: seq<T>, l: Layout, zero: T, dst: array<T>, channel: nat, row: nat, s: nat, d0: nat, d: nat)
    requires src != dst && l.Fits() && sv == src[..]
    requires src.Length >= l.SrcSize() && dst.Length >= l.DstSize()
    requires channel < l.srcDepth && d0 == channel * l.Plane()
    requires l.Interior(row) && d == d0 + row * l.dstWidth
    requires s == RowOffset(channel, row - l.padY, l.srcHeight, l.srcWidth)
    requires d + l.dstWidth <= l.DstSize() && s + l.srcWidth <= l.SrcSize()
    modifies dst
    ensures forall q :: 0 <= q < d ==> dst[q] == old(dst[q])
    ensures forall q :: d <= q < d + l.dstWidth ==> dst[q] == Entry(sv, l, zero, old(dst[q]), q)
    ensures forall q :: d + l.dstWidth <= q < dst.Length ==> dst[q] == old(dst[q])
  {
    var w, padX, width := l.dstWidth, l.padX, l.srcWidth;
    ghost var before := dst[..];
    Fill(dst, d, padX, zero);
    Copy(src, s, dst, d + padX, width);
    Fill(dst, d + padX + width, padX, zero);
    forall q | d <= q < d + w
      ensures dst[q] == Entry(sv, l, zero, before[q], q)
    {
      EntryRowCol(sv, l, zero, before[q], channel, row, q - d, q);
    }
  }

  lemma RowEnd(l: Layout, channel: nat, row: nat)
    requires l.Fits() && channel < l.srcDepth && row < l.dstHeight
    ensures channel * l.Plane() + row * l.dstWidth + l.dstWidth <= l.DstSize()
    ensures row * l.dstWidth + l.dstWidth <= l.Plane()
  {
    MulMono(row + 1, l.dstHeight, l.dstWidth);
    MulMono(channel + 1, l.srcDepth, l.Plane());
  }

  lemma SourceRowEnd(c: nat, r: nat, depth: nat, h: nat, w: nat)
    requires c < depth && r < h
    ensures (c * h + r) * w + w <= depth * h * w
  {
    FlatBound(c, r, depth, h);
    MulMono(c * h + r + 1, depth * h, w);
  }
}
