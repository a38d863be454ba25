/**
 * `NeuralConvolutionForward` up to the GEMM: clear the output unless
 * accumulating, choose the strategy, set up the scratch arena, pack the
 * operands the chosen strategy multiplies, and point each operand either at
 * its packed region or straight at the caller's array when nothing needs
 * packing.
 *
 * The arena's regions `a`, `b` and `t` are addresses in `Arena.Data`; the
 * packers write into the arrays `bufA`, `bufB` and `bufT`, which stand for
 * the memory at those addresses.
 */
module Facade {
  import opened Common
  import opened Geometry
  import opened Strategy
  import opened Arena
  import Ver0
  import Ver1
  import Ver2

  /** Floats of the output volume (`dstWidth*dstHeight*dstDepth`). */
  function OutputSize(g: Geometry): nat {
    g.dstWidth * g.dstHeight * g.dstDepth
  }

  /**
   * The preparation half of `NeuralConvolutionForward`. `weightAt` and
   * `srcAt` are the byte addresses of `weight` and `src`; `ext`, `extSize`
   * and `block` are the caller's buffer, its size and the allocator's
   * result, as `Arena.Data` takes them. Returns the `Opt`, the arena, and
   * the arrays `data.a` and `data.b` end up pointing at.
   */
  method Prepare<T>(src: array<T>, weight: array<T>, g: Geometry, zero: T, add: bool, dst: array<T>,
                    ext: Option<nat>, extSize: SizeCell?, block: nat, weightAt: nat, srcAt: nat,
                    bufA: array<T>, bufB: array<T>, bufT: array<T>)
    returns (o: Opt, data: Data, opA: array<T>, opB: array<T>)
    requires g.Valid()
    requires src.Length >= g.SrcSize() && weight.Length >= g.M() * g.K() && dst.Length >= OutputSize(g)
    requires bufA.Length >= MakeOpt(g).sizeA && bufB.Length >= MakeOpt(g).sizeB && bufT.Length >= MakeOpt(g).sizeT
    requires dst != bufA && dst != bufB && dst != bufT && bufA != bufB && bufA != bufT && bufB != bufT
    requires src != dst && src != bufA && src != bufB && src != bufT
    requires weight != dst && weight != bufA && weight != bufB && weight != bufT
    modifies dst, bufA, bufB, bufT, extSize
    ensures o == MakeOpt(g) && fresh(data)
    // `if (!add) memset(dst, 0, ...)`: the output is cleared or left to accumulate into.
    ensures forall q :: 0 <= q < dst.Length ==>
      dst[q] == (if !add && q < OutputSize(g) then zero else old(dst[q]))
    // The arena as its constructor leaves it, except that an empty `a` or `b`
    // now points at the caller's weights or source.
    ensures var p := Arrange(o.sizeA, o.sizeB, o.sizeT, ext, old(SizeOf(extSize)), block);
      && data.a == (if o.sizeA > 0 then p.a else At(weightAt))
      && data.b == (if o.sizeB > 0 then p.b else At(srcAt))
      && data.t == p.t && data.owned == p.alloc
    ensures opA == (if o.sizeA > 0 then bufA else weight)
    ensures opB == (if o.sizeB > 0 then bufB else src)
    // What each strategy's `Execute` reads through `data.a` and `data.b`.
    ensures o.alg == UseVer0 ==>
      opA == weight && forall q :: 0 <= q < g.N() * g.K() ==> opB[q] == Ver0.Im2colEntry(g, src[..], zero, q)
    ensures o.alg == UseVer1 ==>
      && (forall q :: 0 <= q < g.M() * g.K() ==> opA[q] == weight[Ver1.PackedAIndex(g.M(), g.K(), 4, q)])
      && (forall q :: 0 <= q < AlignHi(g.N(), 16) * g.K() ==> opB[q] == Ver1.PackedBEntry(g, src[..], zero, 16, q))
    ensures o.alg == UseVer2 ==>
      && o.paddedW.Some? && o.paddedH.Some?
      && var l := Ver2Layout(g, o);
      && l.Fits() && opB.Length >= l.DstSize()
      && forall q :: 0 <= q < l.DstSize() ==> opB[q] == Ver2.Entry(src[..], l, zero, old(opB[q]), q)
    ensures src[..] == old(src[..]) && weight[..] == old(weight[..])
  {
    if !add {
      Fill(dst, 0, OutputSize(g), zero);
    }
    OptCoversPackers(g);
    o := MakeOpt(g);
    ghost var cells := SizeOf(extSize);
    data := new Data(o.sizeA, o.sizeB, o.sizeT, ext, extSize, block);
    assert Plan(data.a, data.b, data.t, data.owned) == Arrange(o.sizeA, o.sizeB, o.sizeT, ext, cells, block);
    if o.sizeA > 0 {
      if o.alg == UseVer1 {
        Ver1.PrepareA(weight, o.M, o.K, o.cellA, zero, bufA);
      }
      opA := bufA;
    } else {
      data.a := At(weightAt);
      opA := weight;
    }
    if o.sizeB > 0 {
      if o.alg == UseVer0 {
        Ver0.PrepareB(src, g, zero, bufB);
      } else if o.alg == UseVer1 {
        Ver1.PrepareB(src, g, o.cellB, zero, bufT, bufB);
      } else if o.alg == UseVer2 {
        Ver2.PrepareB(src, Ver2Layout(g, o), zero, bufB);
      }
      opB := bufB;
    } else {
      data.b := At(srcAt);
      opB := src;
      if o.alg == UseVer2 {
        assert src[..] == old(src[..]);
        UnpaddedOperand(g, o, src[..], zero);
      }
    }
  }

  /**
   * Without padding Ver2 packs nothing and its `Execute` reads the source
   * itself: the source already is the bordered image, whatever `b` held.
   */
  lemma UnpaddedOperand<T>(g: Geometry, o: Opt, s: seq<T>, zero: T)
    requires g.Valid() && o == MakeOpt(g) && o.alg == UseVer2 && o.sizeB == 0 && |s| >= g.SrcSize()
    ensures o.paddedW.Some? && o.paddedH.Some?
    ensures var l := Ver2Layout(g, o);
      l.DstSize() <= |s| && forall q :: 0 <= q < l.DstSize() ==> Ver2.Entry(s, l, zero, s[q], q) == s[q]
  {
    OptCoversPackers(g);
    var l := Ver2Layout(g, o);
    if g.padX == 0 && g.padY == 0 {
      MulAssoc(g.srcDepth, g.srcHeight, g.srcWidth);
      forall q | 0 <= q < l.DstSize()
        ensures Ver2.Entry(s, l, zero, s[q], q) == s[q]
      {
        Ver2.UnpaddedIsSource(s, l, zero, s[q], q);
      }
    }
  }
}
