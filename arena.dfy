/**
 * `Ncf::Data`: the scratch arena of `NeuralConvolutionForward`. Sizes are
 * counted in floats, addresses in bytes; a pointer is a byte address. The
 * arena either reuses the caller's buffer or allocates its own block, and
 * carves the regions `a`, `b` and `t` out of it one after the other.
 */
module Arena {
  import opened Common

  /** A float pointer field: null, never assigned, or a byte address. */
  datatype Ptr = Null | Unset | At(addr: nat)

  /** Where the regions went and whether the arena allocated (and how many bytes). */
  datatype Plan = Plan(a: Ptr, b: Ptr, t: Ptr, alloc: Option<nat>)

  /** Bytes of the three regions, each rounded up to a multiple of `F` floats. */
  function Bytes(sizeA: nat, sizeB: nat, sizeT: nat): nat {
    (AlignHi(sizeA, F) + AlignHi(sizeB, F) + AlignHi(sizeT, F)) * FloatBytes
  }

  /** The caller's buffer is not on a `SIMD_ALIGN` boundary (a null buffer is aligned). */
  predicate Misaligned(ext: Option<nat>) {
    ext.Some? && ext.value % SimdAlign != 0
  }

  /** Bytes the arena needs: the regions, plus room to align a misaligned buffer. */
  function Need(sizeA: nat, sizeB: nat, sizeT: nat, ext: Option<nat>): nat {
    Bytes(sizeA, sizeB, sizeT) + (if Misaligned(ext) then SimdAlign else 0)
  }

  /** The caller's buffer is used: it exists, its size is known, and it is large enough. */
  predicate Reuses(sizeA: nat, sizeB: nat, sizeT: nat, ext: Option<nat>, extSize: Option<nat>) {
    ext.Some? && extSize.Some? && extSize.value >= Need(sizeA, sizeB, sizeT, ext)
  }

  /**
   * The constructor's decisions as a value: `block` is the address the
   * allocator returns, `extSize` the value behind `externalSize` (None when
   * that pointer is null).
   */
  function Arrange(sizeA: nat, sizeB: nat, sizeT: nat, ext: Option<nat>, extSize: Option<nat>, block: nat): (p: Plan)
    ensures Bytes(sizeA, sizeB, sizeT) > 0 && !Reuses(sizeA, sizeB, sizeT, ext, extSize)
      <==> p.alloc == Some(Need(sizeA, sizeB, sizeT, ext))
    ensures p.alloc.None? <==> Bytes(sizeA, sizeB, sizeT) == 0 || Reuses(sizeA, sizeB, sizeT, ext, extSize)
  {
    var sA, sB, sT := AlignHi(sizeA, F), AlignHi(sizeB, F), AlignHi(sizeT, F);
    if Bytes(sizeA, sizeB, sizeT) == 0 then
      Plan(Null, Null, Unset, None)
    else
      var reuse := Reuses(sizeA, sizeB, sizeT, ext, extSize);
      var data := if reuse then AlignHi(ext.value, SimdAlign) else block;
      Plan(Region(sA, data, Null), Region(sB, data + sA * FloatBytes, Null), Region(sT, data + (sA + sB) * FloatBytes, Unset),
           if reuse then None else Some(Need(sizeA, sizeB, sizeT, ext)))
  }

  /** `if (size) p = addr;`: a region pointer is set only when its rounded size is non-zero. */
  function Region(size: nat, addr: nat, otherwise: Ptr): Ptr {
    if size > 0 then At(addr) else otherwise
  }

  /** Start of the block the regions are carved from. */
  function Base(sizeA: nat, sizeB: nat, sizeT: nat, ext: Option<nat>, extSize: Option<nat>, block: nat): nat {
    if Reuses(sizeA, sizeB, sizeT, ext, extSize) then AlignHi(ext.value, SimdAlign) else block
  }

  /** The `size_t` the caller passes as `externalSize`. */
  class SizeCell {
    var size: nat

    constructor(size0: nat)
      ensures size == size0
    {
      size := size0;
    }
  }

  /** The value behind a possibly null `externalSize`. */
  function SizeOf(cell: SizeCell?): Option<nat>
    reads cell
  {
    if cell == null then None else Some(cell.size)
  }

  class Data {
    var a: Ptr
    var b: Ptr
    var t: Ptr
    /** The arena's own block (`_data`): its size in bytes, when it allocated one. */
    var owned: Option<nat>

    /**
     * `Data(sizeA, sizeB, sizeT, externalData, externalSize)`, with the
     * allocator's result `block` (a `SIMD_ALIGN`-aligned address) as a parameter.
     */
    constructor(sizeA: nat, sizeB: nat, sizeT: nat, ext: Option<nat>, extSize: SizeCell?, block: nat)
      modifies extSize
      ensures Plan(a, b, t, owned) == Arrange(sizeA, sizeB, sizeT, ext, old(SizeOf(extSize)), block)
      ensures extSize != null ==> extSize.size == (if owned.Some? then owned.value else old(extSize.size))
    {
      var sA, sB, sT := AlignHi(sizeA, F), AlignHi(sizeB, F), AlignHi(sizeT, F);
      var size := (sA + sB + sT) * FloatBytes;
      a, b, t, owned := Null, Null, Unset, None;
      if size != 0 {
        if ext.Some? {
          AlignedIff(ext.value);
        }
        if ext.Some? && ext.value != AlignHi(ext.value, SimdAlign) {
          size := size + SimdAlign;
        }
        var data: nat;
        if ext.None? || extSize == null || extSize.size < size {
          owned := Some(size);
          if extSize != null {
            extSize.size := size;
          }
          data := block;
        } else {
          data := AlignHi(ext.value, SimdAlign);
        }
        a := Region(sA, data, Null);
        b := Region(sB, data + sA * FloatBytes, Null);
        t := Region(sT, data + (sA + sB) * FloatBytes, Unset);
      }
    }
  }

  /**
   * With nothing to hold, `a` and `b` stay null, `t` is never assigned, and
   * nothing is allocated.
   */
  lemma EmptyArena(sizeA: nat, sizeB: nat, sizeT: nat, ext: Option<nat>, extSize: Option<nat>, block: nat)
    requires sizeA == 0 && sizeB == 0 && sizeT == 0
    ensures Arrange(sizeA, sizeB, sizeT, ext, extSize, block) == Plan(Null, Null, Unset, None)
  {
    assert Bytes(sizeA, sizeB, sizeT) == 0;
  }

  /** A non-null region holds something: each size is zero exactly when its pointer is not an address. */
  lemma RegionsPresent(sizeA: nat, sizeB: nat, sizeT: nat, ext: Option<nat>, extSize: Option<nat>, block: nat)
    ensures var p := Arrange(sizeA, sizeB, sizeT, ext, extSize, block);
      (p.a.At? <==> sizeA > 0) && (p.b.At? <==> sizeB > 0) && (p.t.At? <==> sizeT > 0)
  {
    RoundedZero(sizeA);
    RoundedZero(sizeB);
    RoundedZero(sizeT);
  }

  lemma RoundedZero(x: nat)
    ensures AlignHi(x, F) == 0 <==> x == 0
  {
  }

  /**
   * The regions lie one after the other from the block's start, `a` first,
   * then `b`, then `t`; each spans its rounded size and starts on a
   * `SIMD_ALIGN` boundary when the block does.
   */
  lemma RegionsConsecutive(sizeA: nat, sizeB: nat, sizeT: nat, ext: Option<nat>, extSize: Option<nat>, block: nat)
    requires block % SimdAlign == 0
    ensures var p := Arrange(sizeA, sizeB, sizeT, ext, extSize, block);
      var base := Base(sizeA, sizeB, sizeT, ext, extSize, block);
      var endA := base + AlignHi(sizeA, F) * FloatBytes;
      var endB := endA + AlignHi(sizeB, F) * FloatBytes;
      && base % SimdAlign == 0 && endA % SimdAlign == 0 && endB % SimdAlign == 0
      && (p.a.At? ==> p.a.addr == base)
      && (p.b.At? ==> p.b.addr == endA)
      && (p.t.At? ==> p.t.addr == endB)
      && endB + AlignHi(sizeT, F) * FloatBytes == base + Bytes(sizeA, sizeB, sizeT)
  {
    var base := Base(sizeA, sizeB, sizeT, ext, extSize, block);
    var sA, sB := AlignHi(sizeA, F), AlignHi(sizeB, F);
    RegionAligned(base, sA);
    RegionAligned(base + sA * FloatBytes, sB);
  }

  /** A region of a whole number of registers keeps the alignment of its start. */
  lemma RegionAligned(start: nat, floats: nat)
    requires start % SimdAlign == 0 && floats % F == 0
    ensures (start + floats * FloatBytes) % SimdAlign == 0
  {
    var r := floats / F;
    Euclid(floats, F);
    assert floats * FloatBytes == r * SimdAlign;
    var s := start / SimdAlign;
    Euclid(start, SimdAlign);
    assert start + floats * FloatBytes == (s + r) * SimdAlign;
    DivMod(s + r, 0, SimdAlign);
  }

  /**
   * A reused buffer is large enough: the aligned block start plus all three
   * regions stays inside the `*externalSize` bytes the caller supplied.
   */
  lemma ReusedFits(sizeA: nat, sizeB: nat, sizeT: nat, ext: Option<nat>, extSize: Option<nat>, block: nat)
    requires Reuses(sizeA, sizeB, sizeT, ext, extSize)
    ensures ext.value <= Base(sizeA, sizeB, sizeT, ext, extSize, block)
    ensures Base(sizeA, sizeB, sizeT, ext, extSize, block) + Bytes(sizeA, sizeB, sizeT) <= ext.value + extSize.value
  {
    var x := ext.value;
    if x % SimdAlign == 0 {
      AlignedFixed(x);
    }
  }

  /** `AlignHi` leaves an aligned address where it is. */
  lemma AlignedFixed(x: nat)
    requires x % SimdAlign == 0
    ensures AlignHi(x, SimdAlign) == x
  {
    var r := AlignHi(x, SimdAlign);
    if r != x {
      MultipleStep(x, r, SimdAlign);
    }
  }

  /** `AlignHi` moves an address exactly when it is not on a `SIMD_ALIGN` boundary. */
  lemma AlignedIff(x: nat)
    ensures AlignHi(x, SimdAlign) == x <==> x % SimdAlign == 0
  {
    if x % SimdAlign == 0 {
      AlignedFixed(x);
    }
  }

  /**
   * An allocated block holds all three regions: they start at the block
   * itself, follow one another, and end within the bytes allocated.
   */
  lemma AllocatedFits(sizeA: nat, sizeB: nat, sizeT: nat, ext: Option<nat>, extSize: Option<nat>, block: nat)
    requires Arrange(sizeA, sizeB, sizeT, ext, extSize, block).alloc.Some?
    ensures var p := Arrange(sizeA, sizeB, sizeT, ext, extSize, block);
      var endA := block + AlignHi(sizeA, F) * FloatBytes;
      var endB := endA + AlignHi(sizeB, F) * FloatBytes;
      && (p.a.At? ==> p.a.addr == block)
      && (p.b.At? ==> p.b.addr == endA)
      && (p.t.At? ==> p.t.addr == endB)
      && endB + AlignHi(sizeT, F) * FloatBytes <= block + p.alloc.value
  {
    assert Base(sizeA, sizeB, sizeT, ext, extSize, block) == block;
  }

  /**
   * The protocol the size write-back supports: after an allocation the
   * caller's `*externalSize` holds the bytes needed, so a second call with the
   * same (non-null) buffer of that size reuses it instead of allocating.
   */
  lemma RetryReuses(sizeA: nat, sizeB: nat, sizeT: nat, ext: Option<nat>, extSize: Option<nat>, block: nat, block2: nat)
    requires Arrange(sizeA, sizeB, sizeT, ext, extSize, block).alloc.Some? && ext.Some?
    ensures var n := Arrange(sizeA, sizeB, sizeT, ext, extSize, block).alloc.value;
      Arrange(sizeA, sizeB, sizeT, ext, Some(n), block2).alloc.None?
  {
  }

  /**
   * The size query the write-back also serves: a first call with a null
   * buffer allocates and writes back exactly the regions' bytes, with no
   * alignment slack. A second call with a buffer of that size then reuses it
   * exactly when the buffer is on a `SIMD_ALIGN` boundary; a misaligned one
   * needs `SIMD_ALIGN` more and is allocated around on every call.
   */
  lemma SizeQueryReuses(sizeA: nat, sizeB: nat, sizeT: nat, extSize: Option<nat>, block: nat, x: nat, block2: nat)
    requires Bytes(sizeA, sizeB, sizeT) > 0
    ensures Arrange(sizeA, sizeB, sizeT, None, extSize, block).alloc == Some(Bytes(sizeA, sizeB, sizeT))
    ensures Arrange(sizeA, sizeB, sizeT, Some(x), Some(Bytes(sizeA, sizeB, sizeT)), block2).alloc.None?
      <==> x % SimdAlign == 0
  {
  }
}
