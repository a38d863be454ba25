/**
 * The row ring `Buffer<count>` of the large backward convolution, the
 * schedule `NeuralAddConvolutionBackwardLarge` feeds it with, and the
 * reversed weight load of that routine.
 */
module RowBuffer {
  import opened Common

  /** `width` copies of `zero`: what `memset(.., 0, width*4)` leaves. */
  function Zeros<T>(width: nat, zero: T): (r: seq<T>)
    ensures |r| == width && forall i :: 0 <= i < width ==> r[i] == zero
  {
    seq(width, _ => zero)
  }

  /** Two different slots of `stride` entries do not overlap: one ends before the other starts. */
  lemma SlotsApart(a: nat, b: nat, stride: nat)
    requires a != b
    ensures a * stride + stride <= b * stride || b * stride + stride <= a * stride
  {
    if a < b {
      MulMono(a + 1, b, stride);
      MulSucc(a, stride);
    } else {
      MulMono(b + 1, a, stride);
      MulSucc(b, stride);
    }
  }

  /** The row windows `[k*stride + off, k*stride + off + width)` of two different slots do not overlap. */
  lemma WindowsApart(k: nat, slot: nat, stride: nat, off: nat, width: nat)
    requires k != slot && off + width <= stride
    ensures k * stride + off + width <= slot * stride + off || slot * stride + off + width <= k * stride + off
  {
    SlotsApart(k, slot, stride);
  }

  /** `rows[0] = _ptr; rows[i] = rows[i - 1] + stride`: slot `i` starts `i*stride` entries into the block. */
  method SlotStarts(count: nat, stride: nat) returns (rows: array<nat>)
    requires count >= 1
    ensures fresh(rows) && rows.Length == count
    ensures forall i :: 0 <= i < count ==> rows[i] == i * stride
  {
    rows := new nat[count];
    rows[0] := 0;
    var i := 1;
    while i < count
      invariant 1 <= i <= count
      invariant forall j :: 0 <= j < i ==> rows[j] == j * stride
    {
      rows[i] := rows[i - 1] + stride;
      MulSucc(i - 1, stride);
      i := i + 1;
    }
  }

  /** A slice of a block of zeros is all zeros. */
  lemma ZeroSlice<T>(m: seq<T>, lo: nat, len: nat, zero: T)
    requires lo + len <= |m| && forall q :: 0 <= q < |m| ==> m[q] == zero
    ensures m[lo .. lo + len] == Zeros(len, zero)
  {
  }

  /** A write confined to `[at, at + len)` leaves a slice `[lo, lo + len)` apart from it as it was. */
  lemma SliceKept<T>(before: seq<T>, after: seq<T>, lo: nat, len: nat, at: nat)
    requires |before| == |after| && lo + len <= |after|
    requires lo + len <= at || at + len <= lo
    requires forall q :: 0 <= q < |after| && !(at <= q < at + len) ==> after[q] == before[q]
    ensures after[lo .. lo + len] == before[lo .. lo + len]
  {
  }

  lemma SlotBound(k: nat, x: nat, count: nat, stride: nat)
    requires k < count && x <= stride
    ensures k * stride + x <= count * stride
  {
    MulMono(k + 1, count, stride);
  }

  /**
   * `Buffer<count>`: `count` slots of `stride` entries in one zeroed block,
   * and the array `rows` of slot starts, oldest first. A slot holds a row of
   * `width` entries at offset `count - 1`, between zero margins.
   */
  class Buffer<T> {
    const count: nat
    const width: nat
    const stride: nat
    const zero: T
    /** The block `_ptr` points to. */
    const mem: array<T>
    /** `rows[count]`, as offsets into `mem`. */
    const rows: array<nat>
    /** Which slot each entry of `rows` points to. */
    ghost var order: seq<nat>

    /**
     * The fixed layout: `count` slots of `stride` entries, each wide enough for
     * a row after a margin of `count - 1` (the constructor fixes `stride` at
     * `AlignHi(width + 2*(count - 1), F)`).
     */
    predicate Shape() {
      && count >= 1 && count - 1 + width <= stride
      && mem.Length == count * stride && rows.Length == count
    }

    /**
     * The slots are a permutation of the `count` slots of the block, and
     * every entry of a slot outside its row window is zero.
     */
    ghost predicate Valid()
      reads this, rows, mem
    {
      && Shape() && rows != mem as object && |order| == count
      && (forall i :: 0 <= i < count ==> order[i] < count && rows[i] == order[i] * stride)
      && (forall i, j :: 0 <= i < j < count ==> order[i] != order[j])
      && Margins(mem[..])
    }

    /** An offset within a slot that belongs to its row (the rest are margins). */
    predicate InWindow(x: nat) {
      count - 1 <= x < count - 1 + width
    }

    /** Every margin entry of a block's contents `m` is zero. */
    ghost predicate Margins(m: seq<T>) {
      stride > 0 ==> forall q :: 0 <= q < |m| && !InWindow(q % stride) ==> m[q] == zero
    }

    /** The row window of slot `k` in a block's contents `m`. */
    ghost function Row(m: seq<T>, k: nat): (r: seq<T>)
      requires Shape() && |m| == mem.Length && k < count
      ensures |r| == width
    {
      SlotFits(k, count - 1 + width);
      m[k * stride + count - 1 .. k * stride + count - 1 + width]
    }

    /** The row held in entry `i` of `rows`. */
    ghost function Content(i: nat): (r: seq<T>)
      requires Valid() && i < count
      reads this, rows, mem
      ensures |r| == width
    {
      Row(mem[..], order[i])
    }

    /** Position `x <= stride` of slot `k` is inside the block, and so is the row window. */
    lemma SlotFits(k: nat, x: nat)
      requires Shape() && k < count && x <= stride
      ensures k * stride + x <= mem.Length
      ensures count - 1 + width <= stride
    {
      SlotBound(k, x, count, stride);
    }

    /** `Buffer(width)`: the zeroed block and `rows[i] = rows[i - 1] + stride`. */
    constructor(count: nat, width: nat, zero: T)
      requires count >= 1
      ensures Valid() && fresh(mem) && fresh(rows)
      ensures this.count == count && this.width == width && this.zero == zero
      ensures stride == AlignHi(width + 2 * (count - 1), F)
      ensures forall i :: 0 <= i < count ==> rows[i] == i * stride
      ensures forall i :: 0 <= i < count ==> Content(i) == Zeros(width, zero)
    {
      var stride := AlignHi(width + 2 * (count - 1), F);
      this.count, this.width, this.stride, this.zero := count, width, stride, zero;
      mem := new T[count * stride](_ => zero);
      var starts := SlotStarts(count, stride);
      rows := starts;
      order := seq(count, j => j);
      new;
      assert forall q :: 0 <= q < |mem[..]| ==> mem[..][q] == zero;
      ZeroBlock(mem[..]);
    }

    /** A block of zeros has zero margins and only zero rows. */
    lemma ZeroBlock(m: seq<T>)
      requires Shape() && |m| == mem.Length
      requires forall q :: 0 <= q < |m| ==> m[q] == zero
      ensures Margins(m)
      ensures forall k :: 0 <= k < count ==> Row(m, k) == Zeros(width, zero)
    {
      forall k | 0 <= k < count
        ensures Row(m, k) == Zeros(width, zero)
      {
        SlotFits(k, count - 1 + width);
        ZeroSlice(m, k * stride + count - 1, width, zero);
      }
    }

    /**
     * `Update(src)`: the oldest slot receives the next row (a copy of
     * `src[at .. at + width]`, or zeros when `src` is null) and becomes the
     * newest; the other slots move one place towards the front.
     */
    method Update(src: array?<T>, at: nat)
      requires Valid()
      requires src != null ==> src != mem && at + width <= src.Length
      modifies this, rows, mem
      ensures Valid()
      ensures rows[..] == old(rows[1..]) + [old(rows[0])]
      ensures order == old(order[1..]) + [old(order[0])]
      ensures forall i :: 0 <= i < count - 1 ==> Content(i) == old(Content(i + 1))
      ensures Content(count - 1) == if src == null then Zeros(width, zero) else old(src[at .. at + width])
    {
      ghost var before, o := mem[..], order;
      ghost var row := if src == null then Zeros(width, zero) else src[at .. at + width];
      Refill(src, at);
      Rotate();
      order := o[1..] + [o[0]];
      Recycled(before, o, row);
    }

    /**
     * After `Update` wrote `row` into the window of the oldest slot `o[0]` and
     * moved that slot to the back, the ring is valid again and holds the rows
     * of slots `o[1..]`, unchanged, then `row`.
     */
    lemma Recycled(before: seq<T>, o: seq<nat>, row: seq<T>)
      requires Shape() && rows != mem as object && |o| == count && |row| == width
      requires (forall i :: 0 <= i < count ==> o[i] < count) && (forall i, j :: 0 <= i < j < count ==> o[i] != o[j])
      requires |before| == mem.Length && Margins(before)
      requires order == o[1..] + [o[0]]
      requires forall i :: 0 <= i < count ==> rows[i] == order[i] * stride
      requires forall q :: 0 <= q < mem.Length ==>
        mem[q] == if o[0] * stride + count - 1 <= q < o[0] * stride + count - 1 + width
                  then row[q - (o[0] * stride + count - 1)] else before[q]
      ensures Valid()
      ensures forall i :: 0 <= i < count - 1 ==> Content(i) == Row(before, o[i + 1])
      ensures Content(count - 1) == row
    {
      var after := mem[..];
      MarginsKept(before, after, o[0]);
      forall i, j | 0 <= i < j < count
        ensures order[i] != order[j]
      {
        if j < count - 1 {
          assert order[i] == o[i + 1] && order[j] == o[j + 1];
        } else {
          assert order[i] == o[i + 1] && order[j] == o[0];
        }
      }
      forall i | 0 <= i < count - 1
        ensures Row(after, order[i]) == Row(before, o[i + 1])
      {
        RowUntouched(before, after, o[0], o[i + 1]);
      }
      SlotFits(o[0], count - 1 + width);
      assert Row(after, o[0]) == row;
    }

    /** The `memset`/`memcpy` of `Update`: the row window of the oldest slot receives the next row. */
    method Refill(src: array?<T>, at: nat)
      requires Valid()
      requires src != null ==> src != mem && at + width <= src.Length
      modifies mem
      ensures forall q :: 0 <= q < mem.Length ==>
        mem[q] == (if rows[0] + count - 1 <= q < rows[0] + count - 1 + width
                   then (if src == null then zero else src[at + q - (rows[0] + count - 1)])
                   else old(mem[q]))
    {
      var tmp := rows[0];
      SlotFits(order[0], count - 1 + width);
      if src == null {
        Fill(mem, tmp + count - 1, width, zero);
      } else {
        Copy(src, at, mem, tmp + count - 1, width);
      }
    }

    /** The loop of `Update` that moves every slot pointer one place to the front. */
    method Rotate()
      requires rows.Length >= 1
      modifies rows
      ensures rows[..] == old(rows[1..]) + [old(rows[0])]
    {
      var tmp := rows[0];
      var i := 0;
      while i < rows.Length - 1
        invariant i <= rows.Length - 1
        invariant forall j :: 0 <= j < i ==> rows[j] == old(rows[j + 1])
        invariant forall j :: i <= j < rows.Length ==> rows[j] == old(rows[j])
      {
        rows[i] := rows[i + 1];
        i := i + 1;
      }
      rows[rows.Length - 1] := tmp;
    }

    /** The write of `Update` stays inside the window of slot `slot`, so the margins stay zero. */
    lemma MarginsKept(before: seq<T>, after: seq<T>, slot: nat)
      requires Shape() && slot < count && |before| == |after| == mem.Length && Margins(before)
      requires forall q :: 0 <= q < |after| && !(slot * stride + count - 1 <= q < slot * stride + count - 1 + width) ==>
                  after[q] == before[q]
      ensures Margins(after)
    {
      if stride > 0 {
        forall q | 0 <= q < |after| && !InWindow(q % stride)
          ensures after[q] == zero
        {
          if slot * stride + count - 1 <= q < slot * stride + count - 1 + width {
            DivMod(slot, q - slot * stride, stride);
          }
        }
      }
    }

    /** A slot other than the one written keeps its row. */
    lemma RowUntouched(before: seq<T>, after: seq<T>, slot: nat, k: nat)
      requires Shape() && slot < count && k < count && k != slot && |before| == |after| == mem.Length
      requires forall q :: 0 <= q < |after| && !(slot * stride + count - 1 <= q < slot * stride + count - 1 + width) ==>
                  after[q] == before[q]
      ensures Row(after, k) == Row(before, k)
    {
      SlotFits(k, count - 1 + width);
      WindowsApart(k, slot, stride, count - 1, width);
      SliceKept(before, after, k * stride + count - 1, width, slot * stride + count - 1);
    }
  }

  /**
   * Source row `j` of the band as the ring receives it: a copy of
   * `src[j*srcStride .. j*srcStride + width]` for the `height` rows of the
   * band, zeros before the first row and after the last.
   */
  function Fed<T>(src: seq<T>, srcStride: nat, width: nat, height: nat, zero: T, j: int): (r: seq<T>)
    requires height >= 1 && (height - 1) * srcStride + width <= |src|
    ensures |r| == width
  {
    if 0 <= j < height then
      SourceRowFits(j, srcStride, width, height);
      src[j * srcStride .. j * srcStride + width]
    else
      Zeros(width, zero)
  }

  lemma SourceRowFits(j: nat, srcStride: nat, width: nat, height: nat)
    requires j < height
    ensures j * srcStride + width <= (height - 1) * srcStride + width
  {
    MulMono(j, height - 1, srcStride);
  }

  /** The calls `Update(src)`, `Update(NULL)` the driver makes: the offset of the row copied, or None. */
  function Schedule(srcStride: nat, height: nat, coreY: nat): (r: seq<Option<nat>>)
    requires coreY >= 1
    ensures |r| == height + coreY - 1
    ensures forall row :: 0 <= row < height ==> r[row] == Some(row * srcStride)
    ensures forall row :: height <= row < |r| ==> r[row] == None
  {
    seq(height + coreY - 1, row => if row < height then Some(row * srcStride) else None)
  }

  /**
   * The ring schedule of `NeuralAddConvolutionBackwardLarge` (its float
   * kernels left out): a ring of `coreX` rows of `width` entries, then one
   * update per output row of the band `height + coreY - 1` rows high, with the
   * source row while `row <= height - coreY` holds (after `height += coreY - 1`)
   * and zeros after. After every update the ring holds the last `coreX` rows
   * the band received, oldest first, with zeros standing in before the first.
   */
  method BackwardSchedule<T>(src: array<T>, srcStride: nat, width: nat, height: nat,
                             coreX: nat, coreY: nat, zero: T) returns (buffer: Buffer<T>, ghost log: seq<Option<nat>>)
    requires coreX >= 1 && coreY >= 1 && height >= 1
    requires (height - 1) * srcStride + width <= src.Length
    ensures fresh(buffer) && fresh(buffer.mem) && fresh(buffer.rows) && buffer.Valid()
    ensures buffer.count == coreX && buffer.width == width
    ensures log == Schedule(srcStride, height, coreY)
    ensures forall i :: 0 <= i < coreX ==>
      buffer.Content(i) == Fed(src[..], srcStride, width, height, zero, height + coreY - 1 - coreX + i)
  {
    ghost var sv := src[..];
    buffer := new Buffer(coreX, width, zero);
    var rowsTotal := height + coreY - 1;
    log := [];
    var row := 0;
    while row < rowsTotal
      invariant row <= rowsTotal && src[..] == sv
      invariant fresh(buffer) && fresh(buffer.mem) && fresh(buffer.rows)
      invariant buffer.count == coreX && buffer.width == width && buffer.zero == zero
      invariant log == Schedule(srcStride, height, coreY)[..row]
      invariant Holds(buffer, sv, srcStride, height, row)
    {
      var copy := row <= rowsTotal - coreY;
      var fed := FeedRow(buffer, src, sv, srcStride, height, row, copy);
      log := log + [fed];
      ScheduleStep(srcStride, height, coreY, row);
      row := row + 1;
    }
    assert row - coreX == height + coreY - 1 - coreX;
  }

  /** The schedule's prefix grows by the call for row `row`. */
  lemma ScheduleStep(srcStride: nat, height: nat, coreY: nat, row: nat)
    requires coreY >= 1 && row < height + coreY - 1
    ensures Schedule(srcStride, height, coreY)[..row + 1] ==
      Schedule(srcStride, height, coreY)[..row] + [if row < height then Some(row * srcStride) else None]
  {
    var s := Schedule(srcStride, height, coreY);
    assert s[..row + 1] == s[..row] + [s[row]];
  }

  /**
   * One update of the schedule: row `row` of the band enters the ring. `fed`
   * is the argument `Update` received: the offset of the source row it copied,
   * or None for `Update(NULL)`.
   */
  method FeedRow<T>(buffer: Buffer<T>, src: array<T>, ghost sv: seq<T>, srcStride: nat, height: nat, row: nat, copy: bool)
      returns (fed: Option<nat>)
    requires Holds(buffer, sv, srcStride, height, row) && src != buffer.mem && sv == src[..]
    requires copy <==> row < height
    modifies buffer, buffer.rows, buffer.mem
    ensures Holds(buffer, sv, srcStride, height, row + 1)
    ensures fed == if row < height then Some(row * srcStride) else None
    ensures fed.Some? ==> fed.value + buffer.width <= |sv| && buffer.Content(buffer.count - 1) == sv[fed.value .. fed.value + buffer.width]
    ensures fed.None? ==> buffer.Content(buffer.count - 1) == Zeros(buffer.width, buffer.zero)
  {
    if copy {
      var at := row * srcStride;
      SourceRowFits(row, srcStride, buffer.width, height);
      buffer.Update(src, at);
      fed := Some(at);
    } else {
      buffer.Update(null, 0);
      fed := None;
    }
    forall i | 0 <= i < buffer.count
      ensures buffer.Content(i) == Fed(sv, srcStride, buffer.width, height, buffer.zero, row + 1 - buffer.count + i)
    {
      if i < buffer.count - 1 {
        assert buffer.Content(i) == old(buffer.Content(i + 1));
      }
    }
  }

  /**
   * The ring holds the `count` rows of the band that come before row `next`,
   * oldest first (zeros standing in for rows outside the band).
   */
  ghost predicate Holds<T>(buffer: Buffer<T>, sv: seq<T>, srcStride: nat, height: nat, next: int)
    reads buffer, buffer.rows, buffer.mem
  {
    && buffer.Valid() && height >= 1 && (height - 1) * srcStride + buffer.width <= |sv|
    && forall i :: 0 <= i < buffer.count ==>
         buffer.Content(i) == Fed(sv, srcStride, buffer.width, height, buffer.zero, next - buffer.count + i)
  }

  /**
   * `LoadWeightsBackward<size>`: register `i` is the broadcast of weight
   * `size - 1 - i`. A register is modelled by the weight it broadcasts.
   */
  method LoadWeightsBackward<T>(src: array<T>, size: nat, dst: array<T>)
    requires size <= src.Length && size <= dst.Length && src != dst
    modifies dst
    ensures dst[..size] == Reversed(src[..size])
    ensures forall i :: size <= i < dst.Length ==> dst[i] == old(dst[i])
  {
    for i := 0 to size
      invariant forall j :: 0 <= j < i ==> dst[j] == src[size - j - 1]
      invariant forall j :: size <= j < dst.Length ==> dst[j] == old(dst[j])
    {
      dst[i] := src[size - i - 1];
    }
    assert forall j :: 0 <= j < size ==> dst[..size][j] == Reversed(src[..size])[j];
  }

  /** The sequence read back to front. */
  function Reversed<T>(s: seq<T>): (r: seq<T>)
    ensures |r| == |s|
    ensures forall i :: 0 <= i < |s| ==> r[i] == s[|s| - 1 - i]
    decreases |s|
  {
    if s == [] then [] else Reversed(s[1..]) + [s[0]]
  }

  /** Reading back to front twice gives the weights back. */
  lemma ReversedTwice<T>(s: seq<T>)
    ensures Reversed(Reversed(s)) == s
  {
    assert forall i :: 0 <= i < |s| ==> Reversed(Reversed(s))[i] == s[i];
  }

  /**
   * On the row-major `coreX`×`coreY` kernel, reading back to front is the
   * 180° rotation: weight `(y, x)` lands at `(coreY - 1 - y, coreX - 1 - x)`.
   */
  lemma ReversedRotates<T>(w: seq<T>, coreX: nat, coreY: nat, y: nat, x: nat)
    requires |w| == coreX * coreY && y < coreY && x < coreX
    ensures (coreY - 1 - y) * coreX + (coreX - 1 - x) < |w| && y * coreX + x < |w|
    ensures Reversed(w)[(coreY - 1 - y) * coreX + (coreX - 1 - x)] == w[y * coreX + x]
  {
    FlatBound(y, x, coreY, coreX);
    FlatBound(coreY - 1 - y, coreX - 1 - x, coreY, coreX);
    assert coreX * coreY - 1 - ((coreY - 1 - y) * coreX + (coreX - 1 - x)) == y * coreX + x;
  }
}
