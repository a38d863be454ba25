/**
 * `Ncf::Ver1`: the blocked GEMM strategy's packers.
 *
 * `PrepareA` interleaves the M×K weight matrix in blocks of `cell` output
 * channels; `PrepareB` unfolds the source into a K×N patch matrix in a
 * temporary buffer and re-emits it in column blocks of `cell` pixels.
 */
module Ver1 {
  import opened Common
  import opened Geometry
  import opened Lanes

  // ---------------------------------------------------------------------------
  // PrepareA: weight interleave
  // ---------------------------------------------------------------------------

  /**
   * What a block of the packed weights looks like around position `q`: the
   * block starts at row `i`, holds `n` rows, and `q` lies `q - i*k` into it.
   */
  lemma PackedABlock(m: nat, k: nat, cell: nat, q: nat, i: int, n: int)
    requires cell > 0 && q < m * k
    requires k > 0 && i == BlockStart(k, cell, q) && n == Min(cell, m - i)
    ensures k > 0 && i >= 0 && i % cell == 0
    ensures i < m && 0 < n && i + n <= m && i * k <= q && q - i * k < k * n
  {
    if i >= m {
      MulMono(m, i, k);
    }
    if cell <= m - i {
      assert cell * k == k * n;
    } else {
      MulSub(m, i, k);
    }
  }

  lemma MulSub(m: nat, i: nat, k: nat)
    requires i <= m
    ensures (m - i) * k == m * k - i * k && k * (m - i) == (m - i) * k
  {
  }

  /**
   * The first row of the block of `cell` rows that packed position `q` falls
   * in: a multiple of `cell` whose `k`-row span, `cell*k` entries long,
   * contains `q`.
   */
  function BlockStart(k: nat, cell: nat, q: nat): (i: nat)
    requires cell > 0 && k > 0
    ensures i % cell == 0 && i * k <= q < i * k + cell * k
  {
    BlockStartFacts(k, cell, q);
    q / (cell * k) * cell
  }

  lemma BlockStartFacts(k: nat, cell: nat, q: nat)
    requires cell > 0 && k > 0
    ensures cell * k > 0 && q / (cell * k) >= 0
    ensures (q / (cell * k) * cell) % cell == 0
    ensures q / (cell * k) * cell * k <= q < q / (cell * k) * cell * k + cell * k
  {
    var ck := cell * k;
    MulLess(0, k, cell);
    var b := q / ck;
    DivBounds(q, ck);
    MulAssoc(b, cell, k);
    DivMod(b, 0, cell);
  }

  /**
   * The source position of packed entry `q`: inside the block of rows
   * starting at `i`, offset `off` holds row `i + off % n`, column `off / n`.
   */
  function PackedAIndex(m: nat, k: nat, cell: nat, q: nat): (s: nat)
    requires cell > 0 && q < m * k
    ensures s < m * k
  {
    PositiveFactors(q, m, k);
    var i := BlockStart(k, cell, q);
    var n := Min(cell, m - i);
    PackedABlock(m, k, cell, q, i, n);
    var off: nat := q - i * k;
    DivBelow(off, n, k);
    var row: nat, col: nat := i + off % n, off / n;
    FlatBound(row, col, m, k);
    row * k + col
  }

  /** The packed position of source entry `s`: the inverse of `PackedAIndex`. */
  function PackedAPos(m: nat, k: nat, cell: nat, s: nat): int
    requires cell > 0 && k > 0
  {
    var r, col := s / k, s % k;
    var i := r / cell * cell;
    i * k + col * Min(cell, m - i) + (r - i)
  }

  /**
   * The layout `PrepareA` promises: in the block of rows starting at `i`
   * (a multiple of `cell`) with `n = min(cell, m - i)` rows, entry
   * `i*k + col*n + c` is weight `(i + c, col)`.
   */
  lemma PackedAAt(m: nat, k: nat, cell: nat, i: nat, col: nat, c: nat)
    requires cell > 0 && i % cell == 0 && i < m && col < k && c < Min(cell, m - i)
    ensures i * k + col * Min(cell, m - i) + c < m * k
    ensures PackedAIndex(m, k, cell, i * k + col * Min(cell, m - i) + c) == (i + c) * k + col
  {
    var n := Min(cell, m - i);
    var b := i / cell;
    DivBounds(i, cell);
    assert i == b * cell;
    FlatBound(col, c, k, n);
    MulMono(n, cell, k);
    var r := col * n + c;
    assert i * k == b * (cell * k);
    DivMod(b, r, cell * k);
    DivMod(col, c, n);
    MulMono(i + n, m, k);
  }

  /** `PackedAPos` of source entry `(i + c, col)` is its place in the block of rows starting at `i`. */
  lemma PackedAPosAt(m: nat, k: nat, cell: nat, i: nat, col: nat, c: nat)
    requires cell > 0 && i % cell == 0 && col < k && c < cell
    ensures PackedAPos(m, k, cell, (i + c) * k + col) == i * k + col * Min(cell, m - i) + c
  {
    var x := (i + c) * k + col;
    DivMod(i + c, col, k);
    assert x / k == i + c && x % k == col;
    var b := i / cell;
    assert i == b * cell + i % cell;
    DivMod(b, c, cell);
    assert i + c == b * cell + c;
    assert (i + c) / cell * cell == i;
  }

  /** Packed entry `q` decomposed: block start `i`, column `col`, row `c` within the block. */
  lemma PackedAParts(m: nat, k: nat, cell: nat, q: nat) returns (i: nat, col: nat, c: nat)
    requires cell > 0 && q < m * k
    ensures i % cell == 0 && col < k && c < cell
    ensures q == i * k + col * Min(cell, m - i) + c
    ensures PackedAIndex(m, k, cell, q) == (i + c) * k + col
  {
    PositiveFactors(q, m, k);
    var i0 := BlockStart(k, cell, q);
    var n := Min(cell, m - i0);
    PackedABlock(m, k, cell, q, i0, n);
    i := i0;
    var off := q - i * k;
    c, col := off % n, off / n;
    DivBelow(off, n, k);
    assert off == col * n + c;
  }

  /** Every packed position is recovered from the source position it reads. */
  lemma PackedAInverse(m: nat, k: nat, cell: nat, q: nat)
    requires cell > 0 && q < m * k
    ensures k > 0 && PackedAPos(m, k, cell, PackedAIndex(m, k, cell, q)) == q
  {
    var i, col, c := PackedAParts(m, k, cell, q);
    PackedAPosAt(m, k, cell, i, col, c);
  }

  /** `PrepareA` only rearranges: its output holds the same weights as its input. */
  lemma PackedAPermutes<T>(a: seq<T>, b: seq<T>, m: nat, k: nat, cell: nat)
    requires cell > 0 && |a| == m * k && |b| == m * k
    requires forall q :: 0 <= q < m * k ==> b[q] == a[PackedAIndex(m, k, cell, q)]
    ensures multiset(a) == multiset(b)
  {
    var f: nat -> nat := (q: nat) => if q < m * k then PackedAIndex(m, k, cell, q) else 0;
    forall q1, q2 | 0 <= q1 < q2 < |b|
      ensures f(q1) != f(q2)
    {
      PackedAInverse(m, k, cell, q1);
      PackedAInverse(m, k, cell, q2);
    }
    InjectionPermutes(a, b, f);
  }

  lemma RowSliceFits(m: nat, k: nat, i: nat, col: nat, w: nat)
    requires i + 3 < m && col + w <= k
    ensures (i + 3) * k + col + w <= m * k && RowsApart(i, k)
  {
    MulMono(i + 4, m, k);
  }

  /** The four rows of a step start `k` apart. */
  predicate RowsApart(i: nat, k: nat) {
    (i + 1) * k == i * k + k && (i + 2) * k == i * k + 2 * k && (i + 3) * k == i * k + 3 * k
  }

  /**
   * Lane `t` of a four-row transpose step over columns `col..col+w` is the
   * scalar loop's entry `d + t`.
   */
  lemma Lane<T>(s: seq<T>, m: nat, k: nat, i: nat, col: nat, w: nat,
                s0: seq<T>, s1: seq<T>, s2: seq<T>, s3: seq<T>, vt: T, d: nat, t: nat)
    requires |s| >= m * k && i % 4 == 0 && i + 4 <= m && col + w <= k && t < 4 * w
    requires d == i * k + col * 4
    requires RowsApart(i, k) && (i + 3) * k + col + w <= |s|
    requires s0 == s[i * k + col .. i * k + col + w] && s1 == s[(i + 1) * k + col .. (i + 1) * k + col + w]
    requires s2 == s[(i + 2) * k + col .. (i + 2) * k + col + w] && s3 == s[(i + 3) * k + col .. (i + 3) * k + col + w]
    requires t / 4 < |Row(s0, s1, s2, s3, t % 4)| && vt == Row(s0, s1, s2, s3, t % 4)[t / 4]
    ensures d + t < m * k
    ensures vt == s[PackedAIndex(m, k, 4, d + t)]
  {
    var j, c := t / 4, t % 4;
    RowSlice(s, k, i, col, w, s0, s1, s2, s3, c, j);
    LaneEntry(s, m, k, i, col, j, c, d + t);
  }

  /** Lane `j` of row `c` of a four-row load is source entry `(i + c, col + j)`. */
  lemma RowSlice<T>(s: seq<T>, k: nat, i: nat, col: nat, w: nat, s0: seq<T>, s1: seq<T>, s2: seq<T>, s3: seq<T>, c: nat, j: nat)
    requires c < 4 && j < w && RowsApart(i, k) && (i + 3) * k + col + w <= |s|
    requires s0 == s[i * k + col .. i * k + col + w] && s1 == s[(i + 1) * k + col .. (i + 1) * k + col + w]
    requires s2 == s[(i + 2) * k + col .. (i + 2) * k + col + w] && s3 == s[(i + 3) * k + col .. (i + 3) * k + col + w]
    ensures (i + c) * k + col + j < |s| && j < |Row(s0, s1, s2, s3, c)|
    ensures Row(s0, s1, s2, s3, c)[j] == s[(i + c) * k + col + j]
  {
    MulMono(i + c, i + 3, k);
    var lo := (i + c) * k + col;
    assert Row(s0, s1, s2, s3, c) == s[lo .. lo + w];
  }

  /** Lane `(j, c)` of a four-row step: row `i + c`, column `col + j`. */
  lemma LaneEntry<T>(s: seq<T>, m: nat, k: nat, i: nat, col: nat, j: nat, c: nat, q: nat)
    requires |s| >= m * k && i % 4 == 0 && i + 4 <= m && col + j < k && c < 4
    requires q == i * k + (col + j) * 4 + c
    ensures q < m * k && (i + c) * k + col + j < |s|
    ensures PackedAIndex(m, k, 4, q) == (i + c) * k + col + j
  {
    assert Min(4, m - i) == 4;
    PackedAAt(m, k, 4, i, col + j, c);
  }

  /**
   * `Ver1::PrepareA`: the weights in blocks of `cell` rows, each block
   * column-interleaved; the whole output is a rearrangement of the input.
   */
  method PrepareA<T>(src: array<T>, m: nat, k: nat, cell: nat, zero: T, dst: array<T>)
    requires cell > 0 && src != dst
    requires src.Length >= m * k && dst.Length >= m * k
    modifies dst
    ensures forall q :: 0 <= q < m * k ==> dst[q] == src[PackedAIndex(m, k, cell, q)]
    ensures multiset(dst[..m * k]) == multiset(src[..m * k])
    ensures forall q :: 0 <= q < dst.Length && q >= m * k ==> dst[q] == old(dst[q])
  {
    var k4, k8 := AlignLo(k, 4), AlignLo(k, 8);
    var i := 0;
    ghost var b := 0;
    var d := 0;
    while i < m
      invariant i == b * cell && d == Min(i, m) * k && d <= m * k
      invariant forall q :: 0 <= q < d ==> dst[q] == src[PackedAIndex(m, k, cell, q)]
      invariant forall q :: d <= q < dst.Length ==> dst[q] == old(dst[q])
      decreases m - i
    {
      DivMod(b, 0, cell);
      d := PrepareABlock(src, m, k, cell, zero, dst, i, k4, k8, d);
      MulSucc(b, cell);
      i, b := i + cell, b + 1;
    }
    PackedAPermutes(src[..m * k], dst[..m * k], m, k, cell);
  }

  /** One block of rows starting at `i`: the transpose steps when it is a full block of four, then scalars. */
  method PrepareABlock<T>(src: array<T>, m: nat, k: nat, cell: nat, zero: T, dst: array<T>,
                          i: nat, k4: nat, k8: nat, d0: nat) returns (d: nat)
    requires cell > 0 && src != dst
    requires src.Length >= m * k && dst.Length >= m * k
    requires k4 == AlignLo(k, 4) && k8 == AlignLo(k, 8)
    requires i % cell == 0 && i < m && d0 == i * k && d0 <= m * k
    requires forall q :: 0 <= q < d0 ==> dst[q] == src[PackedAIndex(m, k, cell, q)]
    modifies dst
    ensures d0 <= d == Min(i + cell, m) * k && d <= m * k
    ensures forall q :: 0 <= q < d ==> dst[q] == src[PackedAIndex(m, k, cell, q)]
    ensures forall q :: d <= q < dst.Length ==> dst[q] == old(dst[q])
  {
    var n := Min(cell, m - i);
    var col := 0;
    d := d0;
    if cell == 4 && n == 4 {
      col, d := PackEights(src, m, k, cell, zero, dst, i, k8, d);
      EightsAreFours(k, k8, k4);
      col, d := PackFours(src, m, k, cell, dst, i, k4, col, d);
    }
    BlockEnd(m, k, cell, i);
    d := PackColumns(src, m, k, cell, dst, i, col, d);
  }

  /** Where a block of rows starting at `i` ends in the packed weights. */
  lemma BlockEnd(m: nat, k: nat, cell: nat, i: nat)
    requires i < m
    ensures 0 * Min(cell, m - i) == 0
    ensures i * k + k * Min(cell, m - i) == Min(i + cell, m) * k <= m * k
  {
    var n := Min(cell, m - i);
    assert Min(i + cell, m) == i + n;
    assert (i + n) * k == i * k + k * n;
    MulMono(i + n, m, k);
  }

  /** The eight-column AVX steps of a full block of four rows, up to column `k8`. */
  method PackEights<T>(src: array<T>, m: nat, k: nat, cell: nat, zero: T, dst: array<T>,
                       i: nat, k8: nat, d0: nat) returns (col: nat, d: nat)
    requires cell == 4 && src != dst
    requires src.Length >= m * k && dst.Length >= m * k
    requires k8 == AlignLo(k, 8) && i % 4 == 0 && i + 4 <= m && d0 == i * k && d0 <= m * k
    requires forall q :: 0 <= q < d0 ==> dst[q] == src[PackedAIndex(m, k, cell, q)]
    modifies dst
    ensures col == k8 && d == i * k + col * 4 && d <= m * k
    ensures forall q :: 0 <= q < d ==> dst[q] == src[PackedAIndex(m, k, cell, q)]
    ensures forall q :: d <= q < dst.Length ==> dst[q] == old(dst[q])
  {
    col, d := 0, d0;
    ghost var j := 0;
    while col < k8
      invariant col == 8 * j && col <= k8 && d == i * k + col * 4 && d <= m * k
      invariant forall q :: 0 <= q < d ==> dst[q] == src[PackedAIndex(m, k, cell, q)]
      invariant forall q :: d <= q < dst.Length ==> dst[q] == old(dst[q])
    {
      DivMod(j, 0, 8);
      MultipleStep(col, k8, 8);
      Step8(src, m, k, cell, zero, dst, i, col, d);
      d, col, j := d + 32, col + 8, j + 1;
    }
  }

  /** One eight-column step: four row loads, the unpack/permute network, four stores. */
  method Step8<T>(src: array<T>, m: nat, k: nat, cell: nat, zero: T, dst: array<T>, i: nat, col: nat, d: nat)
    requires cell == 4 && src != dst
    requires src.Length >= m * k && dst.Length >= m * k
    requires i % 4 == 0 && i + 4 <= m && col + 8 <= k && d == i * k + col * 4 && d <= m * k
    requires forall q :: 0 <= q < d ==> dst[q] == src[PackedAIndex(m, k, cell, q)]
    modifies dst
    ensures d + 32 <= m * k
    ensures forall q :: 0 <= q < d + 32 ==> dst[q] == src[PackedAIndex(m, k, cell, q)]
    ensures forall q :: d + 32 <= q < dst.Length ==> dst[q] == old(dst[q])
  {
    RowSliceFits(m, k, i, col, 8);
    var s0 := src[i * k + col .. i * k + col + 8];
    var s1 := src[(i + 1) * k + col .. (i + 1) * k + col + 8];
    var s2 := src[(i + 2) * k + col .. (i + 2) * k + col + 8];
    var s3 := src[(i + 3) * k + col .. (i + 3) * k + col + 8];
    var v := Shuffle4x8(s0, s1, s2, s3, zero);
    forall t | 0 <= t < 32
      ensures d + t < m * k && v[t] == src[PackedAIndex(m, k, 4, d + t)]
    {
      Lane(src[..], m, k, i, col, 8, s0, s1, s2, s3, v[t], d, t);
    }
    Store(dst, d, v);
  }

  /** The four-column SSE steps of a full block of four rows, from `col0` up to column `k4`. */
  method PackFours<T>(src: array<T>, m: nat, k: nat, cell: nat, dst: array<T>,
                      i: nat, k4: nat, col0: nat, d0: nat) returns (col: nat, d: nat)
    requires cell == 4 && src != dst
    requires src.Length >= m * k && dst.Length >= m * k
    requires k4 == AlignLo(k, 4) && col0 % 4 == 0 && col0 <= k4
    requires i % 4 == 0 && i + 4 <= m && d0 == i * k + col0 * 4 && d0 <= m * k
    requires forall q :: 0 <= q < d0 ==> dst[q] == src[PackedAIndex(m, k, cell, q)]
    modifies dst
    ensures col == k4 && d == i * k + col * 4 && d <= m * k
    ensures forall q :: 0 <= q < d ==> dst[q] == src[PackedAIndex(m, k, cell, q)]
    ensures forall q :: d <= q < dst.Length ==> dst[q] == old(dst[q])
  {
    col, d := col0, d0;
    ghost var j := col0 / 4;
    while col < k4
      invariant col == 4 * j && col <= k4 && d == i * k + col * 4 && d <= m * k
      invariant forall q :: 0 <= q < d ==> dst[q] == src[PackedAIndex(m, k, cell, q)]
      invariant forall q :: d <= q < dst.Length ==> dst[q] == old(dst[q])
    {
      DivMod(j, 0, 4);
      MultipleStep(col, k4, 4);
      Step4(src, m, k, cell, dst, i, col, d);
      d, col, j := d + 16, col + 4, j + 1;
    }
  }

  /** One four-column step: four row loads, the unpack network, four stores. */
  method Step4<T>(src: array<T>, m: nat, k: nat, cell: nat, dst: array<T>, i: nat, col: nat, d: nat)
    requires cell == 4 && src != dst
    requires src.Length >= m * k && dst.Length >= m * k
    requires i % 4 == 0 && i + 4 <= m && col + 4 <= k && d == i * k + col * 4 && d <= m * k
    requires forall q :: 0 <= q < d ==> dst[q] == src[PackedAIndex(m, k, cell, q)]
    modifies dst
    ensures d + 16 <= m * k
    ensures forall q :: 0 <= q < d + 16 ==> dst[q] == src[PackedAIndex(m, k, cell, q)]
    ensures forall q :: d + 16 <= q < dst.Length ==> dst[q] == old(dst[q])
  {
    RowSliceFits(m, k, i, col, 4);
    var s0 := src[i * k + col .. i * k + col + 4];
    var s1 := src[(i + 1) * k + col .. (i + 1) * k + col + 4];
    var s2 := src[(i + 2) * k + col .. (i + 2) * k + col + 4];
    var s3 := src[(i + 3) * k + col .. (i + 3) * k + col + 4];
    var v := Shuffle4x4(s0, s1, s2, s3);
    forall t | 0 <= t < 16
      ensures d + t < m * k && v[t] == src[PackedAIndex(m, k, 4, d + t)]
    {
      Lane(src[..], m, k, i, col, 4, s0, s1, s2, s3, v[t], d, t);
    }
    Store(dst, d, v);
  }

  /** The scalar loop: columns `col0..k` of the block, `n` rows each. */
  method PackColumns<T>(src: array<T>, m: nat, k: nat, cell: nat, dst: array<T>,
                        i: nat, col0: nat, d0: nat) returns (d: nat)
    requires cell > 0 && src != dst
    requires src.Length >= m * k && dst.Length >= m * k
    requires i % cell == 0 && i < m && col0 <= k
    requires d0 == i * k + col0 * Min(cell, m - i) && d0 <= m * k
    requires forall q :: 0 <= q < d0 ==> dst[q] == src[PackedAIndex(m, k, cell, q)]
    modifies dst
    ensures d == i * k + k * Min(cell, m - i) && d <= m * k
    ensures forall q :: 0 <= q < d ==> dst[q] == src[PackedAIndex(m, k, cell, q)]
    ensures forall q :: d <= q < dst.Length ==> dst[q] == old(dst[q])
  {
    var n := Min(cell, m - i);
    var col := col0;
    d := d0;
    while col < k
      invariant col <= k && d == i * k + col * n && d <= m * k
      invariant forall q :: 0 <= q < d ==> dst[q] == src[PackedAIndex(m, k, cell, q)]
      invariant forall q :: d <= q < dst.Length ==> dst[q] == old(dst[q])
    {
      d := PackColumn(src, m, k, cell, dst, i, col, d);
      col := col + 1;
    }
  }

  /** Column `col` of the block: one entry per row. */
  method PackColumn<T>(src: array<T>, m: nat, k: nat, cell: nat, dst: array<T>,
                       i: nat, col: nat, d0: nat) returns (d: nat)
    requires cell > 0 && src != dst
    requires src.Length >= m * k && dst.Length >= m * k
    requires i % cell == 0 && i < m && col < k
    requires d0 == i * k + col * Min(cell, m - i) && d0 <= m * k
    requires forall q :: 0 <= q < d0 ==> dst[q] == src[PackedAIndex(m, k, cell, q)]
    modifies dst
    ensures d == i * k + (col + 1) * Min(cell, m - i) && d <= m * k
    ensures forall q :: 0 <= q < d ==> dst[q] == src[PackedAIndex(m, k, cell, q)]
    ensures forall q :: d <= q < dst.Length ==> dst[q] == old(dst[q])
  {
    var n := Min(cell, m - i);
    var c := 0;
    d := d0;
    while c < n
      invariant c <= n && d == i * k + col * n + c && d <= m * k
      invariant forall q :: 0 <= q < d ==> dst[q] == src[PackedAIndex(m, k, cell, q)]
      invariant forall q :: d <= q < dst.Length ==> dst[q] == old(dst[q])
    {
      PackedAAt(m, k, cell, i, col, c);
      dst[d] := src[(i + c) * k + col];
      d, c := d + 1, c + 1;
    }
    if n > 0 {
      PackedAAt(m, k, cell, i, col, n - 1);
    }
  }

  /** `AlignLo(k, 8)` is a multiple of four no larger than `AlignLo(k, 4)`. */
  lemma EightsAreFours(k: nat, k8: nat, k4: nat)
    requires k8 == AlignLo(k, 8) && k4 == AlignLo(k, 4)
    ensures k8 % 4 == 0 && k8 <= k4
  {
    DivMod(k8 / 8 * 2, 0, 4);
    assert k8 == k8 / 8 * 8;
  }

  // ---------------------------------------------------------------------------
  // PrepareB, phase 1: the K×N patch matrix, tap-major, in `tmp`
  // ---------------------------------------------------------------------------

  /** The tap index of `(channel, kernelRow, kernelCol)` (the loops' running `k`). */
  function Tap(g: Geometry, channel: nat, kernelRow: nat, kernelCol: nat): nat {
    (channel * g.kernelY + kernelRow) * g.kernelX + kernelCol
  }

  /** Entry `q` of the row-major K×N patch matrix: pixel `q % N` of tap `q / N`. */
  function TmpEntry<T>(g: Geometry, src: seq<T>, zero: T, q: nat): T
    requires |src| >= g.SrcSize() && q < g.K() * g.N()
  {
    DivBelow(q, g.N(), g.K());
    PatchEntry(g, src, zero, q % g.N(), q / g.N())
  }

  lemma TapBound(g: Geometry, channel: nat, kernelRow: nat, kernelCol: nat)
    requires channel < g.srcDepth && kernelRow < g.kernelY && kernelCol < g.kernelX
    ensures Tap(g, channel, kernelRow, kernelCol) < g.K()
    ensures Tap(g, channel, kernelRow, kernelCol) * g.N() + g.N() <= g.K() * g.N()
  {
    VolumeIndex(channel, kernelRow, kernelCol, g.srcDepth, g.kernelY, g.kernelX);
    assert g.srcDepth * g.kernelY * g.kernelX == g.K();
    MulMono(Tap(g, channel, kernelRow, kernelCol) + 1, g.K(), g.N());
  }

  lemma TapCarry(g: Geometry, channel: nat, kernelRow: nat, kernelCol: nat)
    ensures Tap(g, channel, kernelRow, kernelCol) * g.N() + g.N() == Tap(g, channel, kernelRow, kernelCol + 1) * g.N()
    ensures Tap(g, channel, kernelRow, g.kernelX) == Tap(g, channel, kernelRow + 1, 0)
    ensures Tap(g, channel, g.kernelY, 0) == Tap(g, channel + 1, 0, 0)
    ensures Tap(g, g.srcDepth, 0, 0) == g.K()
  {
    var t := Tap(g, channel, kernelRow, kernelCol);
    assert (t + 1) * g.N() == t * g.N() + g.N();
    assert (channel * g.kernelY + kernelRow) * g.kernelX + g.kernelX == (channel * g.kernelY + kernelRow + 1) * g.kernelX;
    assert (g.srcDepth * g.kernelY) * g.kernelX == g.K();
  }

  /** Row `dstRow` of a tap's plane ends inside the matrix, where row `dstRow + 1` starts. */
  lemma RowFits(g: Geometry, tapBase: nat, dstRow: nat)
    requires dstRow < g.dstHeight && tapBase + g.N() <= g.K() * g.N()
    ensures tapBase + dstRow * g.dstWidth + g.dstWidth == tapBase + (dstRow + 1) * g.dstWidth
    ensures tapBase + (dstRow + 1) * g.dstWidth <= g.K() * g.N()
  {
    MulMono(dstRow + 1, g.dstHeight, g.dstWidth);
  }

  /** The entry the cursor reaches at the given loop indices is the tap those indices name. */
  lemma TmpAt<T>(g: Geometry, src: seq<T>, zero: T,
                 dstRow: nat, dstCol: nat, channel: nat, kernelRow: nat, kernelCol: nat, q: nat)
    requires |src| >= g.SrcSize()
    requires dstRow < g.dstHeight && dstCol < g.dstWidth
    requires channel < g.srcDepth && kernelRow < g.kernelY && kernelCol < g.kernelX
    requires q == Tap(g, channel, kernelRow, kernelCol) * g.N() + dstRow * g.dstWidth + dstCol
    ensures q < g.K() * g.N()
    ensures TmpEntry(g, src, zero, q) == Sample(g, src, zero, dstRow, dstCol, channel, kernelRow, kernelCol)
  {
    PatchEntryAt(g, src, zero, dstRow, dstCol, channel, kernelRow, kernelCol);
    var p := dstRow * g.dstWidth + dstCol;
    var k := Tap(g, channel, kernelRow, kernelCol);
    TapBound(g, channel, kernelRow, kernelCol);
    FlatBound(k, p, g.K(), g.N());
    DivMod(k, p, g.N());
  }

  /** Offset of source row `srcRow` of channel `channel`: `src + channel*channelSize + srcRow*srcWidth`. */
  function RowBase(g: Geometry, channel: nat, srcRow: nat): nat {
    channel * (g.srcHeight * g.srcWidth) + srcRow * g.srcWidth
  }

  /** `src + channel*channelSize` read at `srcRow*srcWidth + srcCol` is the volume entry `(channel, srcRow, srcCol)`. */
  lemma ChannelOffset(g: Geometry, channel: nat, srcRow: nat, srcCol: nat)
    requires channel < g.srcDepth && srcRow < g.srcHeight && srcCol < g.srcWidth
    ensures RowBase(g, channel, srcRow) + srcCol == (channel * g.srcHeight + srcRow) * g.srcWidth + srcCol
    ensures (channel * g.srcHeight + srcRow) * g.srcWidth + srcCol < g.SrcSize()
  {
    VolumeIndex(channel, srcRow, srcCol, g.srcDepth, g.srcHeight, g.srcWidth);
    assert (channel * g.srcHeight + srcRow) * g.srcWidth == channel * (g.srcHeight * g.srcWidth) + srcRow * g.srcWidth;
  }

  /**
   * Output columns `from..to` of one row of one tap: the source sample when
   * `srcCol` is inside the row, zero otherwise; `srcCol` advances by the stride.
   */
  method UnfoldCols<T>(src: array<T>, g: Geometry, zero: T, tmp: array<T>,
                       channel: nat, kernelRow: nat, kernelCol: nat, dstRow: nat, srcRow: nat,
                       from: nat, to: nat, d0: nat) returns (d: nat)
    requires src != tmp && src.Length >= g.SrcSize() && tmp.Length >= g.K() * g.N()
    requires channel < g.srcDepth && kernelRow < g.kernelY && kernelCol < g.kernelX && dstRow < g.dstHeight
    requires srcRow == SrcRow(g, dstRow, kernelRow) && srcRow < g.srcHeight
    requires from <= to <= g.dstWidth
    requires d0 == Tap(g, channel, kernelRow, kernelCol) * g.N() + dstRow * g.dstWidth + from
    requires d0 + (to - from) <= g.K() * g.N()
    requires forall q :: 0 <= q < d0 ==> tmp[q] == TmpEntry(g, src[..], zero, q)
    modifies tmp
    ensures d == d0 + (to - from)
    ensures forall q :: 0 <= q < d ==> tmp[q] == TmpEntry(g, src[..], zero, q)
    ensures forall q :: d <= q < tmp.Length ==> tmp[q] == old(tmp[q])
  {
    var psrc := RowBase(g, channel, srcRow);
    var srcCol: int := SrcCol(g, from, kernelCol);
    var dstCol := from;
    d := d0;
    while dstCol < to
      invariant from <= dstCol <= to && d == d0 + (dstCol - from) && d <= g.K() * g.N()
      invariant srcCol == SrcCol(g, dstCol, kernelCol)
      invariant forall q :: 0 <= q < d ==> tmp[q] == TmpEntry(g, src[..], zero, q)
      invariant forall q :: d <= q < tmp.Length ==> tmp[q] == old(tmp[q])
    {
      TmpAt(g, src[..], zero, dstRow, dstCol, channel, kernelRow, kernelCol, d);
      if 0 <= srcCol < g.srcWidth {
        ChannelOffset(g, channel, srcRow, srcCol);
        tmp[d] := src[psrc + srcCol];
      } else {
        tmp[d] := zero;
      }
      assert (dstCol + 1) * g.strideX == dstCol * g.strideX + g.strideX;
      d, dstCol, srcCol := d + 1, dstCol + 1, srcCol + g.strideX;
    }
  }

  /** A row whose source row lies in the padding: `dstWidth` zeros, one by one. */
  method ZeroRow<T>(src: array<T>, g: Geometry, zero: T, tmp: array<T>,
                    channel: nat, kernelRow: nat, kernelCol: nat, dstRow: nat, d0: nat) returns (d: nat)
    requires src != tmp && src.Length >= g.SrcSize() && tmp.Length >= g.K() * g.N()
    requires channel < g.srcDepth && kernelRow < g.kernelY && kernelCol < g.kernelX && dstRow < g.dstHeight
    requires !(0 <= SrcRow(g, dstRow, kernelRow) < g.srcHeight)
    requires d0 == Tap(g, channel, kernelRow, kernelCol) * g.N() + dstRow * g.dstWidth
    requires d0 + g.dstWidth <= g.K() * g.N()
    requires forall q :: 0 <= q < d0 ==> tmp[q] == TmpEntry(g, src[..], zero, q)
    modifies tmp
    ensures d == d0 + g.dstWidth
    ensures forall q :: 0 <= q < d ==> tmp[q] == TmpEntry(g, src[..], zero, q)
    ensures forall q :: d <= q < tmp.Length ==> tmp[q] == old(tmp[q])
  {
    var dstCol := 0;
    d := d0;
    while dstCol < g.dstWidth
      invariant dstCol <= g.dstWidth && d == d0 + dstCol && d <= g.K() * g.N()
      invariant forall q :: 0 <= q < d ==> tmp[q] == TmpEntry(g, src[..], zero, q)
      invariant forall q :: d <= q < tmp.Length ==> tmp[q] == old(tmp[q])
    {
      TmpAt(g, src[..], zero, dstRow, dstCol, channel, kernelRow, kernelCol, d);
      tmp[d] := zero;
      d, dstCol := d + 1, dstCol + 1;
    }
  }

  /** Source row `srcRow` of channel `channel` ends inside the source volume. */
  lemma ChannelRowEnd(g: Geometry, channel: nat, srcRow: nat)
    requires channel < g.srcDepth && srcRow < g.srcHeight
    ensures RowBase(g, channel, srcRow) + g.srcWidth <= g.SrcSize()
  {
    FlatBound(channel, srcRow, g.srcDepth, g.srcHeight);
    MulMono(channel * g.srcHeight + srcRow + 1, g.srcDepth * g.srcHeight, g.srcWidth);
    assert (channel * g.srcHeight + srcRow + 1) * g.srcWidth
        == channel * (g.srcHeight * g.srcWidth) + srcRow * g.srcWidth + g.srcWidth;
  }

  /**
   * The unit-step path's condition, corrected: the body of a row,
   * `dstWidth - 2*padX` columns, must not be negative.
   */
  predicate FastApplies(g: Geometry) {
    g.UnitStep() && g.dstWidth >= 2 * g.padX
  }

  /** The body of a row on the unit-step path: one `memcpy` of `dstWidth - 2*padX` samples. */
  method CopyBody<T>(src: array<T>, g: Geometry, zero: T, tmp: array<T>,
                     channel: nat, kernelRow: nat, kernelCol: nat, dstRow: nat, srcRow: nat, d0: nat) returns (d: nat)
    requires g.Valid() && FastApplies(g)
    requires src != tmp && src.Length >= g.SrcSize() && tmp.Length >= g.K() * g.N()
    requires channel < g.srcDepth && kernelRow < g.kernelY && kernelCol < g.kernelX && dstRow < g.dstHeight
    requires srcRow == SrcRow(g, dstRow, kernelRow) && srcRow < g.srcHeight
    requires d0 == Tap(g, channel, kernelRow, kernelCol) * g.N() + dstRow * g.dstWidth + g.padX
    requires d0 + (g.dstWidth - 2 * g.padX) <= g.K() * g.N()
    requires forall q :: 0 <= q < d0 ==> tmp[q] == TmpEntry(g, src[..], zero, q)
    modifies tmp
    ensures d == d0 + (g.dstWidth - 2 * g.padX)
    ensures forall q :: 0 <= q < d ==> tmp[q] == TmpEntry(g, src[..], zero, q)
    ensures forall q :: d <= q < tmp.Length ==> tmp[q] == old(tmp[q])
  {
    UnitStepExtent(g);
    UnitStepMeans(g);
    var bodySize := g.dstWidth - 2 * g.padX;
    var psrc := RowBase(g, channel, srcRow);
    var srcCol := kernelCol;
    ChannelRowEnd(g, channel, srcRow);
    Copy(src, psrc + srcCol, tmp, d0, bodySize);
    forall q | d0 <= q < d0 + bodySize
      ensures tmp[q] == TmpEntry(g, src[..], zero, q)
    {
      TmpAt(g, src[..], zero, dstRow, g.padX + (q - d0), channel, kernelRow, kernelCol, q);
      ChannelOffset(g, channel, srcRow, srcCol + (q - d0));
    }
    d := d0 + bodySize;
  }

  /** One row of one tap on the unit-step path: left border, body copy, right border. */
  method FastRow<T>(src: array<T>, g: Geometry, zero: T, tmp: array<T>,
                    channel: nat, kernelRow: nat, kernelCol: nat, dstRow: nat, srcRow: nat, d0: nat) returns (d: nat)
    requires g.Valid() && FastApplies(g)
    requires src != tmp && src.Length >= g.SrcSize() && tmp.Length >= g.K() * g.N()
    requires channel < g.srcDepth && kernelRow < g.kernelY && kernelCol < g.kernelX && dstRow < g.dstHeight
    requires srcRow == SrcRow(g, dstRow, kernelRow) && srcRow < g.srcHeight
    requires d0 == Tap(g, channel, kernelRow, kernelCol) * g.N() + dstRow * g.dstWidth
    requires d0 + g.dstWidth <= g.K() * g.N()
    requires forall q :: 0 <= q < d0 ==> tmp[q] == TmpEntry(g, src[..], zero, q)
    modifies tmp
    ensures d == d0 + g.dstWidth
    ensures forall q :: 0 <= q < d ==> tmp[q] == TmpEntry(g, src[..], zero, q)
    ensures forall q :: d <= q < tmp.Length ==> tmp[q] == old(tmp[q])
  {
    var bodySize := g.dstWidth - 2 * g.padX;
    d := UnfoldCols(src, g, zero, tmp, channel, kernelRow, kernelCol, dstRow, srcRow, 0, g.padX, d0);
    d := CopyBody(src, g, zero, tmp, channel, kernelRow, kernelCol, dstRow, srcRow, d);
    d := UnfoldCols(src, g, zero, tmp, channel, kernelRow, kernelCol, dstRow, srcRow, g.padX + bodySize, g.dstWidth, d);
  }

  /** The `dstHeight` rows of one tap: stride/dilation loop, or the unit-step rows when `fast`. */
  method UnfoldTap<T>(src: array<T>, g: Geometry, zero: T, tmp: array<T>, fast: bool,
                      channel: nat, kernelRow: nat, kernelCol: nat, d0: nat) returns (d: nat)
    requires fast ==> g.Valid() && FastApplies(g)
    requires src != tmp && src.Length >= g.SrcSize() && tmp.Length >= g.K() * g.N()
    requires channel < g.srcDepth && kernelRow < g.kernelY && kernelCol < g.kernelX
    requires d0 == Tap(g, channel, kernelRow, kernelCol) * g.N() && d0 + g.N() <= g.K() * g.N()
    requires forall q :: 0 <= q < d0 ==> tmp[q] == TmpEntry(g, src[..], zero, q)
    modifies tmp
    ensures d == d0 + g.N()
    ensures forall q :: 0 <= q < d ==> tmp[q] == TmpEntry(g, src[..], zero, q)
    ensures forall q :: d <= q < tmp.Length ==> tmp[q] == old(tmp[q])
  {
    var srcRow: int := kernelRow * g.dilationY - g.padY;
    var dstRow := 0;
    d := d0;
    while dstRow < g.dstHeight
      invariant dstRow <= g.dstHeight && d == d0 + dstRow * g.dstWidth && d <= g.K() * g.N()
      invariant srcRow == SrcRow(g, dstRow, kernelRow)
      invariant forall q :: 0 <= q < d ==> tmp[q] == TmpEntry(g, src[..], zero, q)
      invariant forall q :: d <= q < tmp.Length ==> tmp[q] == old(tmp[q])
    {
      RowFits(g, d0, dstRow);
      if !(0 <= srcRow < g.srcHeight) {
        if fast {
          Fill(tmp, d, g.dstWidth, zero);
          forall q | d <= q < d + g.dstWidth
            ensures tmp[q] == TmpEntry(g, src[..], zero, q)
          {
            TmpAt(g, src[..], zero, dstRow, q - d, channel, kernelRow, kernelCol, q);
          }
          d := d + g.dstWidth;
        } else {
          d := ZeroRow(src, g, zero, tmp, channel, kernelRow, kernelCol, dstRow, d);
        }
      } else if fast {
        d := FastRow(src, g, zero, tmp, channel, kernelRow, kernelCol, dstRow, srcRow, d);
      } else {
        d := UnfoldCols(src, g, zero, tmp, channel, kernelRow, kernelCol, dstRow, srcRow, 0, g.dstWidth, d);
      }
      assert (dstRow + 1) * g.strideY == dstRow * g.strideY + g.strideY;
      srcRow, dstRow := srcRow + g.strideY, dstRow + 1;
    }
  }

  /** The taps of one kernel row, `kernelCol = 0 .. kernelX`. */
  method UnfoldKernelRow<T>(src: array<T>, g: Geometry, zero: T, tmp: array<T>, fast: bool,
                            channel: nat, kernelRow: nat, d0: nat) returns (d: nat)
    requires fast ==> g.Valid() && FastApplies(g)
    requires src != tmp && src.Length >= g.SrcSize() && tmp.Length >= g.K() * g.N()
    requires channel < g.srcDepth && kernelRow < g.kernelY
    requires d0 == Tap(g, channel, kernelRow, 0) * g.N() && d0 <= g.K() * g.N()
    requires forall q :: 0 <= q < d0 ==> tmp[q] == TmpEntry(g, src[..], zero, q)
    modifies tmp
    ensures d0 <= d == Tap(g, channel, kernelRow + 1, 0) * g.N() && d <= g.K() * g.N()
    ensures forall q :: 0 <= q < d ==> tmp[q] == TmpEntry(g, src[..], zero, q)
    ensures forall q :: d <= q < tmp.Length ==> tmp[q] == old(tmp[q])
  {
    var kernelCol := 0;
    d := d0;
    while kernelCol < g.kernelX
      invariant kernelCol <= g.kernelX && d0 <= d == Tap(g, channel, kernelRow, kernelCol) * g.N() && d <= g.K() * g.N()
      invariant forall q :: 0 <= q < d ==> tmp[q] == TmpEntry(g, src[..], zero, q)
      invariant forall q :: d <= q < tmp.Length ==> tmp[q] == old(tmp[q])
    {
      TapBound(g, channel, kernelRow, kernelCol);
      d := UnfoldTap(src, g, zero, tmp, fast, channel, kernelRow, kernelCol, d);
      TapCarry(g, channel, kernelRow, kernelCol);
      kernelCol := kernelCol + 1;
    }
    TapCarry(g, channel, kernelRow, kernelCol);
  }

  /** The taps of one channel, kernel row by kernel row. */
  method UnfoldChannel<T>(src: array<T>, g: Geometry, zero: T, tmp: array<T>, fast: bool, channel: nat, d0: nat)
      returns (d: nat)
    requires fast ==> g.Valid() && FastApplies(g)
    requires src != tmp && src.Length >= g.SrcSize() && tmp.Length >= g.K() * g.N()
    requires channel < g.srcDepth
    requires d0 == Tap(g, channel, 0, 0) * g.N() && d0 <= g.K() * g.N()
    requires forall q :: 0 <= q < d0 ==> tmp[q] == TmpEntry(g, src[..], zero, q)
    modifies tmp
    ensures d0 <= d == Tap(g, channel + 1, 0, 0) * g.N() && d <= g.K() * g.N()
    ensures forall q :: 0 <= q < d ==> tmp[q] == TmpEntry(g, src[..], zero, q)
    ensures forall q :: d <= q < tmp.Length ==> tmp[q] == old(tmp[q])
  {
    var kernelRow := 0;
    d := d0;
    while kernelRow < g.kernelY
      invariant kernelRow <= g.kernelY && d0 <= d == Tap(g, channel, kernelRow, 0) * g.N() && d <= g.K() * g.N()
      invariant forall q :: 0 <= q < d ==> tmp[q] == TmpEntry(g, src[..], zero, q)
      invariant forall q :: d <= q < tmp.Length ==> tmp[q] == old(tmp[q])
    {
      d := UnfoldKernelRow(src, g, zero, tmp, fast, channel, kernelRow, d);
      kernelRow := kernelRow + 1;
    }
    TapCarry(g, channel, kernelRow, 0);
  }

  /**
   * Phase 1 of `Ver1::PrepareB` for a kernel larger than 1×1: the K×N patch
   * matrix, tap by tap, written to `tmp`.
   */
  method Unfold<T>(src: array<T>, g: Geometry, zero: T, tmp: array<T>, fast: bool)
    requires fast ==> g.Valid() && FastApplies(g)
    requires src != tmp && src.Length >= g.SrcSize() && tmp.Length >= g.K() * g.N()
    modifies tmp
    ensures forall q :: 0 <= q < g.K() * g.N() ==> tmp[q] == TmpEntry(g, src[..], zero, q)
    ensures forall q :: 0 <= q < tmp.Length && q >= g.K() * g.N() ==> tmp[q] == old(tmp[q])
  {
    var d := 0;
    var channel := 0;
    while channel < g.srcDepth
      invariant channel <= g.srcDepth && d == Tap(g, channel, 0, 0) * g.N() && d <= g.K() * g.N()
      invariant forall q :: 0 <= q < d ==> tmp[q] == TmpEntry(g, src[..], zero, q)
      invariant forall q :: d <= q < tmp.Length ==> tmp[q] == old(tmp[q])
    {
      d := UnfoldChannel(src, g, zero, tmp, fast, channel, d);
      channel := channel + 1;
    }
    TapCarry(g, channel, 0, 0);
  }

  // ---------------------------------------------------------------------------
  // PrepareB, phase 2: column blocks of `cell` pixels
  // ---------------------------------------------------------------------------

  /** Tap `kk` of block `b` ends inside the blocked matrix of `AlignHi(n, cell)*k` entries. */
  lemma BlockFits(n: nat, k: nat, cell: nat, b: nat, kk: nat)
    requires cell > 0 && b * cell < n && kk < k
    ensures (b * k + kk) * cell + cell <= AlignHi(n, cell) * k
  {
    BlockWithin(n, k, cell, b, kk, AlignHi(n, cell));
  }

  lemma BlockWithin(n: nat, k: nat, cell: nat, b: nat, kk: nat, a: nat)
    requires cell > 0 && b * cell < n && kk < k && n <= a && a % cell == 0
    ensures (b * k + kk) * cell + cell <= a * k
  {
    DivMod(b, 0, cell);
    MultipleStep(b * cell, a, cell);
    MulMono(b * k + kk + 1, b * k + k, cell);
    assert (b * k + k) * cell == (b * cell + cell) * k;
    MulMono(b * cell + cell, a, k);
  }

  lemma BlockedPositive(n: nat, k: nat, cell: nat, q: nat)
    requires cell > 0 && q < AlignHi(n, cell) * k
    ensures k > 0 && k * cell > 0 && q / (k * cell) >= 0
  {
    MulLess(0, k, cell);
  }

  /** The digits block, tap and lane of a position in a blocked matrix are in range. */
  lemma BlockDigits(k: nat, cell: nat, q: nat)
    requires k > 0 && cell > 0
    ensures k * cell > 0 && q / (k * cell) >= 0 && q / (k * cell) * cell >= 0
    ensures 0 <= q % (k * cell) < k * cell
    ensures q % (k * cell) / cell < k && 0 <= q % (k * cell) % cell < cell
  {
    MulLess(0, k, cell);
    var r := q % (k * cell);
    DivBelow(r, cell, k);
    MulNat(q / (k * cell), cell);
  }

  lemma MulCancel(x: nat, y: nat, k: nat)
    requires x * k < y * k
    ensures x < y
  {
    if x >= y {
      MulMono(y, x, k);
    }
  }

  /** The tap of entry `q` of a blocked matrix of `k` taps of `cell` lanes per block. */
  function BlockedTap(k: nat, cell: nat, q: nat): (kk: nat)
    requires k > 0 && cell > 0
    ensures kk < k
  {
    BlockDigits(k, cell, q);
    q % (k * cell) / cell
  }

  /** The pixel of entry `q`: `cell` pixels per block, lane `q % cell` of block `q / (k*cell)`. */
  function BlockedPixel(k: nat, cell: nat, q: nat): nat
    requires k > 0 && cell > 0
  {
    BlockDigits(k, cell, q);
    q / (k * cell) * cell + q % (k * cell) % cell
  }

  /** Lane `c` of tap `kk` of block `b` is entry `(b*k + kk)*cell + c`, and back. */
  lemma DigitsAt(k: nat, cell: nat, b: nat, kk: nat, c: nat, q: nat)
    requires kk < k && c < cell && q == (b * k + kk) * cell + c
    ensures k > 0 && cell > 0
    ensures BlockedTap(k, cell, q) == kk && BlockedPixel(k, cell, q) == b * cell + c
  {
    DivMod3(b, kk, c, k, cell);
  }

  /**
   * Entry `q` of the column-blocked copy of the K×N matrix `x`: block `b`
   * holds, tap by tap, the `cell` pixels from `b*cell`, zero past `n`.
   */
  function BlockedEntry<T>(x: seq<T>, n: nat, k: nat, cell: nat, zero: T, q: nat): T
    requires cell > 0 && |x| >= k * n && q < AlignHi(n, cell) * k
  {
    BlockedPositive(n, k, cell, q);
    var p := BlockedPixel(k, cell, q);
    if p < n then
      FlatBound(BlockedTap(k, cell, q), p, k, n);
      x[BlockedTap(k, cell, q) * n + p]
    else
      zero
  }

  /** The entry the repack cursor reaches at block `b`, tap `kk`, lane `c`. */
  lemma BlockedAt<T>(x: seq<T>, n: nat, k: nat, cell: nat, zero: T, b: nat, kk: nat, c: nat, q: nat)
    requires cell > 0 && |x| >= k * n && b * cell < n && kk < k && c < cell
    requires q == (b * k + kk) * cell + c
    ensures q < AlignHi(n, cell) * k
    ensures b * cell + c < n ==> kk * n + b * cell + c < k * n
    ensures BlockedEntry(x, n, k, cell, zero, q) == if b * cell + c < n then x[kk * n + b * cell + c] else zero
  {
    BlockFits(n, k, cell, b, kk);
    DigitsAt(k, cell, b, kk, c, q);
    if b * cell + c < n {
      FlatBound(kk, b * cell + c, k, n);
    }
  }

  /** One tap of a block, the scalar way: `m` pixels copied from `x[psrc..]`, then zeros up to `cell`. */
  method RepackCells<T>(x: array<T>, psrc: nat, m: nat, cell: nat, zero: T, dst: array<T>, d0: nat)
      returns (d: nat)
    requires x != dst && m <= cell && psrc + m <= x.Length && d0 + cell <= dst.Length
    modifies dst
    ensures d == d0 + cell
    ensures forall q :: d0 <= q < d ==> dst[q] == if q - d0 < m then x[psrc + (q - d0)] else zero
    ensures forall q :: 0 <= q < dst.Length && !(d0 <= q < d) ==> dst[q] == old(dst[q])
  {
    var c := 0;
    d := d0;
    while c < m
      invariant c <= m && d == d0 + c
      invariant forall q :: d0 <= q < d ==> dst[q] == x[psrc + (q - d0)]
      invariant forall q :: 0 <= q < dst.Length && !(d0 <= q < d) ==> dst[q] == old(dst[q])
    {
      dst[d] := x[psrc + c];
      d, c := d + 1, c + 1;
    }
    while c < cell
      invariant m <= c <= cell && d == d0 + c
      invariant forall q :: d0 <= q < d ==> dst[q] == if q - d0 < m then x[psrc + (q - d0)] else zero
      invariant forall q :: 0 <= q < dst.Length && !(d0 <= q < d) ==> dst[q] == old(dst[q])
    {
      dst[d] := zero;
      d, c := d + 1, c + 1;
    }
  }

  /** One tap of a full block of sixteen: two unaligned 8-float loads and stores. */
  method RepackWide<T>(x: array<T>, psrc: nat, dst: array<T>, d0: nat) returns (d: nat)
    requires x != dst && psrc + 16 <= x.Length && d0 + 16 <= dst.Length
    modifies dst
    ensures d == d0 + 16
    ensures forall q :: d0 <= q < d ==> dst[q] == x[psrc + (q - d0)]
    ensures forall q :: 0 <= q < dst.Length && !(d0 <= q < d) ==> dst[q] == old(dst[q])
  {
    var lo, hi := x[psrc .. psrc + 8], x[psrc + 8 .. psrc + 16];
    Store(dst, d0, lo);
    Store(dst, d0 + 8, hi);
    d := d0 + 16;
  }

  /** Tap `kk` of block `b` reads `m = min(cell, n - b*cell)` entries of row `kk` and writes `cell` inside the blocked matrix. */
  lemma TapFits(n: nat, k: nat, cell: nat, b: nat, kk: nat, m: nat, psrc: nat, d0: nat)
    requires cell > 0 && b * cell < n && kk < k && m == Min(cell, n - b * cell)
    requires psrc == kk * n + b * cell && d0 == (b * k + kk) * cell
    ensures 0 < m && psrc + m <= k * n && d0 + cell <= AlignHi(n, cell) * k
  {
    BlockFits(n, k, cell, b, kk);
    FlatBound(kk, b * cell + m - 1, k, n);
  }

  lemma BlockStep(b: nat, k: nat, cell: nat)
    ensures (b * k + k) * cell == ((b + 1) * k) * cell
  {
    MulSucc(b, k);
  }

  /** Tap `kk` of block `b`: the two-store step for a full block of sixteen, the scalar step otherwise. */
  method RepackTap<T>(x: array<T>, ghost xv: seq<T>, n: nat, k: nat, cell: nat, zero: T, dst: array<T>, j: nat, ghost b: nat, kk: nat, d0: nat)
      returns (d: nat)
    requires cell > 0 && x != dst && xv == x[..] && x.Length >= k * n && dst.Length >= AlignHi(n, cell) * k
    requires j == b * cell && j < n && kk < k
    requires d0 == (b * k + kk) * cell && d0 + cell <= AlignHi(n, cell) * k
    requires forall q :: 0 <= q < d0 ==> dst[q] == BlockedEntry(xv, n, k, cell, zero, q)
    modifies dst
    ensures d == d0 + cell
    ensures forall q :: 0 <= q < d ==> dst[q] == BlockedEntry(xv, n, k, cell, zero, q)
    ensures forall q :: d <= q < dst.Length ==> dst[q] == old(dst[q])
  {
    var m := Min(cell, n - j);
    var psrc := kk * n + j;
    TapFits(n, k, cell, b, kk, m, psrc, d0);
    if cell == 16 && m == cell {
      d := RepackWide(x, psrc, dst, d0);
    } else {
      d := RepackCells(x, psrc, m, cell, zero, dst, d0);
    }
    forall q | 0 <= q < d
      ensures dst[q] == BlockedEntry(xv, n, k, cell, zero, q)
    {
      if q < d0 {
        assert dst[q] == old(dst[q]);
      } else {
        assert dst[q] == if q - d0 < m then xv[psrc + (q - d0)] else zero;
        BlockedAt(xv, n, k, cell, zero, b, kk, q - d0, q);
      }
    }
  }

  /** Block `b` (pixels from `j = b*cell`), tap by tap. */
  method RepackBlock<T>(x: array<T>, ghost xv: seq<T>, n: nat, k: nat, cell: nat, zero: T, dst: array<T>, j: nat, ghost b: nat, d0: nat)
      returns (d: nat)
    requires cell > 0 && x != dst && xv == x[..] && x.Length >= k * n && dst.Length >= AlignHi(n, cell) * k
    requires j == b * cell && j < n
    requires d0 == (b * k) * cell && d0 <= AlignHi(n, cell) * k
    requires forall q :: 0 <= q < d0 ==> dst[q] == BlockedEntry(xv, n, k, cell, zero, q)
    modifies dst
    ensures d == (b * k + k) * cell && d <= AlignHi(n, cell) * k
    ensures forall q :: 0 <= q < d ==> dst[q] == BlockedEntry(xv, n, k, cell, zero, q)
    ensures forall q :: d <= q < dst.Length ==> dst[q] == old(dst[q])
  {
    var kk := 0;
    d := d0;
    while kk < k
      invariant kk <= k && d == (b * k + kk) * cell && d <= AlignHi(n, cell) * k
      invariant forall q :: 0 <= q < d ==> dst[q] == BlockedEntry(xv, n, k, cell, zero, q)
      invariant forall q :: d <= q < dst.Length ==> dst[q] == old(dst[q])
    {
      BlockFits(n, k, cell, b, kk);
      d := RepackTap(x, xv, n, k, cell, zero, dst, j, b, kk, d);
      MulSucc(b * k + kk, cell);
      kk := kk + 1;
    }
  }

  /**
   * Phase 2 of `Ver1::PrepareB`: the K×N matrix `x` re-emitted in column
   * blocks of `cell` pixels (with the two-store step for full blocks of 16).
   */
  method Repack<T>(x: array<T>, n: nat, k: nat, cell: nat, zero: T, dst: array<T>)
    requires cell > 0 && x != dst && x.Length >= k * n && dst.Length >= AlignHi(n, cell) * k
    modifies dst
    ensures forall q :: 0 <= q < AlignHi(n, cell) * k ==> dst[q] == BlockedEntry(x[..], n, k, cell, zero, q)
    ensures forall q :: 0 <= q < dst.Length && q >= AlignHi(n, cell) * k ==> dst[q] == old(dst[q])
  {
    ghost var xv := x[..];
    var j := 0;
    ghost var b := 0;
    var d := 0;
    while j < n
      invariant j == b * cell && j <= AlignHi(n, cell) && d == (b * k) * cell && d <= AlignHi(n, cell) * k
      invariant forall q :: 0 <= q < d ==> dst[q] == BlockedEntry(xv, n, k, cell, zero, q)
      invariant forall q :: d <= q < dst.Length ==> dst[q] == old(dst[q])
    {
      d := RepackBlock(x, xv, n, k, cell, zero, dst, j, b, d);
      DivMod(b, 0, cell);
      MultipleStep(j, AlignHi(n, cell), cell);
      BlockStep(b, k, cell);
      j, b := j + cell, b + 1;
    }
    BlocksEnd(n, k, cell, b);
  }

  /** The block loop stops exactly at `AlignHi(n, cell)`, having written `AlignHi(n, cell)*k` entries. */
  lemma BlocksEnd(n: nat, k: nat, cell: nat, b: nat)
    requires cell > 0 && n <= b * cell <= AlignHi(n, cell)
    ensures b * cell == AlignHi(n, cell) && (b * k) * cell == AlignHi(n, cell) * k
  {
    assert (b * k) * cell == (b * cell) * k;
    DivMod(b, 0, cell);
    if b * cell < AlignHi(n, cell) {
      MultipleStep(b * cell, AlignHi(n, cell), cell);
    }
  }

  // ---------------------------------------------------------------------------
  // PrepareB: the entry point
  // ---------------------------------------------------------------------------

  /**
   * Entry `q` of the packed B operand of the blocked GEMM: block `q / (K*cell)`
   * of `cell` pixels, tap `q % (K*cell) / cell`, pixel lane `q % cell`; the
   * lanes past the last pixel are zero.
   */
  function PackedBEntry<T>(g: Geometry, src: seq<T>, zero: T, cell: nat, q: nat): T
    requires cell > 0 && |src| >= g.SrcSize() && q < AlignHi(g.N(), cell) * g.K()
  {
    BlockedPositive(g.N(), g.K(), cell, q);
    var p := BlockedPixel(g.K(), cell, q);
    if p < g.N() then PatchEntry(g, src, zero, p, BlockedTap(g.K(), cell, q)) else zero
  }

  /**
   * Where a patch entry lands: pixel `p = b*cell + c`, tap `kk` is entry
   * `q = (b*K + kk)*cell + c`, lane `c` of tap `kk` of block `b`.
   */
  lemma PackedBAt<T>(g: Geometry, src: seq<T>, zero: T, cell: nat, b: nat, c: nat, kk: nat, p: nat, q: nat)
    requires cell > 0 && |src| >= g.SrcSize() && c < cell && kk < g.K()
    requires p == b * cell + c && p < g.N()
    requires q == (b * g.K() + kk) * cell + c
    ensures q < AlignHi(g.N(), cell) * g.K()
    ensures PackedBEntry(g, src, zero, cell, q) == PatchEntry(g, src, zero, p, kk)
  {
    BlockFits(g.N(), g.K(), cell, b, kk);
    DigitsAt(g.K(), cell, b, kk, c, q);
  }

  /** Every lane of a block past the last pixel is zero. */
  lemma PackedBPadding<T>(g: Geometry, src: seq<T>, zero: T, cell: nat, b: nat, c: nat, kk: nat, q: nat)
    requires cell > 0 && |src| >= g.SrcSize() && b * cell < g.N() && kk < g.K() && c < cell
    requires b * cell + c >= g.N()
    requires q == (b * g.K() + kk) * cell + c
    ensures q < AlignHi(g.N(), cell) * g.K()
    ensures PackedBEntry(g, src, zero, cell, q) == zero
  {
    BlockFits(g.N(), g.K(), cell, b, kk);
    DigitsAt(g.K(), cell, b, kk, c, q);
  }

  /** Entry `q` of a blocked matrix split into block `b`, tap `kk`, lane `c` (pixel `p = b*cell + c`). */
  lemma BlockedParts(n: nat, k: nat, cell: nat, q: nat) returns (b: nat, kk: nat, c: nat, p: nat)
    requires cell > 0 && q < AlignHi(n, cell) * k
    ensures b * cell < n && kk < k && c < cell
    ensures p == b * cell + c && q == (b * k + kk) * cell + c
  {
    BlockedPositive(n, k, cell, q);
    var ck := k * cell;
    b := q / ck;
    var r := q % ck;
    Euclid(q, ck);
    Euclid(r, cell);
    kk, c := r / cell, r % cell;
    DivBelow(r, cell, k);
    Regroup(b, k, kk, cell, c);
    BlockBelow(n, k, cell, b, q);
    p := b * cell + c;
  }

  lemma Regroup(b: nat, k: nat, kk: nat, cell: nat, c: nat)
    ensures b * (k * cell) + (kk * cell + c) == (b * k + kk) * cell + c
  {
  }

  /** A block that starts at or before entry `q` of the blocked matrix starts below `n`. */
  lemma BlockBelow(n: nat, k: nat, cell: nat, b: nat, q: nat)
    requires cell > 0 && q < AlignHi(n, cell) * k && b * (k * cell) <= q
    ensures b * cell < n
  {
    var a := AlignHi(n, cell);
    assert (b * cell) * k == b * (k * cell);
    MulCancel(b * cell, a, k);
    DivMod(b, 0, cell);
    MultipleStep(b * cell, a, cell);
  }

  /** The blocked copy of the phase-1 matrix is the packed B operand. */
  lemma BlockedTmp<T>(g: Geometry, src: seq<T>, x: seq<T>, zero: T, cell: nat, q: nat)
    requires cell > 0 && |src| >= g.SrcSize() && |x| >= g.K() * g.N() && q < AlignHi(g.N(), cell) * g.K()
    requires forall t :: 0 <= t < g.K() * g.N() ==> x[t] == TmpEntry(g, src, zero, t)
    ensures BlockedEntry(x, g.N(), g.K(), cell, zero, q) == PackedBEntry(g, src, zero, cell, q)
  {
    var b, kk, c, p := BlockedParts(g.N(), g.K(), cell, q);
    BlockedAt(x, g.N(), g.K(), cell, zero, b, kk, c, q);
    if p < g.N() {
      PackedBAt(g, src, zero, cell, b, c, kk, p, q);
      DivMod(kk, p, g.N());
      assert x[kk * g.N() + p] == TmpEntry(g, src, zero, kk * g.N() + p);
    } else {
      PackedBPadding(g, src, zero, cell, b, c, kk, q);
    }
  }

  /** For the shortcut's shape, the blocked copy of the source itself is the packed B operand. */
  lemma BlockedSource<T>(g: Geometry, src: seq<T>, zero: T, cell: nat, q: nat)
    requires ShortcutShape(g) && cell > 0 && |src| >= g.SrcSize() && q < AlignHi(g.N(), cell) * g.K()
    ensures |src| >= g.K() * g.N()
    ensures BlockedEntry(src, g.N(), g.K(), cell, zero, q) == PackedBEntry(g, src, zero, cell, q)
  {
    ShortcutVolume(g);
    var b, kk, c, p := BlockedParts(g.N(), g.K(), cell, q);
    BlockedAt(src, g.N(), g.K(), cell, zero, b, kk, c, q);
    if p < g.N() {
      PackedBAt(g, src, zero, cell, b, c, kk, p, q);
      ShortcutEntry(g, src, zero, p, kk);
    } else {
      PackedBPadding(g, src, zero, cell, b, c, kk, q);
    }
  }

  lemma ShortcutVolume(g: Geometry)
    requires ShortcutShape(g)
    ensures g.K() * g.N() == g.SrcSize()
  {
    assert g.K() == g.srcDepth && g.N() == g.srcHeight * g.srcWidth;
  }

  /**
   * When phase 1 may be skipped, corrected: a 1×1 kernel without padding and
   * with unit strides, whose K×N patch matrix is the source itself.
   */
  predicate ShortcutApplies(g: Geometry) {
    g.kernelX * g.kernelY == 1 && g.padX == 0 && g.padY == 0 && g.strideX == 1 && g.strideY == 1
  }

  lemma ShortcutMeans(g: Geometry)
    requires g.Valid() && ShortcutApplies(g)
    ensures ShortcutShape(g)
  {
    assert g.kernelX == 1 && g.kernelY == 1;
  }

  /**
   * `Ver1::PrepareB`: the packed B operand, `AlignHi(N, cell)*K` entries.
   * Phase 1 unfolds the source into `tmp` unless the shortcut applies; the
   * unit-step rows are taken when `FastApplies`.
   */
  method PrepareB<T>(src: array<T>, g: Geometry, cell: nat, zero: T, tmp: array<T>, dst: array<T>)
    requires g.Valid() && cell > 0
    requires src != dst && src != tmp && tmp != dst
    requires src.Length >= g.SrcSize() && dst.Length >= AlignHi(g.N(), cell) * g.K()
    requires !ShortcutApplies(g) ==> tmp.Length >= g.K() * g.N()
    modifies tmp, dst
    ensures forall q :: 0 <= q < AlignHi(g.N(), cell) * g.K() ==> dst[q] == PackedBEntry(g, src[..], zero, cell, q)
    ensures forall q :: 0 <= q < dst.Length && q >= AlignHi(g.N(), cell) * g.K() ==> dst[q] == old(dst[q])
    ensures ShortcutApplies(g) ==> tmp[..] == old(tmp[..])
    ensures forall q :: 0 <= q < tmp.Length && q >= g.K() * g.N() ==> tmp[q] == old(tmp[q])
  {
    if !ShortcutApplies(g) {
      Unfold(src, g, zero, tmp, FastApplies(g));
      Repack(tmp, g.N(), g.K(), cell, zero, dst);
      forall q | 0 <= q < AlignHi(g.N(), cell) * g.K()
        ensures dst[q] == PackedBEntry(g, src[..], zero, cell, q)
      {
        BlockedTmp(g, src[..], tmp[..], zero, cell, q);
      }
    } else {
      ShortcutMeans(g);
      assert g.K() * g.N() == g.SrcSize();
      Repack(src, g.N(), g.K(), cell, zero, dst);
      forall q | 0 <= q < AlignHi(g.N(), cell) * g.K()
        ensures dst[q] == PackedBEntry(g, src[..], zero, cell, q)
      {
        BlockedSource(g, src[..], zero, cell, q);
      }
    }
  }

  // ---------------------------------------------------------------------------
  // The two guards as written
  // ---------------------------------------------------------------------------

  /** The shortcut's condition as written: only the kernel size is looked at. */
  predicate ShortcutAppliesAsWritten(g: Geometry) {
    g.kernelX * g.kernelY == 1
  }

  /**
   * A 1×1 kernel with horizontal stride 2 and no padding: the as-written
   * shortcut blocks the source itself, so pixel 1 (output column 1) is read
   * from source column 1, while the convolution samples source column 2 there
   * (with the strategy's `cell` of 16).
   */
  lemma AsWrittenShortcutMisreads<T>(g: Geometry, src: seq<T>, zero: T)
    requires ShortcutAppliesAsWritten(g) && g.padX == 0 && g.padY == 0 && g.strideX == 2
    requires g.srcDepth >= 1 && g.srcHeight >= 1 && g.srcWidth >= 3 && g.dstHeight >= 1 && g.dstWidth >= 2
    requires |src| >= g.SrcSize() && |src| >= g.K() * g.N() && |src| >= 3
    ensures !ShortcutApplies(g)
    ensures 1 < AlignHi(g.N(), 16) * g.K()
    ensures BlockedEntry(src, g.N(), g.K(), 16, zero, 1) == src[1]
    ensures PackedBEntry(g, src, zero, 16, 1) == src[2]
  {
    assert g.kernelX == 1 && g.kernelY == 1 && g.K() == g.srcDepth;
    MulMono(1, g.dstHeight, g.dstWidth);
    BlockedLane1(src, g.N(), g.K(), zero);
    SampledLane1(g, src, zero);
  }

  /** Lane 1 of the first block of a blocked matrix of at least two pixels is `x[1]`. */
  lemma BlockedLane1<T>(x: seq<T>, n: nat, k: nat, zero: T)
    requires n >= 2 && k >= 1 && |x| >= k * n
    ensures 1 < AlignHi(n, 16) * k
    ensures BlockedEntry(x, n, k, 16, zero, 1) == x[1]
  {
    BlockedAt(x, n, k, 16, zero, 0, 0, 1, 1);
  }

  /** For a 1×1 kernel of horizontal stride 2 and no padding, lane 1 of the packed B operand samples `src[2]`. */
  lemma SampledLane1<T>(g: Geometry, src: seq<T>, zero: T)
    requires g.kernelX == 1 && g.kernelY == 1 && g.padX == 0 && g.padY == 0 && g.strideX == 2
    requires g.srcDepth >= 1 && g.srcHeight >= 1 && g.srcWidth >= 3 && g.dstHeight >= 1 && g.dstWidth >= 2
    requires |src| >= g.SrcSize() && g.N() >= 2
    ensures 1 < AlignHi(g.N(), 16) * g.K()
    ensures PackedBEntry(g, src, zero, 16, 1) == src[2]
  {
    PackedBAt(g, src, zero, 16, 0, 1, 0, 1, 1);
    PatchEntryAt(g, src, zero, 0, 1, 0, 0, 0);
  }

  /** A 1×1 kernel with stride 2 over a 100×100 image: 50×50 outputs. */
  const Strided1x1: Geometry := Geometry(100, 100, 1, 1, 1, 0, 0, 2, 2, 1, 1, 50, 50, 1)

  lemma Strided1x1Valid()
    ensures Strided1x1.Valid() && ShortcutAppliesAsWritten(Strided1x1) && !ShortcutApplies(Strided1x1)
  {
  }

  lemma Strided1x1Misreads<T>(src: seq<T>, zero: T)
    requires |src| >= 10000
    ensures Strided1x1.N() == 2500 && Strided1x1.K() == 1
    ensures BlockedEntry(src, 2500, 1, 16, zero, 1) == src[1]
    ensures PackedBEntry(Strided1x1, src, zero, 16, 1) == src[2]
  {
    assert Strided1x1.SrcSize() == 10000 && Strided1x1.N() == 2500;
    AsWrittenShortcutMisreads(Strided1x1, src, zero);
  }

  /** The unit-step path's condition as written: the body width is not checked. */
  predicate FastAppliesAsWritten(g: Geometry) {
    g.UnitStep()
  }

  /** `bodySize = dstWidth - padX*2` in `size_t`. */
  function BodySizeAsWritten(g: Geometry): (r: int)
    ensures 0 <= r < SizeMod
  {
    (g.dstWidth - 2 * g.padX) % SizeMod
  }

  /**
   * When the kernel is wider than the source plus one, the row is narrower
   * than its two borders and `bodySize` wraps to a value far beyond the
   * source row: the `memcpy` reads and writes past both buffers.
   */
  lemma AsWrittenBodySizeWraps(g: Geometry)
    requires g.Valid() && FastAppliesAsWritten(g)
    requires g.kernelX > g.srcWidth + 1 && g.srcWidth + 2 * g.padX < SizeMod
    ensures !FastApplies(g)
    ensures BodySizeAsWritten(g) == SizeMod - (2 * g.padX - g.dstWidth)
    ensures BodySizeAsWritten(g) > g.srcWidth
  {
    UnitStepExtent(g);
    var v := g.dstWidth - 2 * g.padX;
    assert -SizeMod < v < 0;
    DivMod(-1, v + SizeMod, SizeMod);
  }

  /** A 3×1 kernel over a one-column, 7000-row source padded by one column. */
  const Narrow3x1: Geometry := Geometry(1, 7000, 1, 3, 1, 1, 0, 1, 1, 1, 1, 1, 7000, 1)

  lemma Narrow3x1Wraps()
    ensures Narrow3x1.Valid() && FastAppliesAsWritten(Narrow3x1) && !FastApplies(Narrow3x1)
    ensures BodySizeAsWritten(Narrow3x1) == SizeMod - 1
  {
    AsWrittenBodySizeWraps(Narrow3x1);
  }
}
