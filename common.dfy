/**
 * Shared integer helpers: the library's alignment functions, the register and
 * alignment constants of the AVX-512 build, mixed-radix arithmetic, and
 * memset/memcpy on arrays.
 */
module Common {

  /** Floats per AVX-512 register (the library's `F`). */
  const F: nat := 16

  /** Byte alignment of the AVX-512 build (the library's `SIMD_ALIGN`). */
  const SimdAlign: nat := 64

  /** Bytes per float. */
  const FloatBytes: nat := 4

  /** Wrap-around modulus of `size_t` on the 64-bit targets. */
  const SizeMod: int := 0x1_0000_0000_0000_0000

  /** A field the source leaves unset on some paths. */
  datatype Option<T> = None | Some(value: T)

  function Min(a: int, b: int): (r: int)
    ensures r <= a && r <= b && (r == a || r == b)
  {
    if a < b then a else b
  }

  /** `Simd::AlignHi`: the least multiple of `align` that is at least `x`. */
  function AlignHi(x: nat, align: nat): (r: nat)
    requires align > 0
    ensures r % align == 0 && x <= r < x + align
  {
    var q := (x + align - 1) / align;
    DivBounds(x + align - 1, align);
    q * align
  }

  /** `Simd::AlignLo`: the greatest multiple of `align` that is at most `x`. */
  function AlignLo(x: nat, align: nat): (r: nat)
    requires align > 0
    ensures r % align == 0 && r <= x < r + align
  {
    DivBounds(x, align);
    x / align * align
  }

  lemma DivBounds(x: nat, m: nat)
    requires m > 0
    ensures x / m >= 0 && (x / m * m) % m == 0
    ensures x / m * m <= x < x / m * m + m
  {
    DivMod(x / m, 0, m);
  }

  /** Uniqueness of Euclidean division: `a*m + b` splits back into `a` and `b`. */
  lemma DivMod(a: int, b: int, m: int)
    requires m > 0 && 0 <= b < m
    ensures (a * m + b) / m == a && (a * m + b) % m == b
  {
    var x := a * m + b;
    var q, r := x / m, x % m;
    assert x == q * m + r;
    assert (a - q) * m == r - b;
    MulStrict(a - q, m);
  }

  lemma MulStrict(d: int, m: int)
    requires m > 0 && -m < d * m < m
    ensures d == 0
  {
  }

  /** The flat index of `i < n` rows of width `m` stays below `n*m`. */
  lemma FlatBound(i: nat, j: nat, n: nat, m: nat)
    requires i < n && j < m
    ensures 0 <= i * m + j < n * m
  {
    assert (n - 1 - i) * m >= 0;
    assert n * m == i * m + (n - 1 - i) * m + m;
  }

  /** Euclidean division of a natural number. */
  lemma Euclid(q: nat, m: nat)
    requires m > 0
    ensures q / m >= 0 && 0 <= q % m < m && q == q / m * m + q % m
  {
  }

  lemma MulAssoc(a: nat, b: nat, c: nat)
    ensures a * (b * c) == a * b * c
  {
  }

  lemma MulSucc(a: nat, b: nat)
    ensures a * b + b == (a + 1) * b
  {
  }

  lemma MulNat(a: nat, b: nat)
    ensures a * b >= 0
  {
  }

  /** Both factors of a product above some natural number are positive. */
  lemma PositiveFactors(x: nat, a: nat, b: nat)
    requires x < a * b
    ensures a > 0 && b > 0
  {
  }

  lemma MulLess(a: nat, b: nat, c: nat)
    requires a < b && c > 0
    ensures a * c < b * c && c * a < c * b
  {
    assert b * c == a * c + (b - a) * c;
  }

  lemma MulMono(a: nat, b: nat, c: nat)
    requires a <= b
    ensures a * c <= b * c
  {
    assert b * c == a * c + (b - a) * c;
  }

  /** Two multiples of `s` that differ are at least `s` apart. */
  lemma MultipleStep(x: nat, bound: nat, s: nat)
    requires s > 0 && x % s == 0 && bound % s == 0 && x < bound
    ensures x + s <= bound
  {
    DivBounds(x, s);
    DivBounds(bound, s);
    if bound / s < x / s + 1 {
      MulMono(bound / s, x / s, s);
    } else {
      MulMono(x / s + 1, bound / s, s);
    }
  }

  /** Three-level mixed radix: `(a*m1 + b)*m2 + c` splits back into its digits. */
  lemma DivMod3(a: nat, b: nat, c: nat, m1: nat, m2: nat)
    requires b < m1 && c < m2
    ensures (a * m1 + b) * m2 + c == a * (m1 * m2) + (b * m2 + c)
    ensures b * m2 + c < m1 * m2
    ensures ((a * m1 + b) * m2 + c) / (m1 * m2) == a
    ensures ((a * m1 + b) * m2 + c) % (m1 * m2) == b * m2 + c
    ensures (b * m2 + c) / m2 == b && (b * m2 + c) % m2 == c
  {
    assert (a * m1 + b) * m2 == a * (m1 * m2) + b * m2;
    FlatBound(b, c, m1, m2);
    DivMod(a, b * m2 + c, m1 * m2);
    DivMod(b, c, m2);
  }

  /**
   * A sequence whose every entry is read from a distinct position of another
   * sequence of the same length holds the same elements.
   */
  lemma {:induction false} InjectionPermutes<T>(a: seq<T>, b: seq<T>, f: nat -> nat)
    requires |a| == |b|
    requires forall q :: 0 <= q < |b| ==> f(q) < |a| && b[q] == a[f(q)]
    requires forall q1, q2 :: 0 <= q1 < q2 < |b| ==> f(q1) != f(q2)
    ensures multiset(a) == multiset(b)
    decreases |b|
  {
    if |b| > 0 {
      var n := |b| - 1;
      var j := f(n);
      var a', b' := a[..j] + a[j + 1..], b[..n];
      var f': nat -> nat := q => if f(q) <= j then f(q) else f(q) - 1;
      forall q | 0 <= q < n
        ensures f'(q) < |a'| && b'[q] == a'[f'(q)]
      {
        assert f(q) != j;
      }
      forall q1, q2 | 0 <= q1 < q2 < n
        ensures f'(q1) != f'(q2)
      {
        assert f(q1) != j && f(q2) != j;
      }
      InjectionPermutes(a', b', f');
      assert a == a[..j] + [a[j]] + a[j + 1..];
      assert b == b' + [b[n]];
    }
  }

  /** `memset(a + at, v, len)`. */
  method Fill<T>(a: array<T>, at: nat, len: nat, v: T)
    requires at + len <= a.Length
    modifies a
    ensures forall i :: 0 <= i < a.Length ==> a[i] == (if at <= i < at + len then v else old(a[i]))
  {
    forall i | at <= i < at + len {
      a[i] := v;
    }
  }

  /** `memcpy(dst + to, src + from, len)` between two distinct buffers. */
  method Copy<T>(src: array<T>, from: nat, dst: array<T>, to: nat, len: nat)
    requires src != dst
    requires from + len <= src.Length && to + len <= dst.Length
    modifies dst
    ensures forall i :: 0 <= i < dst.Length ==>
      dst[i] == (if to <= i < to + len then src[from + i - to] else old(dst[i]))
  {
    forall i | to <= i < to + len {
      dst[i] := src[from + i - to];
    }
  }

  /** A vector store: `v` written to `dst[at..at + |v|]`. */
  method Store<T>(dst: array<T>, at: nat, v: seq<T>)
    requires at + |v| <= dst.Length
    modifies dst
    ensures forall i :: 0 <= i < dst.Length ==>
      dst[i] == (if at <= i < at + |v| then v[i - at] else old(dst[i]))
  {
    forall i | at <= i < at + |v| {
      dst[i] := v[i - at];
    }
  }
}
