/**
 * The AVX and SSE lane shuffles `Ver1::PrepareA` uses, as functions on
 * sequences of lanes (lane 0 first), and the 4-row transposes they compose.
 */
module Lanes {

  /** `_mm_unpacklo_ps`: `[a0, b0, a1, b1]`. */
  function Unpacklo128<T>(a: seq<T>, b: seq<T>): (r: seq<T>)
    requires |a| == 4 && |b| == 4
    ensures |r| == 4
  {
    [a[0], b[0], a[1], b[1]]
  }

  /** `_mm_unpackhi_ps`: `[a2, b2, a3, b3]`. */
  function Unpackhi128<T>(a: seq<T>, b: seq<T>): (r: seq<T>)
    requires |a| == 4 && |b| == 4
    ensures |r| == 4
  {
    [a[2], b[2], a[3], b[3]]
  }

  /** `_mm256_unpacklo_ps`: `_mm_unpacklo_ps` within each 128-bit half. */
  function Unpacklo256<T>(a: seq<T>, b: seq<T>): (r: seq<T>)
    requires |a| == 8 && |b| == 8
    ensures |r| == 8
  {
    Unpacklo128(a[..4], b[..4]) + Unpacklo128(a[4..], b[4..])
  }

  /** `_mm256_unpackhi_ps`: `_mm_unpackhi_ps` within each 128-bit half. */
  function Unpackhi256<T>(a: seq<T>, b: seq<T>): (r: seq<T>)
    requires |a| == 8 && |b| == 8
    ensures |r| == 8
  {
    Unpackhi128(a[..4], b[..4]) + Unpackhi128(a[4..], b[4..])
  }

  /** One 128-bit half chosen by a 4-bit selector of `_mm256_permute2f128_ps`. */
  function SelectHalf<T>(a: seq<T>, b: seq<T>, sel: bv8, zero: T): (r: seq<T>)
    requires |a| == 8 && |b| == 8
    ensures |r| == 4
  {
    if sel & 0x08 != 0 then [zero, zero, zero, zero]
    else if sel & 0x03 == 0 then a[..4]
    else if sel & 0x03 == 1 then a[4..]
    else if sel & 0x03 == 2 then b[..4]
    else b[4..]
  }

  /** `_mm256_permute2f128_ps(a, b, imm)`: low half by bits 0-3, high half by bits 4-7. */
  function Permute2f128<T>(a: seq<T>, b: seq<T>, imm: bv8, zero: T): (r: seq<T>)
    requires |a| == 8 && |b| == 8
    ensures |r| == 8
  {
    SelectHalf(a, b, imm & 0x0F, zero) + SelectHalf(a, b, imm >> 4, zero)
  }

  function Row<T>(s0: seq<T>, s1: seq<T>, s2: seq<T>, s3: seq<T>, c: nat): seq<T>
    requires c < 4
  {
    if c == 0 then s0 else if c == 1 then s1 else if c == 2 then s2 else s3
  }

  /** The eight-column step of `PrepareA`: four loads, eight unpacks, four permuted stores. */
  function Transpose4x8<T>(s0: seq<T>, s1: seq<T>, s2: seq<T>, s3: seq<T>, zero: T): (r: seq<T>)
    requires |s0| == 8 && |s1| == 8 && |s2| == 8 && |s3| == 8
    ensures |r| == 32
  {
    var s00, s01 := Unpacklo256(s0, s2), Unpacklo256(s1, s3);
    var s10, s11 := Unpackhi256(s0, s2), Unpackhi256(s1, s3);
    var d0, d1 := Unpacklo256(s00, s01), Unpackhi256(s00, s01);
    var d2, d3 := Unpacklo256(s10, s11), Unpackhi256(s10, s11);
    Permute2f128(d0, d1, 0x20, zero) + Permute2f128(d2, d3, 0x20, zero)
      + Permute2f128(d0, d1, 0x31, zero) + Permute2f128(d2, d3, 0x31, zero)
  }

  /** The four-column step of `PrepareA`: four loads, six unpacks, four stores. */
  function Transpose4x4<T>(s0: seq<T>, s1: seq<T>, s2: seq<T>, s3: seq<T>): (r: seq<T>)
    requires |s0| == 4 && |s1| == 4 && |s2| == 4 && |s3| == 4
    ensures |r| == 16
  {
    var s00, s01 := Unpacklo128(s0, s2), Unpacklo128(s1, s3);
    var s10, s11 := Unpackhi128(s0, s2), Unpackhi128(s1, s3);
    Unpacklo128(s00, s01) + Unpackhi128(s00, s01) + Unpacklo128(s10, s11) + Unpackhi128(s10, s11)
  }

  /** Column `j` of the four rows, as one 4-lane group. */
  function Column<T>(s0: seq<T>, s1: seq<T>, s2: seq<T>, s3: seq<T>, j: nat): (r: seq<T>)
    requires j < |s0| && j < |s1| && j < |s2| && j < |s3|
    ensures |r| == 4
  {
    [s0[j], s1[j], s2[j], s3[j]]
  }

  lemma UnpackNetwork<T>(s0: seq<T>, s1: seq<T>, s2: seq<T>, s3: seq<T>)
    requires |s0| == 8 && |s1| == 8 && |s2| == 8 && |s3| == 8
    ensures Unpacklo256(Unpacklo256(s0, s2), Unpacklo256(s1, s3)) == Column(s0, s1, s2, s3, 0) + Column(s0, s1, s2, s3, 4)
    ensures Unpackhi256(Unpacklo256(s0, s2), Unpacklo256(s1, s3)) == Column(s0, s1, s2, s3, 1) + Column(s0, s1, s2, s3, 5)
    ensures Unpacklo256(Unpackhi256(s0, s2), Unpackhi256(s1, s3)) == Column(s0, s1, s2, s3, 2) + Column(s0, s1, s2, s3, 6)
    ensures Unpackhi256(Unpackhi256(s0, s2), Unpackhi256(s1, s3)) == Column(s0, s1, s2, s3, 3) + Column(s0, s1, s2, s3, 7)
  {
  }

  lemma Transpose4x8Columns<T>(s0: seq<T>, s1: seq<T>, s2: seq<T>, s3: seq<T>, zero: T)
    requires |s0| == 8 && |s1| == 8 && |s2| == 8 && |s3| == 8
    ensures Transpose4x8(s0, s1, s2, s3, zero)
         == Column(s0, s1, s2, s3, 0) + Column(s0, s1, s2, s3, 1) + Column(s0, s1, s2, s3, 2) + Column(s0, s1, s2, s3, 3)
          + Column(s0, s1, s2, s3, 4) + Column(s0, s1, s2, s3, 5) + Column(s0, s1, s2, s3, 6) + Column(s0, s1, s2, s3, 7)
  {
    UnpackNetwork(s0, s1, s2, s3);
    var d0, d1 := Column(s0, s1, s2, s3, 0) + Column(s0, s1, s2, s3, 4), Column(s0, s1, s2, s3, 1) + Column(s0, s1, s2, s3, 5);
    var d2, d3 := Column(s0, s1, s2, s3, 2) + Column(s0, s1, s2, s3, 6), Column(s0, s1, s2, s3, 3) + Column(s0, s1, s2, s3, 7);
    assert Permute2f128(d0, d1, 0x20, zero) == d0[..4] + d1[..4];
    assert Permute2f128(d2, d3, 0x20, zero) == d2[..4] + d3[..4];
    assert Permute2f128(d0, d1, 0x31, zero) == d0[4..] + d1[4..];
    assert Permute2f128(d2, d3, 0x31, zero) == d2[4..] + d3[4..];
  }

  /** The shuffle network interleaves the four rows: lane `t` is row `t % 4`, column `t / 4`. */
  lemma Transpose4x8Interleaves<T>(s0: seq<T>, s1: seq<T>, s2: seq<T>, s3: seq<T>, zero: T)
    requires |s0| == 8 && |s1| == 8 && |s2| == 8 && |s3| == 8
    ensures forall t :: 0 <= t < 32 ==> Transpose4x8(s0, s1, s2, s3, zero)[t] == Row(s0, s1, s2, s3, t % 4)[t / 4]
  {
    Transpose4x8Columns(s0, s1, s2, s3, zero);
  }

  lemma Transpose4x4Interleaves<T>(s0: seq<T>, s1: seq<T>, s2: seq<T>, s3: seq<T>)
    requires |s0| == 4 && |s1| == 4 && |s2| == 4 && |s3| == 4
    ensures forall t :: 0 <= t < 16 ==> Transpose4x4(s0, s1, s2, s3)[t] == Row(s0, s1, s2, s3, t % 4)[t / 4]
  {
    var r := Transpose4x4(s0, s1, s2, s3);
    assert r == [s0[0], s1[0], s2[0], s3[0], s0[1], s1[1], s2[1], s3[1],
                 s0[2], s1[2], s2[2], s3[2], s0[3], s1[3], s2[3], s3[3]];
  }

  /** The register network of the eight-column step, as the loop body runs it. */
  method Shuffle4x8<T>(s0: seq<T>, s1: seq<T>, s2: seq<T>, s3: seq<T>, zero: T) returns (v: seq<T>)
    requires |s0| == 8 && |s1| == 8 && |s2| == 8 && |s3| == 8
    ensures |v| == 32
    ensures forall t :: 0 <= t < 32 ==> v[t] == Row(s0, s1, s2, s3, t % 4)[t / 4]
  {
    v := Transpose4x8(s0, s1, s2, s3, zero);
    Transpose4x8Interleaves(s0, s1, s2, s3, zero);
  }

  /** The register network of the four-column step, as the loop body runs it. */
  method Shuffle4x4<T>(s0: seq<T>, s1: seq<T>, s2: seq<T>, s3: seq<T>) returns (v: seq<T>)
    requires |s0| == 4 && |s1| == 4 && |s2| == 4 && |s3| == 4
    ensures |v| == 16
    ensures forall t :: 0 <= t < 16 ==> v[t] == Row(s0, s1, s2, s3, t % 4)[t / 4]
  {
    v := Transpose4x4(s0, s1, s2, s3);
    Transpose4x4Interleaves(s0, s1, s2, s3);
  }
}
